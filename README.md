# rARPACK symmetric driver, modelled in Dafny

rARPACK computes a few eigenvalues and eigenvectors of a large matrix by
driving ARPACK's reverse-communication kernel. This project models the part of
it that is its own: the driver of the symmetric problem, `do_eigs_sym`; the
three status decoders that turn ARPACK's numeric statuses into R warnings and
errors; and the state set up by the `Eigs` solver base class.

Modules:

- `ArpackStatus` (`status.dfy`): the decoders `dsaupd_warn_nonsym`,
  `dsaupd_error_nonsym` and `dseupd_error_nonsym`. They are total functions
  from a status to silence, a `Warning`, or a `Reason` that keeps the numeric
  code.
- `Arpack` (`arpack.dfy`): the interface to the kernel. `Problem` holds the
  fixed arguments. `Rci` is the state the kernel reads and writes in place.
  `Shaped` says every buffer has the length the driver allocated. Also here:
  the parameter block a solve starts with, the `workl` length, and one
  matrix-vector product on `workd`. dsaupd and dseupd are function parameters.
  What ARPACK guarantees its caller (buffer lengths kept, product offsets in
  range, a converged count that fits) is written as the predicates
  `SaupdHonours` and `SeupdHonours`, which the driver takes as preconditions.
- `EigsSym` (`eigs_sym.dfy`): the driver. It has two layers:
  - a chain of specification functions: `Setup`, `Iterate` (the exchange
    loop), `Conclude` (status checks, dseupd, result) and `Collect` (truncation
    to nconv), composed by `Drive`;
  - the method `DoEigsSym`, which runs the same steps in place on arrays. Its
    postcondition says it produces exactly what `Drive` describes.
- `EigsSymProofs` (`eigs_sym_proofs.dfy`): properties of `Drive`, and so of the
  driver.
- `EigsBase` (`eigs.dfy`): the class `Eigs`, with its constructor and
  `InitResid`.

A solve's observable effects, from the first dsaupd call on, are recorded as
a trace of events:

- each dsaupd call, with the `ido` it returned;
- each product of the exchange loop, with its 0-based offsets into `workd`;
- each R warning;
- the dseupd call;
- each `delete[]` of the five workspace buffers `workl`, `workd`, `ipntr`,
  `iparam` and `resid`.

The product that seeds `resid` (line 156) and the `delete[]` of the probe
vector `initcoef` (line 157) come before the first dsaupd call. They are not
in the trace, so every count of products below is a count of loop products.

`Rf_error` never returns, so it ends the solve as a `Raised` outcome, which
holds the phase and the decoded reason. The source loop is bounded only by
the kernel. In the model it is bounded by a `fuel` parameter, and a run that
uses up its fuel ends as `OutOfFuel`.

The driver requires `n >= 1`, because it writes `initcoef[n - 1]` without a
check. It also requires a `which` string of at least one character, because
it reads the first two characters of its C string. `nev` and `ncv` are natural
numbers (see "Left out").

How the driver behaves:

- Configuration errors are not caught before the workspace is allocated. They
  come back from the kernel as negative statuses after the exchange loop.
- The loop condition looks only at `ido`. A negative status is acted on after
  the loop.
- The converged count is taken as at most `nev`, since the value vector has
  `nev` entries and is truncated to `nconv`.
- The driver seeds `resid` with the product of a probe vector. That vector is
  0.5 at both ends and zero elsewhere. The driver then passes `info = 0` to the
  first dsaupd call, and under ARPACK's convention that means the kernel
  chooses its own start vector. The model keeps both steps as written. Only
  `Eigs::InitResid` switches `info` to 1.

## Model

| member | source | states |
|---|---|---|
| ArpackStatus.SaupdWarning | src/do_eigs_sym.cpp:8-21 | status 1 gives the maximum-iterations warning, 3 gives the no-shifts warning, and every other status, 2 included, gives none (each direction stated as an iff) |
| ArpackStatus.SaupdError | src/do_eigs_sym.cpp:23-68 | every status gives an error whose reason keeps the status as its code; the reason is the generic coded one exactly when the status is not one of -1..-5, -7, -8, -9, -9999 |
| ArpackStatus.SeupdError | src/do_eigs_sym.cpp:72-119 | every status gives an error that keeps its code; the reason is generic exactly when the status is not one of -1, -2, -3, -5, -7, -8, -9, -14, -17, so -4, -13, -15 and -16 get the generic report |
| ArpackStatus.Code | src/do_eigs_sym.cpp:23-68 | each named reason stands for the negative status it is reported for; the generic reason carries any status |
| ArpackStatus.DecodersInjective | src/do_eigs_sym.cpp:23-119 | two different statuses never decode to the same error, in either phase |
| ArpackStatus.PhasesDiffer | src/do_eigs_sym.cpp:23-119 | the two error decoders agree on the codes both treat specifically; -4 and -9999 are specific only after dsaupd, -14 and -17 only after dseupd |
| Arpack.WorklLength | src/do_eigs_sym.cpp:188-189 | the scratch length ncv*(ncv+8) is zero exactly when ncv is zero, and otherwise exceeds 8*ncv |
| Arpack.InitialIparam | src/do_eigs_sym.cpp:177-180 | the parameter block has 11 slots, holding 1 at index 0, maxitr at index 2, the mode at index 6 and zero everywhere else |
| Arpack.Multiply | src/do_eigs_sym.cpp:202-203 | a product keeps every buffer length |
| Arpack.MultiplyEffect | src/do_eigs_sym.cpp:202-203 | a product writes op of the n-slice at ipntr[0]-1 to the n-slice at ipntr[1]-1, and changes no other entry of workd and nothing outside workd |
| EigsSym.WhichCode | src/do_eigs_sym.cpp:143-147 | the selection code is the first two characters of `which`, with the terminator in place of a missing second character |
| EigsSym.ProblemOf | src/do_eigs_sym.cpp:133-160 | the kernel is called on a standard problem ('I') of dimension n, with nev, ncv, the user's tolerance and the two-character selection code WhichCode gives for `which` |
| EigsSym.Probe | src/do_eigs_sym.cpp:154-155 | the probe vector has length n, holds 0.5 at indices 0 and n-1, and zero everywhere in between |
| EigsSym.Setup | src/do_eigs_sym.cpp:133-192 | the first dsaupd call sees every buffer at its allocated length, ido and info at 0, the initial parameter block, a zero pointer block, resid equal to the product of the probe vector, and V, workd and workl all zero |
| EigsSym.Iterate | src/do_eigs_sym.cpp:194-209 | the exchange loop keeps every buffer length, and stops on its own exactly when ido is neither -1 nor 1 |
| EigsSym.SaupdNotice | src/do_eigs_sym.cpp:211-212 | after the loop, a warning is issued exactly when info is 1 or 3, and it is the one the decoder gives |
| EigsSym.Collect | src/do_eigs_sym.cpp:263-288 | nconv is iparam[4] and niter is iparam[8]; for nconv <= 0, values and vectors are null; otherwise values are the first nconv Ritz values, and vectors are present exactly when requested and are the first n*nconv entries of V |
| EigsSym.Conclude | src/do_eigs_sym.cpp:211-294 | everything after the loop ends in a result or an R error, never in a further exchange; dsaupd's error is raised exactly when info < 0, with the reason SaupdError gives for info; otherwise dseupd's error is raised exactly when ierr < 0, with the reason SeupdError gives for ierr, and else the result is Collect of dseupd's output; a raised error keeps its negative status as its code |
| EigsSym.CallSaupd | src/do_eigs_sym.cpp:194-198 | one dsaupd call leaves in the driver's arrays exactly the state the kernel returns |
| EigsSym.CallSeupd | src/do_eigs_sym.cpp:245-250 | one dseupd call leaves the Ritz values in d, the kernel's state in the shared arrays, and its status in ierr |
| EigsSym.MatVecProd | src/do_eigs_sym.cpp:202-203 | mat_v_prod writes op of the n entries at src into the n entries at dst, and leaves the rest of workd as it was |
| EigsSym.SupplyProduct | src/do_eigs_sym.cpp:202-203 | the product at the kernel's offsets turns the buffers into Multiply of the previous state |
| EigsSym.SeedResid | src/do_eigs_sym.cpp:153-157 | resid is allocated afresh and holds the product of the probe vector |
| EigsSym.NewParamBlock | src/do_eigs_sym.cpp:177-180 | the parameter block is allocated afresh and equals the initial parameter block |
| EigsSym.Filled | src/do_eigs_sym.cpp:164-189 | each zero-initialised allocation is a fresh array of the requested length holding only the given value |
| EigsSym.AllocateWorkspace | src/do_eigs_sym.cpp:133-192 | the seven buffers are fresh and distinct, d holds nev zeros, and the kernel's view of them is Setup |
| EigsSym.Round | src/do_eigs_sym.cpp:200-209 | one loop round is one product followed by one dsaupd call |
| EigsSym.IterateUnfold | src/do_eigs_sym.cpp:200-209 | a loop round that asks for a product continues the loop from the kernel's answer to that product, with a product event and a call event appended |
| EigsSym.IterateStep | src/do_eigs_sym.cpp:200-209 | a run that reaches a given end from one state reaches the same end from the next round's state, with one less fuel and the round in the trace |
| EigsSym.Exchange | src/do_eigs_sym.cpp:194-209 | the first call and the loop, run on arrays, end in the state, trace and stop reason that Iterate gives |
| EigsSym.Finish | src/do_eigs_sym.cpp:211-294 | the status checks, dseupd and result building, run on arrays, give the outcome and trace of Conclude |
| EigsSym.Drive | src/do_eigs_sym.cpp:121-299 | a whole solve, setup, loop and conclusion composed; an R error it raises always carries a negative status |
| EigsSym.DoEigsSym | src/do_eigs_sym.cpp:121-299 | the driver run in place gives exactly the outcome and trace of Drive |
| EigsSymProofs.IterateLog | src/do_eigs_sym.cpp:194-209 | the loop turns a log that ends in the current call into a log that alternates calls and requested products and ends with the last call |
| EigsSymProofs.IteratePrefix | src/do_eigs_sym.cpp:200-209 | the loop only appends to the trace, never rewriting what came before |
| EigsSymProofs.ExtendLog | src/do_eigs_sym.cpp:200-209 | a product and the next call, appended to a log whose last call asked for a product, give a log that keeps the old one as its prefix |
| EigsSymProofs.IterateFuel | src/do_eigs_sym.cpp:200-209 | once the loop stops on its own, more fuel does not change its result |
| EigsSymProofs.ConcludeTail | src/do_eigs_sym.cpp:211-294 | after the loop, the trace gains the warning the decoder gives for info, and then the tail of the outcome (dseupd unless dsaupd failed, the no-convergence warning when nconv <= 0, then the five releases) |
| EigsSymProofs.DriveTrace | src/do_eigs_sym.cpp:121-299 | every solve's trace is the loop's exchange log, then the warning the decoder gives for the loop's final info (if the loop stopped), then the outcome's tail; the last call asked for another product exactly when the solve ran out of fuel |
| EigsSymProofs.DriveOutcome | src/do_eigs_sym.cpp:200-288 | a solve runs out of fuel exactly when its loop does not stop; it raises dsaupd's decoded error exactly when the loop stopped with info < 0; it raises dseupd's decoded error exactly when info >= 0 and dseupd returns ierr < 0; otherwise it returns Collect of dseupd's output |
| EigsSymProofs.DriveFuel | src/do_eigs_sym.cpp:200-209 | a solve that finished does not depend on any larger fuel bound |
| EigsSymProofs.TailSilent | src/do_eigs_sym.cpp:211-294 | nothing after the loop calls dsaupd or supplies a product |
| EigsSymProofs.LogQuiet | src/do_eigs_sym.cpp:194-209 | an exchange log holds only dsaupd calls and products |
| EigsSymProofs.LogRequests | src/do_eigs_sym.cpp:200-209 | in an exchange log, every product directly follows a call that returned ido -1 or 1 |
| EigsSymProofs.BodyCounts | src/do_eigs_sym.cpp:213-271 | after the loop, dseupd is called once exactly when dsaupd did not fail, the no-convergence warning is given once exactly for a result with nconv <= 0, and no buffer is released before the closing releases |
| EigsSymProofs.ClosingCounts | src/do_eigs_sym.cpp:213-294 | every way out of a finished solve releases each of the five buffers once, and a solve still exchanging releases none |
| EigsSymProofs.ReleasesEnd | src/do_eigs_sym.cpp:213-294 | a finished solve's trace ends with the releases of workl, workd, ipntr, iparam and resid, in that order |
| EigsSymProofs.ShapeReleases | src/do_eigs_sym.cpp:213-294 | after an exchange log and a tail, each buffer is released once if the solve finished and never otherwise |
| EigsSymProofs.ReleasedOnce | src/do_eigs_sym.cpp:213-294 | on each of the three ways out (dsaupd error, dseupd error, result), each of workl, workd, ipntr, iparam and resid is released exactly once, and none is released by a solve still exchanging |
| EigsSymProofs.ReleasedLast | src/do_eigs_sym.cpp:213-294 | on each way out the five releases come after everything else, in the order workl, workd, ipntr, iparam, resid |
| EigsSymProofs.ShapeExtract | src/do_eigs_sym.cpp:213-250 | after an exchange log and a tail, dseupd appears once if dsaupd did not fail and never otherwise |
| EigsSymProofs.ExtractedOnce | src/do_eigs_sym.cpp:213-250 | dseupd is called once if the loop stopped with info >= 0, and never otherwise |
| EigsSymProofs.ShapeRequests | src/do_eigs_sym.cpp:200-209 | after an exchange log and a tail, every product directly follows a call that returned ido -1 or 1 |
| EigsSymProofs.ProductsAnswerRequests | src/do_eigs_sym.cpp:200-209 | in every solve, each loop product runs directly after a dsaupd call that returned ido -1 or 1 |
| EigsSymProofs.ShapeNoneConverged | src/do_eigs_sym.cpp:264-271 | after an exchange log and a tail, the no-convergence warning appears once for a result with nconv <= 0 and never otherwise |
| EigsSymProofs.NoneConvergedWarned | src/do_eigs_sym.cpp:264-271 | a solve warns that nothing converged, once, exactly when it returns a result with nconv <= 0 |
| EigsSymProofs.ReturnedWithinBounds | src/do_eigs_sym.cpp:263-288 | a returned result has nconv at most nev and at most ncv (by dseupd's guarantee on the converged count, which the driver takes as given), nconv values, and vectors only when they were requested, n*nconv of them |
| EigsSymProofs.VectorsAreLeadingColumns | src/do_eigs_sym.cpp:273-281 | column j of the returned vectors, for j < nconv, is column j of V |
| EigsSymProofs.LogCounts | src/do_eigs_sym.cpp:194-209 | an exchange log holds one dsaupd call more than it holds products |
| EigsSymProofs.ShapeCounts | src/do_eigs_sym.cpp:194-294 | an exchange log followed by a tail holds one call more than it holds products |
| EigsSymProofs.ProductsOneFewer | src/do_eigs_sym.cpp:194-209 | every solve supplies exactly one loop product fewer than it makes dsaupd calls (with the seeding product, mat_v_prod runs as often as dsaupd) |
| EigsBase.Eigs.constructor | src/Eigs.cpp:3-40 | the ten settings are stored unchanged; ido, info and ierr are 0 and no matrix is linked; iparam is the initial block (1, maxitr and workmode at indices 0, 2 and 6); all 14 ipntr slots are 0; resid (length n) and workd (length 3n) are fresh and all zero |
| EigsBase.Eigs.InitResid | src/Eigs.cpp:42-54 | info becomes 1 and resid becomes the product of (coef(0), ..., coef(n-1)); iparam, ipntr, workd and every other field are unchanged |

## Left out

- ARPACK's dsaupd and dseupd are not modelled. They are function parameters,
  and what they guarantee their caller is a precondition of the driver. The
  wrappers declared in `do_eigs.h` are not part of this model. The fixed
  arguments those wrappers receive (`howmny = 'A'`, `Z = V`, `ldv = ldz = n`,
  `lworkl`) are implicit in the kernel functions.
- `mat_v_prod` and `Eigs::MultVector` are foreign code. They are a function
  from a vector to a vector of the same length. The matrix argument and the
  `data` pointer are folded into that function.
- The products read their whole input slice before writing the output slice,
  as a function does. Overlapping slices are not modelled.
- Floating point is not modelled. Doubles are a type parameter, and the
  constants 0.0 and 0.5 are passed in as `zero` and `half`.
- EigsBase.Eigs.InitResid: the values `sin(i + 0.5)` are an opaque
  coefficient function `coef`, and no property of the sine is used.
- R marshalling is not modelled: the lookups in the parameter list, building
  the result list, and `R_NilValue`. The parameters arrive already converted.
  The truncating conversions of `ncv`, `maxitr` and `workmode` from double to
  int are not modelled.
- The text of the R messages is not modelled. A warning is a `Warning` value
  and an error is a `Reason` that keeps its code. `Rf_error`'s long jump
  becomes the `Raised` outcome.
- Memory is not modelled. `delete[]` is a `Release` event in the trace and
  nothing is deallocated. The `Eigs` destructor (src/Eigs.cpp:56-60) only
  frees memory and is not modelled.
- EigsSym.DoEigsSym: the loop is bounded by `fuel`. A run the kernel would
  continue past that bound ends as `OutOfFuel`, with no releases.
  EigsSymProofs.DriveFuel shows that a finished run does not depend on the
  bound.
- Arpack.WorklLength: sizes use unbounded integers. The source computes
  `ncv * (ncv + 8)`, `3 * n` and `n * ncv` in 32-bit `int`, which overflows
  for very large inputs.
- Eigs.h is not part of this model. The field types of `Eigs` are taken from
  the constructor, except that `n` is a natural number, and its 11-slot
  `iparam` and 14-slot `ipntr` from the constructor's loops. `lworkl` and
  `workl` belong to derived classes.
- EigsBase.Eigs.constructor: `n` is a natural number, where the source takes
  an `int`. A negative `n` makes `new double[n]` fail, and that failure is not
  modelled.
- EigsSym.DoEigsSym: `nev` and `ncv` are natural numbers, where the source
  reads them as `int`. A negative value fails when `d_ret(nev)`,
  `v_ret(n, ncv)` or `new double[lworkl]` allocates (lines 164-189), and that
  failure is not modelled.
- Arpack.SaupdHonours: dsaupd is a function of the buffers it is passed.
  ARPACK's dsaupd also keeps SAVE'd local variables between
  reverse-communication calls. The model cannot express state hidden in the
  kernel, so a kernel whose answer depends on earlier calls is outside it.
- EigsSym.WhichCode: `which` is a string of Unicode characters, and the model
  copies its first two characters. The source copies the first two bytes of
  the R string's C representation, so a multi-byte first character is not
  modelled.
- `inst/include/rarpack/MatOps.h` only includes other headers, so there is
  nothing in it to model.
