/**
  The driver of the symmetric eigenproblem (`do_eigs_sym`). It sets up the
  workspace, runs the reverse-communication exchange with dsaupd, decodes the
  status, calls dseupd and truncates the results to the converged count.

  The specification is a chain of functions (Setup, Iterate, Conclude, Collect,
  composed by Drive); the method DoEigsSym runs the same steps in place on
  arrays and is proved to produce exactly what Drive describes. Observable
  effects from the first dsaupd call on are recorded in a trace of events:
  kernel calls, the exchange loop's products, R warnings and the release of
  each workspace buffer. The product that seeds resid and the release of its
  probe vector come before the first call and are not traced. An R error never returns, so it ends the run
  as a `Raised` outcome.
*/
module EigsSym {
  import opened Wrappers
  import opened ArpackStatus
  import opened Arpack

  /** The workspace buffers the driver releases on its way out (initcoef, freed during setup, is not traced). */
  datatype Buffer = Workl | Workd | Ipntr | Iparam | Resid

  datatype Event =
    | Advance(ido: int)            // one dsaupd call, with the ido it returned
    | Product(src: nat, dst: nat)  // one mat_v_prod of the exchange loop, with 0-based offsets into workd
    | Warn(w: Warning)             // an R warning decoded from dsaupd's status
    | WarnNoneConverged            // the R warning that nothing converged
    | Extract                      // the dseupd call
    | Release(b: Buffer)           // one delete[] of a workspace buffer

  /** The phase whose status made the driver raise an R error, and the decoded reason. */
  datatype Failure = SaupdFailed(reason: Reason) | SeupdFailed(reason: Reason)

  /** The list returned to R; `values` and `vectors` are None where R gets NULL. */
  datatype Solution<T> = Solution(nconv: int, values: Option<seq<T>>, vectors: Option<seq<T>>, niter: int)

  /**
    How a solve ends. OutOfFuel stands for the source's loop still running after
    the model's step bound: the source bounds it only through the kernel.
  */
  datatype Outcome<T> = Returned(solution: Solution<T>) | Raised(failure: Failure) | OutOfFuel

  /** The entries of the R parameter list that the driver reads. */
  datatype Params<T> = Params(which: string, tol: T, ncv: nat, maxitr: int, workmode: int, retvec: bool, sigma: T)

  /** The state of the exchange loop when it stops, and whether it stopped on its own. */
  datatype Run<T> = Run(state: Rci<T>, trace: seq<Event>, settled: bool)

  /** The five delete[] calls, in the order every exit path makes them. */
  const Releases: seq<Event> := [Release(Workl), Release(Workd), Release(Ipntr), Release(Iparam), Release(Resid)]

  /** The two characters of `which` copied into a C string (the terminator, if the string is shorter). */
  function WhichCode(w: string): (c: seq<char>)
    requires |w| >= 1
    ensures |c| == 2 && c[0] == w[0]
    ensures c[1] == if |w| >= 2 then w[1] else 0 as char
  {
    [w[0], if |w| >= 2 then w[1] else 0 as char]
  }

  /** The fixed inputs of every kernel call: a standard problem ('I') of dimension n. */
  function ProblemOf<T>(n: nat, nev: nat, prm: Params<T>): (p: Problem<T>)
    requires |prm.which| >= 1
    ensures p.bmat == 'I' && p.n == n && p.nev == nev && p.ncv == prm.ncv
    ensures p.which == WhichCode(prm.which) && |p.which| == 2 && p.tol == prm.tol
  {
    Problem('I', n, WhichCode(prm.which), nev, prm.tol, prm.ncv)
  }

  /** The probe vector whose product seeds resid: 0.5 at both ends, zero in between. */
  function Probe<T>(n: nat, zero: T, half: T): (x: seq<T>)
    requires n >= 1
    ensures |x| == n && x[0] == half && x[n - 1] == half
    ensures forall i :: 0 < i < n - 1 ==> x[i] == zero
  {
    seq(n, i => if i == 0 || i == n - 1 then half else zero)
  }

  /** The workspace before the first dsaupd call. */
  function Setup<T(!new)>(p: Problem<T>, maxitr: int, workmode: int, op: seq<T> -> seq<T>, zero: T, half: T): (s: Rci<T>)
    requires p.n >= 1 && LengthPreserving(op)
    ensures Shaped(p, s)
    ensures s.ido == 0 && s.info == 0
    ensures s.iparam == InitialIparam(maxitr, workmode)
    ensures forall i :: 0 <= i < |s.ipntr| ==> s.ipntr[i] == 0
    ensures s.resid == op(Probe(p.n, zero, half))
    ensures forall i :: 0 <= i < |s.v| ==> s.v[i] == zero
    ensures forall i :: 0 <= i < |s.workd| ==> s.workd[i] == zero
    ensures forall i :: 0 <= i < |s.workl| ==> s.workl[i] == zero
  {
    Rci(0, 0,
        InitialIparam(maxitr, workmode),
        seq(PointerSlots, _ => 0),
        op(Probe(p.n, zero, half)),
        seq(p.n * p.ncv, _ => zero),
        seq(3 * p.n, _ => zero),
        seq(WorklLength(p.ncv), _ => zero))
  }

  /**
    The exchange loop: while the kernel asks for a product, supply it and call
    dsaupd again. `fuel` bounds the number of rounds.
  */
  function Iterate<T(!new)>(p: Problem<T>, saupd: (Problem<T>, Rci<T>) -> Rci<T>, op: seq<T> -> seq<T>,
                            s: Rci<T>, fuel: nat, trace: seq<Event>): (r: Run<T>)
    requires SaupdHonours(p, saupd) && LengthPreserving(op) && Ready(p, s)
    ensures Shaped(p, r.state)
    ensures r.settled <==> !NeedsProduct(r.state.ido)
    decreases fuel
  {
    if !NeedsProduct(s.ido) then Run(s, trace, true)
    else if fuel == 0 then Run(s, trace, false)
    else
      var next := saupd(p, Multiply(p, op, s));
      Iterate(p, saupd, op, next, fuel - 1, trace + [Product(s.ipntr[0] - 1, s.ipntr[1] - 1), Advance(next.ido)])
  }

  /** The R warning, if any, for dsaupd's final status (only a positive status is decoded). */
  function SaupdNotice(info: int): (t: seq<Event>)
    ensures |t| <= 1
    ensures t != [] <==> info == 1 || info == 3
    ensures t != [] ==> t[0].Warn? && SaupdWarning(info) == Some(t[0].w)
  {
    if info > 0 then
      match SaupdWarning(info)
      case Some(w) => [Warn(w)]
      case None => []
    else []
  }

  /**
    The result list for a successful dseupd: nconv from iparam[4], niter from
    iparam[8], the first nconv Ritz values, and the first nconv columns of V
    when vectors were asked for.
  */
  function Collect<T>(p: Problem<T>, rvec: bool, e: Extraction<T>): (sol: Solution<T>)
    requires Shaped(p, e.state) && |e.d| == p.nev
    requires e.state.iparam[4] <= p.nev && e.state.iparam[4] <= p.ncv
    ensures sol.nconv == e.state.iparam[4] && sol.niter == e.state.iparam[8]
    ensures sol.nconv <= 0 ==> sol.values == None && sol.vectors == None
    ensures sol.nconv > 0 ==> sol.values.Some? && |sol.values.value| == sol.nconv && sol.values.value <= e.d
    ensures sol.vectors.Some? <==> rvec && sol.nconv > 0
    ensures sol.vectors.Some? ==> |sol.vectors.value| == p.n * sol.nconv && sol.vectors.value <= e.state.v
  {
    var nconv := e.state.iparam[4];
    if nconv <= 0 then Solution(nconv, None, None, e.state.iparam[8])
    else
      assert p.n * nconv <= p.n * p.ncv by { MulMonotone(p.n, nconv, p.ncv); }
      Solution(nconv, Some(e.d[..nconv]), if rvec then Some(e.state.v[..p.n * nconv]) else None, e.state.iparam[8])
  }

  lemma MulMonotone(a: nat, b: nat, c: nat)
    requires b <= c
    ensures a * b <= a * c
  {
  }

  /** Everything after the loop: warning, first error check, dseupd, second check, result. */
  function Conclude<T(!new)>(p: Problem<T>, rvec: bool, sigma: T,
                             seupd: (Problem<T>, bool, T, seq<T>, Rci<T>) -> Extraction<T>,
                             zero: T, s: Rci<T>, trace: seq<Event>): (r: (Outcome<T>, seq<Event>))
    requires SeupdHonours(p, seupd) && Shaped(p, s)
    ensures !r.0.OutOfFuel?
    ensures r.0.Raised? && r.0.failure.SaupdFailed? <==> s.info < 0
    ensures r.0.Raised? && r.0.failure.SaupdFailed? ==> r.0.failure.reason == SaupdError(s.info)
    ensures r.0.Raised? && r.0.failure.SeupdFailed?
            ==> r.0.failure.reason == SeupdError(seupd(p, rvec, sigma, seq(p.nev, _ => zero), s).ierr)
    ensures var e := seupd(p, rvec, sigma, seq(p.nev, _ => zero), s);
      && (r.0.Raised? ==> Code(r.0.failure.reason) == (if s.info < 0 then s.info else e.ierr) < 0)
      && (s.info >= 0 ==> (r.0.Raised? <==> e.ierr < 0))
      && (s.info >= 0 && e.ierr >= 0 ==> r.0 == Returned(Collect(p, rvec, e)))
  {
    var warned := trace + SaupdNotice(s.info);
    if s.info < 0 then
      (Raised(SaupdFailed(SaupdError(s.info))), warned + Releases)
    else
      var e := seupd(p, rvec, sigma, seq(p.nev, _ => zero), s);
      var extracted := warned + [Extract];
      if e.ierr < 0 then
        (Raised(SeupdFailed(SeupdError(e.ierr))), extracted + Releases)
      else
        var sol := Collect(p, rvec, e);
        (Returned(sol), extracted + (if sol.nconv <= 0 then [WarnNoneConverged] else []) + Releases)
  }

  /** The requirements the driver places on its inputs and on the kernel it drives. */
  ghost predicate Admissible<T(!new)>(n: nat, nev: nat, prm: Params<T>,
                                     saupd: (Problem<T>, Rci<T>) -> Rci<T>,
                                     seupd: (Problem<T>, bool, T, seq<T>, Rci<T>) -> Extraction<T>,
                                     op: seq<T> -> seq<T>)
  {
    && n >= 1 && |prm.which| >= 1
    && SaupdHonours(ProblemOf(n, nev, prm), saupd)
    && SeupdHonours(ProblemOf(n, nev, prm), seupd)
    && LengthPreserving(op)
  }

  /** A whole solve: the outcome and the trace of observable events. */
  function Drive<T(!new)>(n: nat, nev: nat, prm: Params<T>,
                          saupd: (Problem<T>, Rci<T>) -> Rci<T>,
                          seupd: (Problem<T>, bool, T, seq<T>, Rci<T>) -> Extraction<T>,
                          op: seq<T> -> seq<T>, zero: T, half: T, fuel: nat): (r: (Outcome<T>, seq<Event>))
    requires Admissible(n, nev, prm, saupd, seupd, op)
    ensures r.0.Raised? ==> Code(r.0.failure.reason) < 0
  {
    var p := ProblemOf(n, nev, prm);
    var first := saupd(p, Setup(p, prm.maxitr, prm.workmode, op, zero, half));
    var run := Iterate(p, saupd, op, first, fuel, [Advance(first.ido)]);
    if run.settled then Conclude(p, prm.retvec, prm.sigma, seupd, zero, run.state, run.trace)
    else (OutOfFuel, run.trace)
  }

  // ---------------------------------------------------------------------------
  // The driver in place

  /** The driver's buffers are six distinct arrays (and the value vector a seventh). */
  ghost predicate Separate<T>(iparam: array<int>, ipntr: array<int>, resid: array<T>, v: array<T>,
                              workd: array<T>, workl: array<T>)
  {
    && iparam != ipntr
    && iparam as object != resid && iparam as object != v && iparam as object != workd && iparam as object != workl
    && ipntr as object != resid && ipntr as object != v && ipntr as object != workd && ipntr as object != workl
    && resid != v && resid != workd && resid != workl
    && v != workd && v != workl
    && workd != workl
  }

  ghost predicate ApartFrom<T>(d: array<T>, iparam: array<int>, ipntr: array<int>, resid: array<T>, v: array<T>,
                               workd: array<T>, workl: array<T>)
  {
    d as object != iparam && d as object != ipntr && d != resid && d != v && d != workd && d != workl
  }

  /** The buffers as the kernel sees them. */
  function Snapshot<T>(ido: int, info: int, iparam: array<int>, ipntr: array<int>, resid: array<T>, v: array<T>,
                       workd: array<T>, workl: array<T>): Rci<T>
    reads iparam, ipntr, resid, v, workd, workl
  {
    Rci(ido, info, iparam[..], ipntr[..], resid[..], v[..], workd[..], workl[..])
  }

  /** Copies values into an array of the same length. */
  method Fill<T>(a: array<T>, x: seq<T>)
    requires |x| == a.Length
    modifies a
    ensures a[..] == x
  {
    forall i | 0 <= i < a.Length {
      a[i] := x[i];
    }
  }

  /** The kernel writing its new state into the driver's buffers. */
  method Store<T>(s: Rci<T>, iparam: array<int>, ipntr: array<int>, resid: array<T>, v: array<T>,
                  workd: array<T>, workl: array<T>)
    requires Separate(iparam, ipntr, resid, v, workd, workl)
    requires |s.iparam| == iparam.Length && |s.ipntr| == ipntr.Length && |s.resid| == resid.Length
    requires |s.v| == v.Length && |s.workd| == workd.Length && |s.workl| == workl.Length
    modifies iparam, ipntr, resid, v, workd, workl
    ensures Snapshot(s.ido, s.info, iparam, ipntr, resid, v, workd, workl) == s
  {
    Fill(iparam, s.iparam);
    Fill(ipntr, s.ipntr);
    Fill(resid, s.resid);
    Fill(v, s.v);
    Fill(workd, s.workd);
    Fill(workl, s.workl);
  }

  /** One dsaupd call on the driver's buffers. */
  method CallSaupd<T(!new)>(p: Problem<T>, saupd: (Problem<T>, Rci<T>) -> Rci<T>, ido: int, info: int,
                            iparam: array<int>, ipntr: array<int>, resid: array<T>, v: array<T>,
                            workd: array<T>, workl: array<T>) returns (ido': int, info': int)
    requires SaupdHonours(p, saupd) && Separate(iparam, ipntr, resid, v, workd, workl)
    requires Shaped(p, Snapshot(ido, info, iparam, ipntr, resid, v, workd, workl))
    modifies iparam, ipntr, resid, v, workd, workl
    ensures Snapshot(ido', info', iparam, ipntr, resid, v, workd, workl)
         == saupd(p, old(Snapshot(ido, info, iparam, ipntr, resid, v, workd, workl)))
  {
    var s := saupd(p, Snapshot(ido, info, iparam, ipntr, resid, v, workd, workl));
    Store(s, iparam, ipntr, resid, v, workd, workl);
    ido', info' := s.ido, s.info;
  }

  /** One dseupd call: the Ritz values land in d, everything else in the shared buffers. */
  method CallSeupd<T(!new)>(p: Problem<T>, seupd: (Problem<T>, bool, T, seq<T>, Rci<T>) -> Extraction<T>,
                            rvec: bool, sigma: T, d: array<T>, ido: int, info: int,
                            iparam: array<int>, ipntr: array<int>, resid: array<T>, v: array<T>,
                            workd: array<T>, workl: array<T>) returns (ierr: int)
    requires SeupdHonours(p, seupd) && Separate(iparam, ipntr, resid, v, workd, workl)
    requires ApartFrom(d, iparam, ipntr, resid, v, workd, workl) && d.Length == p.nev
    requires Shaped(p, Snapshot(ido, info, iparam, ipntr, resid, v, workd, workl))
    modifies d, iparam, ipntr, resid, v, workd, workl
    ensures var e := seupd(p, rvec, sigma, old(d[..]), old(Snapshot(ido, info, iparam, ipntr, resid, v, workd, workl)));
      && d[..] == e.d && ierr == e.ierr
      && Snapshot(e.state.ido, e.state.info, iparam, ipntr, resid, v, workd, workl) == e.state
  {
    var e := seupd(p, rvec, sigma, d[..], Snapshot(ido, info, iparam, ipntr, resid, v, workd, workl));
    Fill(d, e.d);
    Store(e.state, iparam, ipntr, resid, v, workd, workl);
    ierr := e.ierr;
  }

  /** Lines 202-203: the product the kernel asked for, at the offsets it named. */
  method SupplyProduct<T(!new)>(p: Problem<T>, op: seq<T> -> seq<T>, ido: int, info: int,
                                iparam: array<int>, ipntr: array<int>, resid: array<T>, v: array<T>,
                                workd: array<T>, workl: array<T>)
    requires LengthPreserving(op) && Separate(iparam, ipntr, resid, v, workd, workl)
    requires Ready(p, Snapshot(ido, info, iparam, ipntr, resid, v, workd, workl)) && NeedsProduct(ido)
    modifies workd
    ensures Snapshot(ido, info, iparam, ipntr, resid, v, workd, workl)
         == Multiply(p, op, old(Snapshot(ido, info, iparam, ipntr, resid, v, workd, workl)))
  {
    MatVecProd(op, workd, ipntr[0] - 1, ipntr[1] - 1, p.n);
  }

  /** mat_v_prod on workd: reads the n entries at src and writes their product at dst. */
  method MatVecProd<T(!new)>(op: seq<T> -> seq<T>, workd: array<T>, src: nat, dst: nat, n: nat)
    requires LengthPreserving(op) && src + n <= workd.Length && dst + n <= workd.Length
    modifies workd
    ensures workd[..] == old(workd[..dst]) + op(old(workd[src .. src + n])) + old(workd[dst + n ..])
  {
    var y := op(workd[src .. src + n]);
    forall i | 0 <= i < n {
      workd[dst + i] := y[i];
    }
  }

  /**
    Lines 133-192 of the driver: allocate and zero the buffers, seed resid with
    the product of the probe vector, fill the parameter block.
  */
  method AllocateWorkspace<T(!new)>(p: Problem<T>, maxitr: int, workmode: int, op: seq<T> -> seq<T>, zero: T, half: T)
    returns (d: array<T>, iparam: array<int>, ipntr: array<int>, resid: array<T>, v: array<T>,
             workd: array<T>, workl: array<T>)
    requires p.n >= 1 && LengthPreserving(op)
    ensures fresh(d) && fresh(iparam) && fresh(ipntr) && fresh(resid) && fresh(v) && fresh(workd) && fresh(workl)
    ensures Separate(iparam, ipntr, resid, v, workd, workl) && ApartFrom(d, iparam, ipntr, resid, v, workd, workl)
    ensures d[..] == seq(p.nev, _ => zero)
    ensures Snapshot(0, 0, iparam, ipntr, resid, v, workd, workl) == Setup(p, maxitr, workmode, op, zero, half)
  {
    var n, ncv := p.n, p.ncv;
    resid := SeedResid(n, op, zero, half);
    d := Filled(p.nev, zero);
    v := Filled(n * ncv, zero);
    iparam := NewParamBlock(maxitr, workmode);
    ipntr := Filled(PointerSlots, 0);
    workd := Filled(3 * n, zero);
    var lworkl := ncv * (ncv + 8);
    workl := Filled(lworkl, zero);
  }

  /** A new array of `len` copies of `x` (the zeroed allocations of lines 153-189). */
  method Filled<X>(len: nat, x: X) returns (a: array<X>)
    ensures fresh(a) && a[..] == seq(len, _ => x)
  {
    a := new X[len](_ => x);
    assert a[..] == seq(len, _ => x);
  }

  /** Lines 153-157: resid is the product of the probe vector, which is then discarded. */
  method SeedResid<T(!new)>(n: nat, op: seq<T> -> seq<T>, zero: T, half: T) returns (resid: array<T>)
    requires n >= 1 && LengthPreserving(op)
    ensures fresh(resid) && resid[..] == op(Probe(n, zero, half))
  {
    resid := new T[n](_ => zero);
    var initcoef := new T[n](_ => zero);
    initcoef[0] := half;
    initcoef[n - 1] := half;
    assert initcoef[..] == Probe(n, zero, half);
    Fill(resid, op(initcoef[..]));
  }

  /** Lines 177-180: the zeroed parameter block with slots 1, 3 and 7 (1-based) filled. */
  method NewParamBlock(maxitr: int, workmode: int) returns (iparam: array<int>)
    ensures fresh(iparam) && iparam[..] == InitialIparam(maxitr, workmode)
  {
    iparam := new int[ParamSlots](_ => 0);
    iparam[0] := 1;
    iparam[2] := maxitr;
    iparam[6] := workmode;
    assert iparam[..] == InitialIparam(maxitr, workmode);
  }

  /**
    Lines 194-209: the first dsaupd call, then one product and one more call for
    as long as ido is -1 or 1 (at most `fuel` rounds).
  */
  method Exchange<T(!new)>(p: Problem<T>, saupd: (Problem<T>, Rci<T>) -> Rci<T>, op: seq<T> -> seq<T>,
                           ido: int, info: int, iparam: array<int>, ipntr: array<int>, resid: array<T>, v: array<T>,
                           workd: array<T>, workl: array<T>, fuel: nat)
    returns (ido': int, info': int, trace: seq<Event>, settled: bool)
    requires SaupdHonours(p, saupd) && LengthPreserving(op) && Separate(iparam, ipntr, resid, v, workd, workl)
    requires Shaped(p, Snapshot(ido, info, iparam, ipntr, resid, v, workd, workl))
    modifies iparam, ipntr, resid, v, workd, workl
    ensures var first := saupd(p, old(Snapshot(ido, info, iparam, ipntr, resid, v, workd, workl)));
      Run(Snapshot(ido', info', iparam, ipntr, resid, v, workd, workl), trace, settled)
        == Iterate(p, saupd, op, first, fuel, [Advance(first.ido)])
  {
    ido', info' := CallSaupd(p, saupd, ido, info, iparam, ipntr, resid, v, workd, workl);
    trace := [Advance(ido')];
    ghost var first := Snapshot(ido', info', iparam, ipntr, resid, v, workd, workl);
    ghost var goal := Iterate(p, saupd, op, first, fuel, [Advance(first.ido)]);
    ghost var st := first;
    var left := fuel;
    while ido' == -1 || ido' == 1
      invariant st == Snapshot(ido', info', iparam, ipntr, resid, v, workd, workl)
      invariant Ready(p, st)
      invariant Iterate(p, saupd, op, st, left, trace) == goal
      decreases left
    {
      if left == 0 {
        settled := false;
        return;
      }
      var src, dst := ipntr[0] - 1, ipntr[1] - 1;
      assert src == st.ipntr[0] - 1 && dst == st.ipntr[1] - 1;
      ghost var st0, left0, trace0 := st, left, trace;
      st := saupd(p, Multiply(p, op, st));
      ido', info' := Round(p, saupd, op, ido', info', iparam, ipntr, resid, v, workd, workl);
      assert Snapshot(ido', info', iparam, ipntr, resid, v, workd, workl) == st;
      trace := trace + [Product(src, dst), Advance(ido')];
      left := left - 1;
      IterateStep(p, saupd, op, st0, left0, trace0, goal, st, left, trace);
    }
    settled := true;
  }

  /** One round of the exchange loop: the requested product, then the next dsaupd call. */
  method Round<T(!new)>(p: Problem<T>, saupd: (Problem<T>, Rci<T>) -> Rci<T>, op: seq<T> -> seq<T>,
                        ido: int, info: int, iparam: array<int>, ipntr: array<int>, resid: array<T>, v: array<T>,
                        workd: array<T>, workl: array<T>) returns (ido': int, info': int)
    requires SaupdHonours(p, saupd) && LengthPreserving(op) && Separate(iparam, ipntr, resid, v, workd, workl)
    requires Ready(p, Snapshot(ido, info, iparam, ipntr, resid, v, workd, workl)) && NeedsProduct(ido)
    modifies iparam, ipntr, resid, v, workd, workl
    ensures Snapshot(ido', info', iparam, ipntr, resid, v, workd, workl)
         == saupd(p, Multiply(p, op, old(Snapshot(ido, info, iparam, ipntr, resid, v, workd, workl))))
  {
    SupplyProduct(p, op, ido, info, iparam, ipntr, resid, v, workd, workl);
    ido', info' := CallSaupd(p, saupd, ido, info, iparam, ipntr, resid, v, workd, workl);
  }

  /**
    A run that reaches `goal` from state s reaches it from the state `next`
    one round later, with one less fuel, once the round is in the trace.
  */
  lemma IterateStep<T(!new)>(p: Problem<T>, saupd: (Problem<T>, Rci<T>) -> Rci<T>, op: seq<T> -> seq<T>,
                             s: Rci<T>, fuel: nat, trace: seq<Event>, goal: Run<T>,
                             next: Rci<T>, fuel': nat, trace': seq<Event>)
    requires SaupdHonours(p, saupd) && LengthPreserving(op) && Ready(p, s)
    requires NeedsProduct(s.ido) && fuel > 0 && Iterate(p, saupd, op, s, fuel, trace) == goal
    requires next == saupd(p, Multiply(p, op, s)) && fuel' == fuel - 1
    requires trace' == trace + [Product(s.ipntr[0] - 1, s.ipntr[1] - 1), Advance(next.ido)]
    ensures Ready(p, next) && Iterate(p, saupd, op, next, fuel', trace') == goal
  {
    IterateUnfold(p, saupd, op, s, fuel, trace);
  }

  /** One round of the exchange loop, as Iterate takes it. */
  lemma IterateUnfold<T(!new)>(p: Problem<T>, saupd: (Problem<T>, Rci<T>) -> Rci<T>, op: seq<T> -> seq<T>,
                               s: Rci<T>, fuel: nat, trace: seq<Event>)
    requires SaupdHonours(p, saupd) && LengthPreserving(op) && Ready(p, s)
    requires NeedsProduct(s.ido) && fuel > 0
    ensures var next := saupd(p, Multiply(p, op, s));
      Iterate(p, saupd, op, s, fuel, trace)
        == Iterate(p, saupd, op, next, fuel - 1, trace + [Product(s.ipntr[0] - 1, s.ipntr[1] - 1), Advance(next.ido)])
  {
  }

  /**
    Lines 211-294: decode dsaupd's status, call dseupd, decode its status, and
    build the result truncated to the converged count, releasing the buffers
    on every way out.
  */
  method Finish<T(!new)>(p: Problem<T>, rvec: bool, sigma: T,
                         seupd: (Problem<T>, bool, T, seq<T>, Rci<T>) -> Extraction<T>, zero: T,
                         d: array<T>, ido: int, info: int, iparam: array<int>, ipntr: array<int>, resid: array<T>,
                         v: array<T>, workd: array<T>, workl: array<T>, trace0: seq<Event>)
    returns (outcome: Outcome<T>, trace: seq<Event>)
    requires SeupdHonours(p, seupd) && Separate(iparam, ipntr, resid, v, workd, workl)
    requires ApartFrom(d, iparam, ipntr, resid, v, workd, workl) && d[..] == seq(p.nev, _ => zero)
    requires Shaped(p, Snapshot(ido, info, iparam, ipntr, resid, v, workd, workl))
    modifies d, iparam, ipntr, resid, v, workd, workl
    ensures (outcome, trace)
         == Conclude(p, rvec, sigma, seupd, zero, old(Snapshot(ido, info, iparam, ipntr, resid, v, workd, workl)), trace0)
  {
    ghost var s0 := Snapshot(ido, info, iparam, ipntr, resid, v, workd, workl);
    trace := trace0;
    if info > 0 {
      var w := SaupdWarning(info);
      if w.Some? {
        trace := trace + [Warn(w.value)];
      }
    }
    assert trace == trace0 + SaupdNotice(info);
    if info < 0 {
      trace := trace + Releases;
      outcome := Raised(SaupdFailed(SaupdError(info)));
      assert (outcome, trace) == Conclude(p, rvec, sigma, seupd, zero, s0, trace0);
      return;
    }

    var ierr := CallSeupd(p, seupd, rvec, sigma, d, ido, info, iparam, ipntr, resid, v, workd, workl);
    ghost var e := seupd(p, rvec, sigma, seq(p.nev, _ => zero), s0);
    trace := trace + [Extract];
    if ierr < 0 {
      trace := trace + Releases;
      outcome := Raised(SeupdFailed(SeupdError(ierr)));
      assert (outcome, trace) == Conclude(p, rvec, sigma, seupd, zero, s0, trace0);
      return;
    }

    var nconv := iparam[4];
    var solution;
    if nconv <= 0 {
      solution := Solution(nconv, None, None, iparam[8]);
    } else {
      // d_ret.erase(nconv, length): keep the first nconv values
      var values := d[..nconv];
      MulMonotone(p.n, nconv, p.ncv);
      if rvec {
        solution := Solution(nconv, Some(values), Some(v[..p.n * nconv]), iparam[8]);
      } else {
        solution := Solution(nconv, Some(values), None, iparam[8]);
      }
    }
    assert solution == Collect(p, rvec, e);
    trace := trace + (if nconv <= 0 then [WarnNoneConverged] else []) + Releases;
    outcome := Returned(solution);
    assert (outcome, trace) == Conclude(p, rvec, sigma, seupd, zero, s0, trace0);
  }

  /** `do_eigs_sym`, run in place; it does exactly what Drive describes. */
  method DoEigsSym<T(!new)>(n: nat, nev: nat, prm: Params<T>,
                            saupd: (Problem<T>, Rci<T>) -> Rci<T>,
                            seupd: (Problem<T>, bool, T, seq<T>, Rci<T>) -> Extraction<T>,
                            op: seq<T> -> seq<T>, zero: T, half: T, fuel: nat)
    returns (outcome: Outcome<T>, trace: seq<Event>)
    requires Admissible(n, nev, prm, saupd, seupd, op)
    ensures (outcome, trace) == Drive(n, nev, prm, saupd, seupd, op, zero, half, fuel)
  {
    var p := ProblemOf(n, nev, prm);
    var d, iparam, ipntr, resid, v, workd, workl := AllocateWorkspace(p, prm.maxitr, prm.workmode, op, zero, half);
    var ido, info, settled;
    ido, info, trace, settled := Exchange(p, saupd, op, 0, 0, iparam, ipntr, resid, v, workd, workl, fuel);
    if !settled {
      outcome := OutOfFuel;
      return;
    }
    outcome, trace := Finish(p, prm.retvec, prm.sigma, seupd, zero, d, ido, info,
                             iparam, ipntr, resid, v, workd, workl, trace);
  }
}
