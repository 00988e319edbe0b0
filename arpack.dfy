/**
  The interface between the driver and ARPACK's reverse-communication kernel.
  The kernel (dsaupd/dseupd) is not modelled: the driver receives it as two
  functions over the buffers it shares with the driver, together with the
  obligations the kernel keeps for its callers. Floating-point entries are the
  type parameter `T`; no arithmetic is done on them here.
*/
module Arpack {

  /** The inputs passed unchanged to every kernel call. */
  datatype Problem<T> = Problem(bmat: char, n: nat, which: seq<char>, nev: nat, tol: T, ncv: nat)

  /** Everything dsaupd reads and writes in place: the signal, the status and the buffers. */
  datatype Rci<T> = Rci(
    ido: int,
    info: int,
    iparam: seq<int>,
    ipntr: seq<int>,
    resid: seq<T>,
    v: seq<T>,
    workd: seq<T>,
    workl: seq<T>)

  /** What dseupd leaves behind: the Ritz values `d`, the buffers (with `v` as Z) and `ierr`. */
  datatype Extraction<T> = Extraction(d: seq<T>, state: Rci<T>, ierr: int)

  /** Slots in the parameter block and in the pointer block of the symmetric driver. */
  const ParamSlots: nat := 11
  const PointerSlots: nat := 11

  /** Length of dsaupd's private scratch array; the kernel checks it exactly (status -7). */
  function WorklLength(ncv: nat): (len: nat)
    ensures ncv > 0 ==> len > 8 * ncv
    ensures len == 0 <==> ncv == 0
  {
    ncv * (ncv + 8)
  }

  /**
    The parameter block a solve starts with: shift strategy 1 (exact shifts) in
    slot 1, the iteration cap in slot 3, the mode in slot 7 (1-based), zero elsewhere.
  */
  function InitialIparam(maxitr: int, mode: int): (ip: seq<int>)
    ensures |ip| == ParamSlots
    ensures ip[0] == 1 && ip[2] == maxitr && ip[6] == mode
    ensures forall i :: 0 <= i < |ip| && i != 0 && i != 2 && i != 6 ==> ip[i] == 0
  {
    [1, 0, maxitr, 0, 0, 0, mode, 0, 0, 0, 0]
  }

  /** Every buffer has the length the driver allocated for it. */
  ghost predicate Shaped<T>(p: Problem<T>, s: Rci<T>)
  {
    && |s.iparam| == ParamSlots
    && |s.ipntr| == PointerSlots
    && |s.resid| == p.n
    && |s.v| == p.n * p.ncv
    && |s.workd| == 3 * p.n
    && |s.workl| == WorklLength(p.ncv)
  }

  /** ido -1 and 1 ask the driver for a product; any other value ends the exchange. */
  predicate NeedsProduct(ido: int)
  {
    ido == -1 || ido == 1
  }

  /** The 1-based offsets in ipntr[0] (input) and ipntr[1] (output) each name an n-slice of workd. */
  ghost predicate OffsetsValid<T>(p: Problem<T>, s: Rci<T>)
    requires Shaped(p, s)
  {
    && 1 <= s.ipntr[0] <= 2 * p.n + 1
    && 1 <= s.ipntr[1] <= 2 * p.n + 1
  }

  /** A state the driver may act on: shaped, and with valid offsets whenever a product is asked for. */
  ghost predicate Ready<T>(p: Problem<T>, s: Rci<T>)
  {
    Shaped(p, s) && (NeedsProduct(s.ido) ==> OffsetsValid(p, s))
  }

  /** The matrix-vector product maps a vector to one of the same length. */
  ghost predicate LengthPreserving<T(!new)>(op: seq<T> -> seq<T>)
  {
    forall x: seq<T> :: |op(x)| == |x|
  }

  /**
    What dsaupd guarantees its callers: it writes within the buffers it is given,
    and whenever it asks for a product, the offsets it names are in range.
  */
  ghost predicate SaupdHonours<T(!new)>(p: Problem<T>, saupd: (Problem<T>, Rci<T>) -> Rci<T>)
  {
    forall s {:trigger saupd(p, s)} :: Shaped(p, s) ==> Ready(p, saupd(p, s))
  }

  /**
    What dseupd guarantees its callers: it writes within the buffers it is given
    (nev Ritz values) and, when it succeeds, reports in iparam[4] a converged
    count that fits both the value vector and the ncv columns of V.
  */
  ghost predicate SeupdHonours<T(!new)>(p: Problem<T>, seupd: (Problem<T>, bool, T, seq<T>, Rci<T>) -> Extraction<T>)
  {
    forall rvec, sigma, d, s {:trigger seupd(p, rvec, sigma, d, s)} :: Shaped(p, s) && |d| == p.nev ==>
      && |seupd(p, rvec, sigma, d, s).d| == p.nev
      && Shaped(p, seupd(p, rvec, sigma, d, s).state)
      && (seupd(p, rvec, sigma, d, s).ierr >= 0 ==>
            seupd(p, rvec, sigma, d, s).state.iparam[4] <= p.nev &&
            seupd(p, rvec, sigma, d, s).state.iparam[4] <= p.ncv)
  }

  /**
    One product requested by the kernel: read the n-slice of workd at the 0-based
    offset ipntr[0]-1, write op of it to the n-slice at ipntr[1]-1.
  */
  function Multiply<T(!new)>(p: Problem<T>, op: seq<T> -> seq<T>, s: Rci<T>): (r: Rci<T>)
    requires Shaped(p, s) && OffsetsValid(p, s) && LengthPreserving(op)
    ensures Shaped(p, r)
  {
    var src, dst := s.ipntr[0] - 1, s.ipntr[1] - 1;
    s.(workd := s.workd[..dst] + op(s.workd[src .. src + p.n]) + s.workd[dst + p.n ..])
  }

  /** A product writes op of the input slice to the output slice, and changes nothing else. */
  lemma MultiplyEffect<T(!new)>(p: Problem<T>, op: seq<T> -> seq<T>, s: Rci<T>)
    requires Shaped(p, s) && OffsetsValid(p, s) && LengthPreserving(op)
    ensures var r, src, dst := Multiply(p, op, s), s.ipntr[0] - 1, s.ipntr[1] - 1;
      && r.(workd := s.workd) == s
      && r.workd[dst .. dst + p.n] == op(s.workd[src .. src + p.n])
      && (forall i :: 0 <= i < 3 * p.n && !(dst <= i < dst + p.n) ==> r.workd[i] == s.workd[i])
  {
  }
}
