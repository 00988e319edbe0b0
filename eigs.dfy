/**
  The base class of the eigen solvers (`Eigs`): it keeps the problem settings,
  the reverse-communication counters and the buffers shared by every solver,
  and can seed the residual vector with a product of the operator.

  Doubles are a type parameter `T`. The operator behind the virtual
  `MultVector` is a function parameter that keeps lengths, and `sin(i + 0.5)`
  is the coefficient function `coef`.
*/
module EigsBase {
  import opened Arpack

  /** The number of slots of the pointer block a solver object keeps (dnaupd needs 14, dsaupd 11). */
  const SolverPointerSlots := 14

  class Eigs<T(0,!new)> {
    var n: nat
    var nev: int
    var ncv: int
    var which: string
    var workmode: int
    var sigmar: T
    var sigmai: T
    var bmat: char
    var tol: T
    var maxitr: int

    var ido: int
    var info: int
    var ierr: int
    var matrixLinked: bool

    var iparam: array<int>
    var ipntr: array<int>
    var resid: array<T>
    var workd: array<T>

    /** The buffers have the lengths the kernel expects and are four distinct arrays. */
    ghost predicate Valid()
      reads this
    {
      && iparam.Length == ParamSlots && ipntr.Length == SolverPointerSlots
      && resid.Length == n && workd.Length == 3 * n
      && iparam != ipntr && resid != workd
      && iparam as object != resid && iparam as object != workd
      && ipntr as object != resid && ipntr as object != workd
    }

    /**
      Copies the settings, clears the counters, fills the parameter block as the
      driver does, zeroes the pointer block and allocates zeroed resid and workd.
    */
    constructor(n_: nat, nev_: int, ncv_: int, which_: string, workmode_: int, sigmar_: T, sigmai_: T,
                bmat_: char, tol_: T, maxitr_: int, zero: T)
      ensures Valid() && fresh(iparam) && fresh(ipntr) && fresh(resid) && fresh(workd)
      ensures n == n_ && nev == nev_ && ncv == ncv_ && which == which_ && workmode == workmode_
      ensures sigmar == sigmar_ && sigmai == sigmai_ && bmat == bmat_ && tol == tol_ && maxitr == maxitr_
      ensures ido == 0 && info == 0 && ierr == 0 && !matrixLinked
      ensures iparam[..] == InitialIparam(maxitr_, workmode_)
      ensures forall i :: 0 <= i < SolverPointerSlots ==> ipntr[i] == 0
      ensures forall i :: 0 <= i < n_ ==> resid[i] == zero
      ensures forall i :: 0 <= i < 3 * n_ ==> workd[i] == zero
    {
      var params := new int[ParamSlots];
      for i := 0 to ParamSlots
        modifies params
        invariant forall j :: 0 <= j < i ==> params[j] == 0
      {
        params[i] := 0;
      }
      params[1 - 1] := 1;
      params[3 - 1] := maxitr_;
      params[7 - 1] := workmode_;
      assert params[..] == InitialIparam(maxitr_, workmode_);

      var pointers := new int[SolverPointerSlots];
      for i := 0 to SolverPointerSlots
        modifies pointers
        invariant forall j :: 0 <= j < i ==> pointers[j] == 0
      {
        pointers[i] := 0;
      }

      n := n_;
      nev := nev_;
      ncv := ncv_;
      which := which_;
      workmode := workmode_;
      sigmar := sigmar_;
      sigmai := sigmai_;
      bmat := bmat_;
      tol := tol_;
      maxitr := maxitr_;

      ido := 0;
      info := 0;
      ierr := 0;

      matrixLinked := false;

      iparam := params;
      ipntr := pointers;
      resid := new T[n_](_ => zero);
      workd := new T[3 * n_](_ => zero);
    }

    /**
      Asks the kernel to start from our own residual vector (info = 1) and sets
      resid to the product of the vector (coef(0), ..., coef(n - 1)).
    */
    method InitResid(mult: seq<T> -> seq<T>, coef: int -> T)
      requires Valid() && LengthPreserving(mult)
      modifies this`info, resid
      ensures Valid()
      ensures info == 1
      ensures resid[..] == mult(seq(n, i => coef(i)))
      ensures unchanged(iparam, ipntr, workd)
    {
      info := 1;
      var initcoef := new T[n];
      for i := 0 to n
        modifies initcoef
        invariant forall j :: 0 <= j < i ==> initcoef[j] == coef(j)
      {
        initcoef[i] := coef(i);
      }

      assert initcoef[..] == seq(n, i => coef(i));
      var y := mult(initcoef[..]);
      forall i | 0 <= i < n {
        resid[i] := y[i];
      }
    }
  }
}
