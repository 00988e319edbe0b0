/**
  The status decoders of the symmetric driver: total maps from the integer status
  that ARPACK's dsaupd or dseupd leaves in `info`/`ierr` to a closed outcome.
  Calling R's warning routine is modelled by returning a `Warning`; calling R's
  error routine (which never returns) by returning the `Reason` it reports.
*/
module ArpackStatus {
  import opened Wrappers

  /** The two conditions dsaupd reports with a positive `info` that the driver warns about. */
  datatype Warning = MaxIterations | NoShiftsApplied

  /** Why a kernel phase failed; `Coded` is the generic report that only carries the number. */
  datatype Reason =
    | NNotPositive
    | NevNotPositive
    | NcvOutOfRange
    | MaxitrNotPositive
    | WhichInvalid
    | WorklTooShort
    | TridiagonalEigenFailed
    | StartVectorZero
    | NoAccurateEigenvalues
    | ConvergedCountMismatch
    | NoArnoldiFactorization
    | Coded(code: int)

  /** ARPACK's number for each reason: every report keeps the numeric status it came from. */
  function Code(r: Reason): (c: int)
    ensures !r.Coded? ==> c < 0
  {
    match r
    case NNotPositive => -1
    case NevNotPositive => -2
    case NcvOutOfRange => -3
    case MaxitrNotPositive => -4
    case WhichInvalid => -5
    case WorklTooShort => -7
    case TridiagonalEigenFailed => -8
    case StartVectorZero => -9
    case NoAccurateEigenvalues => -14
    case ConvergedCountMismatch => -17
    case NoArnoldiFactorization => -9999
    case Coded(c) => c
  }

  /** The dsaupd codes that have a message of their own; all others get the generic report. */
  const SaupdSpecific: set<int> := {-1, -2, -3, -4, -5, -7, -8, -9, -9999}

  /** The dseupd codes that have a message of their own (-4 and -9999 are not among them). */
  const SeupdSpecific: set<int> := {-1, -2, -3, -5, -7, -8, -9, -14, -17}

  /** `dsaupd_warn_nonsym`: 1 and 3 warn, 2 and every other value are silent. */
  function SaupdWarning(info: int): (w: Option<Warning>)
    ensures w == Some(MaxIterations) <==> info == 1
    ensures w == Some(NoShiftsApplied) <==> info == 3
    ensures w == None <==> info != 1 && info != 3
  {
    match info
    case 1 => Some(MaxIterations)
    case 2 => None
    case 3 => Some(NoShiftsApplied)
    case _ => None
  }

  /** `dsaupd_error_nonsym`: every status yields an error that keeps its code. */
  function SaupdError(info: int): (r: Reason)
    ensures Code(r) == info
    ensures r.Coded? <==> info !in SaupdSpecific
  {
    match info
    case -1 => NNotPositive
    case -2 => NevNotPositive
    case -3 => NcvOutOfRange
    case -4 => MaxitrNotPositive
    case -5 => WhichInvalid
    case -6 => Coded(info)
    case -7 => WorklTooShort
    case -8 => TridiagonalEigenFailed
    case -9 => StartVectorZero
    case -10 => Coded(info)
    case -11 => Coded(info)
    case -12 => Coded(info)
    case -13 => Coded(info)
    case -9999 => NoArnoldiFactorization
    case _ => Coded(info)
  }

  /**
    `dseupd_error_nonsym`: every status yields an error that keeps its code.
    The case for -15/-16 has no `break`, but the error call before it never
    returns, so those codes get the generic report and never reach -17's message.
  */
  function SeupdError(info: int): (r: Reason)
    ensures Code(r) == info
    ensures r.Coded? <==> info !in SeupdSpecific
  {
    match info
    case -1 => NNotPositive
    case -2 => NevNotPositive
    case -3 => NcvOutOfRange
    case -5 => WhichInvalid
    case -6 => Coded(info)
    case -7 => WorklTooShort
    case -8 => TridiagonalEigenFailed
    case -9 => StartVectorZero
    case -10 => Coded(info)
    case -11 => Coded(info)
    case -12 => Coded(info)
    case -14 => NoAccurateEigenvalues
    case -15 => Coded(info)
    case -16 => Coded(info)
    case -17 => ConvergedCountMismatch
    case _ => Coded(info)
  }

  /** Two different statuses never produce the same report, in either phase. */
  lemma DecodersInjective(a: int, b: int)
    ensures SaupdError(a) == SaupdError(b) ==> a == b
    ensures SeupdError(a) == SeupdError(b) ==> a == b
  {
    if SaupdError(a) == SaupdError(b) {
      assert a == Code(SaupdError(a)) == Code(SaupdError(b)) == b;
    }
    if SeupdError(a) == SeupdError(b) {
      assert a == Code(SeupdError(a)) == Code(SeupdError(b)) == b;
    }
  }

  /**
    Where the two phases differ: -4 and -9999 have their own message only after
    dsaupd, -14 and -17 only after dseupd; the other specific codes agree.
  */
  lemma PhasesDiffer(info: int)
    ensures info in SaupdSpecific * SeupdSpecific ==> SaupdError(info) == SeupdError(info)
    ensures info == -4 || info == -9999 ==> !SaupdError(info).Coded? && SeupdError(info) == Coded(info)
    ensures info == -14 || info == -17 ==> SaupdError(info) == Coded(info) && !SeupdError(info).Coded?
  {
  }
}
