/**
  Properties of the symmetric driver, stated on Drive (and so, through
  DoEigsSym's postcondition, on the driver run in place).

  A run's trace is an exchange log, which alternates dsaupd calls and the
  products they asked for and starts and ends with a call, followed by a
  tail fixed by the outcome: the optional dsaupd warning, the dseupd call if
  dsaupd succeeded, the warning that nothing converged, and the five
  releases.
*/
module EigsSymProofs {
  import opened ArpackStatus
  import opened Arpack
  import opened EigsSym


  /**
    The exchange log: the first dsaupd call, then any number of rounds, each a
    product answering a call that asked for one, followed by the next call.
  */
  ghost predicate ExchangeLog(l: seq<Event>)
    decreases |l|
  {
    if |l| <= 1 then |l| == 1 && l[0].Advance?
    else
      && |l| >= 3
      && l[|l| - 1].Advance? && l[|l| - 2].Product?
      && l[|l| - 3].Advance? && NeedsProduct(l[|l| - 3].ido)
      && ExchangeLog(l[..|l| - 2])
  }

  /** At most one R warning decoded from dsaupd's status. */
  ghost predicate Notice(w: seq<Event>)
  {
    |w| <= 1 && forall i :: 0 <= i < |w| ==> w[i].Warn?
  }

  /** What a solve does after the optional warning and before any release, by outcome. */
  function Body<T>(o: Outcome<T>): seq<Event>
  {
    match o
    case OutOfFuel => []
    case Raised(SaupdFailed(_)) => []
    case Raised(SeupdFailed(_)) => [Extract]
    case Returned(sol) => [Extract] + (if sol.nconv <= 0 then [WarnNoneConverged] else [])
  }

  /** The releases, which only a solve that left the exchange loop reaches. */
  function Closing<T>(o: Outcome<T>): seq<Event>
  {
    if o.OutOfFuel? then [] else Releases
  }

  /** What follows the exchange log: the warning if any, the body and the releases. */
  function Tail<T>(o: Outcome<T>, notice: seq<Event>): seq<Event>
  {
    notice + Body(o) + Closing(o)
  }


  /** The exchange loop extends a log ending in the current call to a log ending in the last call. */
  lemma {:induction false} IterateLog<T(!new)>(p: Problem<T>, saupd: (Problem<T>, Rci<T>) -> Rci<T>,
                                               op: seq<T> -> seq<T>, s: Rci<T>, fuel: nat, trace: seq<Event>)
    requires SaupdHonours(p, saupd) && LengthPreserving(op) && Ready(p, s)
    requires ExchangeLog(trace) && trace[|trace| - 1] == Advance(s.ido)
    ensures var r := Iterate(p, saupd, op, s, fuel, trace);
      && ExchangeLog(r.trace) && r.trace[|r.trace| - 1] == Advance(r.state.ido)
    decreases fuel
  {
    if NeedsProduct(s.ido) && fuel > 0 {
      var next := saupd(p, Multiply(p, op, s));
      var extended := trace + [Product(s.ipntr[0] - 1, s.ipntr[1] - 1), Advance(next.ido)];
      ExtendLog(trace, s.ipntr[0] - 1, s.ipntr[1] - 1, next.ido);
      IterateUnfold(p, saupd, op, s, fuel, trace);
      IterateLog(p, saupd, op, next, fuel - 1, extended);
    }
  }

  /** The exchange loop only appends to the trace it is given. */
  lemma {:induction false} IteratePrefix<T(!new)>(p: Problem<T>, saupd: (Problem<T>, Rci<T>) -> Rci<T>,
                                                  op: seq<T> -> seq<T>, s: Rci<T>, fuel: nat, trace: seq<Event>)
    requires SaupdHonours(p, saupd) && LengthPreserving(op) && Ready(p, s)
    ensures var t := Iterate(p, saupd, op, s, fuel, trace).trace;
      |trace| <= |t| && t[..|trace|] == trace
    decreases fuel
  {
    if NeedsProduct(s.ido) && fuel > 0 {
      var next := saupd(p, Multiply(p, op, s));
      var extended := trace + [Product(s.ipntr[0] - 1, s.ipntr[1] - 1), Advance(next.ido)];
      IterateUnfold(p, saupd, op, s, fuel, trace);
      IteratePrefix(p, saupd, op, next, fuel - 1, extended);
      var t := Iterate(p, saupd, op, next, fuel - 1, extended).trace;
      assert t[..|trace|] == t[..|extended|][..|trace|];
    }
  }

  /** One round appended to a log whose last call asked for a product is again a log. */
  lemma ExtendLog(trace: seq<Event>, src: nat, dst: nat, ido: int)
    requires ExchangeLog(trace) && trace[|trace| - 1].Advance? && NeedsProduct(trace[|trace| - 1].ido)
    ensures var extended := trace + [Product(src, dst), Advance(ido)];
      ExchangeLog(extended) && extended[..|trace|] == trace
  {
    var extended := trace + [Product(src, dst), Advance(ido)];
    assert extended[..|extended| - 2] == trace;
    assert extended[|extended| - 3] == trace[|trace| - 1];
  }

  /** More fuel does not change a run that stopped on its own. */
  lemma {:induction false} IterateFuel<T(!new)>(p: Problem<T>, saupd: (Problem<T>, Rci<T>) -> Rci<T>,
                                                op: seq<T> -> seq<T>, s: Rci<T>, fuel: nat, more: nat,
                                                trace: seq<Event>)
    requires SaupdHonours(p, saupd) && LengthPreserving(op) && Ready(p, s)
    requires Iterate(p, saupd, op, s, fuel, trace).settled && fuel <= more
    ensures Iterate(p, saupd, op, s, more, trace) == Iterate(p, saupd, op, s, fuel, trace)
    decreases fuel
  {
    if NeedsProduct(s.ido) {
      var next := saupd(p, Multiply(p, op, s));
      IterateFuel(p, saupd, op, next, fuel - 1, more - 1,
                  trace + [Product(s.ipntr[0] - 1, s.ipntr[1] - 1), Advance(next.ido)]);
    }
  }

  /** Conclude appends the warning for dsaupd's status and then the tail of its outcome. */
  lemma ConcludeTail<T(!new)>(p: Problem<T>, rvec: bool, sigma: T,
                              seupd: (Problem<T>, bool, T, seq<T>, Rci<T>) -> Extraction<T>,
                              zero: T, s: Rci<T>, trace: seq<Event>) returns (notice: seq<Event>)
    requires SeupdHonours(p, seupd) && Shaped(p, s)
    ensures var r := Conclude(p, rvec, sigma, seupd, zero, s, trace);
      && notice == SaupdNotice(s.info) && Notice(notice) && r.1 == trace + Tail(r.0, notice)
  {
    notice := SaupdNotice(s.info);
    if s.info < 0 {
      assert trace + notice + Releases == trace + (notice + [] + Releases);
    } else {
      var e := seupd(p, rvec, sigma, seq(p.nev, _ => zero), s);
      if e.ierr < 0 {
        assert trace + notice + [Extract] + Releases == trace + (notice + [Extract] + Releases);
      } else {
        var sol := Collect(p, rvec, e);
        var quiet: seq<Event> := if sol.nconv <= 0 then [WarnNoneConverged] else [];
        assert trace + notice + [Extract] + quiet + Releases == trace + (notice + ([Extract] + quiet) + Releases);
      }
    }
  }

  /** The exchange loop of a solve, from the first dsaupd call on, as Drive runs it. */
  function Exchanged<T(!new)>(n: nat, nev: nat, prm: Params<T>, saupd: (Problem<T>, Rci<T>) -> Rci<T>,
                              op: seq<T> -> seq<T>, zero: T, half: T, fuel: nat): Run<T>
    requires n >= 1 && |prm.which| >= 1
    requires SaupdHonours(ProblemOf(n, nev, prm), saupd) && LengthPreserving(op)
  {
    var p := ProblemOf(n, nev, prm);
    var first := saupd(p, Setup(p, prm.maxitr, prm.workmode, op, zero, half));
    Iterate(p, saupd, op, first, fuel, [Advance(first.ido)])
  }

  /**
    The trace of every solve is the exchange loop's log, then the warning
    dsaupd's final status calls for, then the tail of the outcome; the log's
    last call asked for another product exactly when the solve ran out of fuel.
  */
  lemma DriveTrace<T(!new)>(n: nat, nev: nat, prm: Params<T>,
                            saupd: (Problem<T>, Rci<T>) -> Rci<T>,
                            seupd: (Problem<T>, bool, T, seq<T>, Rci<T>) -> Extraction<T>,
                            op: seq<T> -> seq<T>, zero: T, half: T, fuel: nat)
    returns (log: seq<Event>, notice: seq<Event>)
    requires Admissible(n, nev, prm, saupd, seupd, op)
    ensures var r := Drive(n, nev, prm, saupd, seupd, op, zero, half, fuel);
      var run := Exchanged(n, nev, prm, saupd, op, zero, half, fuel);
      && log == run.trace && ExchangeLog(log)
      && notice == (if run.settled then SaupdNotice(run.state.info) else []) && Notice(notice)
      && r.1 == log + Tail(r.0, notice)
      && (r.0.OutOfFuel? <==> NeedsProduct(log[|log| - 1].ido))
  {
    var p := ProblemOf(n, nev, prm);
    var first := saupd(p, Setup(p, prm.maxitr, prm.workmode, op, zero, half));
    IterateLog(p, saupd, op, first, fuel, [Advance(first.ido)]);
    var run := Iterate(p, saupd, op, first, fuel, [Advance(first.ido)]);
    log := run.trace;
    var r := Drive(n, nev, prm, saupd, seupd, op, zero, half, fuel);
    if run.settled {
      notice := ConcludeTail(p, prm.retvec, prm.sigma, seupd, zero, run.state, run.trace);
      assert r == Conclude(p, prm.retvec, prm.sigma, seupd, zero, run.state, run.trace);
      assert r.1 == log + Tail(r.0, notice) && !r.0.OutOfFuel?;
    } else {
      notice := [];
      assert r == (OutOfFuel, log);
      assert log + Tail<T>(OutOfFuel, notice) == log;
    }
  }

  /**
    How a solve ends, in terms of the state its exchange loop stops in: out of
    fuel exactly when the loop did not stop on its own; dsaupd's decoded error
    exactly when the loop stopped with a negative info; otherwise dseupd's
    decoded error exactly when dseupd returns a negative ierr, and else the
    result collected from dseupd's output.
  */
  lemma DriveOutcome<T(!new)>(n: nat, nev: nat, prm: Params<T>,
                              saupd: (Problem<T>, Rci<T>) -> Rci<T>,
                              seupd: (Problem<T>, bool, T, seq<T>, Rci<T>) -> Extraction<T>,
                              op: seq<T> -> seq<T>, zero: T, half: T, fuel: nat)
    requires Admissible(n, nev, prm, saupd, seupd, op)
    ensures var o := Drive(n, nev, prm, saupd, seupd, op, zero, half, fuel).0;
      var run := Exchanged(n, nev, prm, saupd, op, zero, half, fuel);
      var e := seupd(ProblemOf(n, nev, prm), prm.retvec, prm.sigma, seq(nev, _ => zero), run.state);
      && (o.OutOfFuel? <==> !run.settled)
      && (o.Raised? && o.failure.SaupdFailed? <==> run.settled && run.state.info < 0)
      && (o.Raised? && o.failure.SaupdFailed? ==> o.failure.reason == SaupdError(run.state.info))
      && (o.Raised? && o.failure.SeupdFailed? <==> run.settled && run.state.info >= 0 && e.ierr < 0)
      && (o.Raised? && o.failure.SeupdFailed? ==> o.failure.reason == SeupdError(e.ierr))
      && (run.settled && run.state.info >= 0 && e.ierr >= 0 ==> o == Returned(Collect(ProblemOf(n, nev, prm), prm.retvec, e)))
  {
  }

  /** Given enough fuel to finish, a solve does not depend on how much more it gets. */
  lemma DriveFuel<T(!new)>(n: nat, nev: nat, prm: Params<T>,
                           saupd: (Problem<T>, Rci<T>) -> Rci<T>,
                           seupd: (Problem<T>, bool, T, seq<T>, Rci<T>) -> Extraction<T>,
                           op: seq<T> -> seq<T>, zero: T, half: T, fuel: nat, more: nat)
    requires Admissible(n, nev, prm, saupd, seupd, op)
    requires !Drive(n, nev, prm, saupd, seupd, op, zero, half, fuel).0.OutOfFuel? && fuel <= more
    ensures Drive(n, nev, prm, saupd, seupd, op, zero, half, more) == Drive(n, nev, prm, saupd, seupd, op, zero, half, fuel)
  {
    var p := ProblemOf(n, nev, prm);
    var first := saupd(p, Setup(p, prm.maxitr, prm.workmode, op, zero, half));
    IterateFuel(p, saupd, op, first, fuel, more, [Advance(first.ido)]);
  }

  /** A trace without calls or products. */
  ghost predicate Silent(e: seq<Event>)
  {
    forall j :: 0 <= j < |e| ==> !e[j].Advance? && !e[j].Product?
  }

  /** The tail of a solve holds no call and no product. */
  lemma TailSilent<T>(o: Outcome<T>, notice: seq<Event>)
    requires Notice(notice)
    ensures Silent(Tail(o, notice))
  {
    var body := notice + Body(o);
    assert Silent(body) by {
      forall j | 0 <= j < |body| ensures !body[j].Advance? && !body[j].Product? {
        if j >= |notice| {
          assert body[j] == Body(o)[j - |notice|];
        }
      }
    }
  }

  /** An exchange log holds only calls and products. */
  lemma {:induction false} LogQuiet(l: seq<Event>)
    requires ExchangeLog(l)
    ensures forall i :: 0 <= i < |l| ==> l[i].Advance? || l[i].Product?
    decreases |l|
  {
    if |l| > 1 {
      var init := l[..|l| - 2];
      LogQuiet(init);
      assert forall i :: 0 <= i < |init| ==> l[i] == init[i];
    }
  }

  /** In an exchange log, every product comes right after a call that asked for it. */
  lemma {:induction false} LogRequests(l: seq<Event>)
    requires ExchangeLog(l)
    ensures forall i :: 0 <= i < |l| && l[i].Product? ==> 0 < i && l[i - 1].Advance? && NeedsProduct(l[i - 1].ido)
    decreases |l|
  {
    if |l| > 1 {
      var init := l[..|l| - 2];
      LogRequests(init);
      forall i | 0 <= i < |l| && l[i].Product?
        ensures 0 < i && l[i - 1].Advance? && NeedsProduct(l[i - 1].ido)
      {
        if i < |init| {
          assert l[i] == init[i] && l[i - 1] == init[i - 1];
        }
      }
    }
  }

  /** An exchange log holds no event other than calls and products. */
  lemma LogLacks(log: seq<Event>, x: Event)
    requires ExchangeLog(log) && !x.Advance? && !x.Product?
    ensures multiset(log)[x] == 0
  {
    LogQuiet(log);
    assert x !in log;
  }

  /** A notice holds no event other than a warning decoded from dsaupd's status. */
  lemma NoticeLacks(notice: seq<Event>, x: Event)
    requires Notice(notice) && !x.Warn?
    ensures multiset(notice)[x] == 0
  {
    assert x !in notice;
  }

  /** The count of x after a log and a tail is its count in the body and the closing releases. */
  lemma ShapeCount<T>(o: Outcome<T>, log: seq<Event>, notice: seq<Event>, x: Event)
    requires ExchangeLog(log) && Notice(notice) && !x.Advance? && !x.Product? && !x.Warn?
    ensures multiset(log + Tail(o, notice))[x] == multiset(Body(o))[x] + multiset(Closing(o))[x]
  {
    LogLacks(log, x);
    NoticeLacks(notice, x);
    calc {
      multiset(log + Tail(o, notice));
      multiset(log) + multiset(Tail(o, notice));
      multiset(log) + (multiset(notice) + multiset(Body(o)) + multiset(Closing(o)));
    }
  }

  /** How often the body of each outcome holds dseupd, the no-convergence warning and a release. */
  lemma BodyCounts<T>(o: Outcome<T>, b: Buffer)
    ensures multiset(Body(o))[Extract] == (if o.Returned? || (o.Raised? && o.failure.SeupdFailed?) then 1 else 0)
    ensures multiset(Body(o))[WarnNoneConverged] == (if o.Returned? && o.solution.nconv <= 0 then 1 else 0)
    ensures multiset(Body(o))[Release(b)] == 0
  {
    assert Release(b) !in Body(o);
  }

  /** The closing releases hold each buffer once, and neither dseupd nor the warning. */
  lemma ClosingCounts<T>(o: Outcome<T>, b: Buffer)
    ensures multiset(Closing(o))[Extract] == 0 && multiset(Closing(o))[WarnNoneConverged] == 0
    ensures multiset(Closing(o))[Release(b)] == (if o.OutOfFuel? then 0 else 1)
  {
    if !o.OutOfFuel? {
      var m := multiset(Releases);
      assert m == multiset{Release(Workl), Release(Workd), Release(Ipntr), Release(Iparam), Release(Resid)};
    }
  }

  /** A finished solve's trace ends with the five releases. */
  lemma ReleasesEnd<T>(o: Outcome<T>, log: seq<Event>, notice: seq<Event>)
    requires !o.OutOfFuel?
    ensures var t := log + Tail(o, notice);
      |t| >= 5 && t[|t| - 5..] == Releases
  {
    var head := log + notice + Body(o);
    assert log + Tail(o, notice) == head + Releases;
  }

  /** After a log and a tail, buffer b is released once if the solve left the exchange loop, and never otherwise. */
  lemma ShapeReleases<T>(o: Outcome<T>, log: seq<Event>, notice: seq<Event>, b: Buffer)
    requires ExchangeLog(log) && Notice(notice)
    ensures multiset(log + Tail(o, notice))[Release(b)] == (if o.OutOfFuel? then 0 else 1)
  {
    ShapeCount(o, log, notice, Release(b));
    BodyCounts(o, b);
    ClosingCounts(o, b);
  }

  /** After a log and a tail, dseupd appears once if dsaupd ended cleanly and never otherwise. */
  lemma ShapeExtract<T>(o: Outcome<T>, log: seq<Event>, notice: seq<Event>)
    requires ExchangeLog(log) && Notice(notice)
    ensures multiset(log + Tail(o, notice))[Extract]
            == (if o.Returned? || (o.Raised? && o.failure.SeupdFailed?) then 1 else 0)
  {
    ShapeCount(o, log, notice, Extract);
    BodyCounts(o, Workl);
    ClosingCounts(o, Workl);
  }

  /** After a log and a tail, the no-convergence warning appears once if a returned solution has nconv <= 0. */
  lemma ShapeNoneConverged<T>(o: Outcome<T>, log: seq<Event>, notice: seq<Event>)
    requires ExchangeLog(log) && Notice(notice)
    ensures multiset(log + Tail(o, notice))[WarnNoneConverged]
            == (if o.Returned? && o.solution.nconv <= 0 then 1 else 0)
  {
    ShapeCount(o, log, notice, WarnNoneConverged);
    BodyCounts(o, Workl);
    ClosingCounts(o, Workl);
  }

  /** After a log and a tail, every product comes right after a call that asked for it. */
  lemma ShapeRequests<T>(o: Outcome<T>, log: seq<Event>, notice: seq<Event>)
    requires ExchangeLog(log) && Notice(notice)
    ensures var t := log + Tail(o, notice);
      forall i :: 0 <= i < |t| && t[i].Product? ==> 0 < i && t[i - 1].Advance? && NeedsProduct(t[i - 1].ido)
  {
    var rest := Tail(o, notice);
    var t := log + rest;
    LogRequests(log);
    TailSilent(o, notice);
    forall i | 0 <= i < |t| && t[i].Product?
      ensures 0 < i && t[i - 1].Advance? && NeedsProduct(t[i - 1].ido)
    {
      if i < |log| {
        assert t[i] == log[i];
        assert t[i - 1] == log[i - 1];
      } else {
        assert false;
      }
    }
  }

  /** After a log and a tail, calls outnumber products by exactly one. */
  lemma ShapeCounts<T>(o: Outcome<T>, log: seq<Event>, notice: seq<Event>)
    requires ExchangeLog(log) && Notice(notice)
    ensures var t := log + Tail(o, notice);
      Calls(t) == Products(t) + 1
  {
    CountsAppend(log, Tail(o, notice));
    LogCounts(log);
    TailSilent(o, notice);
    QuietCounts(Tail(o, notice));
  }

  /** Every buffer is released exactly once on every way out of the driver, and never while it is still exchanging. */
  lemma ReleasedOnce<T(!new)>(n: nat, nev: nat, prm: Params<T>,
                              saupd: (Problem<T>, Rci<T>) -> Rci<T>,
                              seupd: (Problem<T>, bool, T, seq<T>, Rci<T>) -> Extraction<T>,
                              op: seq<T> -> seq<T>, zero: T, half: T, fuel: nat, b: Buffer)
    requires Admissible(n, nev, prm, saupd, seupd, op)
    ensures var r := Drive(n, nev, prm, saupd, seupd, op, zero, half, fuel);
      multiset(r.1)[Release(b)] == (if r.0.OutOfFuel? then 0 else 1)
  {
    var r := Drive(n, nev, prm, saupd, seupd, op, zero, half, fuel);
    var log, notice := DriveTrace(n, nev, prm, saupd, seupd, op, zero, half, fuel);
    ShapeReleases(r.0, log, notice, b);
  }

  /** On every way out of the driver the five releases come after everything else. */
  lemma ReleasedLast<T(!new)>(n: nat, nev: nat, prm: Params<T>,
                              saupd: (Problem<T>, Rci<T>) -> Rci<T>,
                              seupd: (Problem<T>, bool, T, seq<T>, Rci<T>) -> Extraction<T>,
                              op: seq<T> -> seq<T>, zero: T, half: T, fuel: nat)
    requires Admissible(n, nev, prm, saupd, seupd, op)
    ensures var r := Drive(n, nev, prm, saupd, seupd, op, zero, half, fuel);
      !r.0.OutOfFuel? ==> |r.1| >= 5 && r.1[|r.1| - 5..] == Releases
  {
    var r := Drive(n, nev, prm, saupd, seupd, op, zero, half, fuel);
    var log, notice := DriveTrace(n, nev, prm, saupd, seupd, op, zero, half, fuel);
    if !r.0.OutOfFuel? {
      ReleasesEnd(r.0, log, notice);
    }
  }

  /** dseupd is called, once, exactly when the exchange loop stopped on its own with a non-negative info. */
  lemma ExtractedOnce<T(!new)>(n: nat, nev: nat, prm: Params<T>,
                               saupd: (Problem<T>, Rci<T>) -> Rci<T>,
                               seupd: (Problem<T>, bool, T, seq<T>, Rci<T>) -> Extraction<T>,
                               op: seq<T> -> seq<T>, zero: T, half: T, fuel: nat)
    requires Admissible(n, nev, prm, saupd, seupd, op)
    ensures var r := Drive(n, nev, prm, saupd, seupd, op, zero, half, fuel);
      var run := Exchanged(n, nev, prm, saupd, op, zero, half, fuel);
      multiset(r.1)[Extract] == (if run.settled && run.state.info >= 0 then 1 else 0)
  {
    var r := Drive(n, nev, prm, saupd, seupd, op, zero, half, fuel);
    var log, notice := DriveTrace(n, nev, prm, saupd, seupd, op, zero, half, fuel);
    ShapeExtract(r.0, log, notice);
    DriveOutcome(n, nev, prm, saupd, seupd, op, zero, half, fuel);
  }

  /** Every product of the exchange loop answers the call just before it, and that call asked for it. */
  lemma ProductsAnswerRequests<T(!new)>(n: nat, nev: nat, prm: Params<T>,
                                        saupd: (Problem<T>, Rci<T>) -> Rci<T>,
                                        seupd: (Problem<T>, bool, T, seq<T>, Rci<T>) -> Extraction<T>,
                                        op: seq<T> -> seq<T>, zero: T, half: T, fuel: nat)
    requires Admissible(n, nev, prm, saupd, seupd, op)
    ensures var t := Drive(n, nev, prm, saupd, seupd, op, zero, half, fuel).1;
      forall i :: 0 <= i < |t| && t[i].Product? ==> 0 < i && t[i - 1].Advance? && NeedsProduct(t[i - 1].ido)
  {
    var r := Drive(n, nev, prm, saupd, seupd, op, zero, half, fuel);
    var log, notice := DriveTrace(n, nev, prm, saupd, seupd, op, zero, half, fuel);
    ShapeRequests(r.0, log, notice);
  }

  /** The no-convergence warning is given once for a returned solution with nconv <= 0, and never otherwise. */
  lemma NoneConvergedWarned<T(!new)>(n: nat, nev: nat, prm: Params<T>,
                                     saupd: (Problem<T>, Rci<T>) -> Rci<T>,
                                     seupd: (Problem<T>, bool, T, seq<T>, Rci<T>) -> Extraction<T>,
                                     op: seq<T> -> seq<T>, zero: T, half: T, fuel: nat)
    requires Admissible(n, nev, prm, saupd, seupd, op)
    ensures var r := Drive(n, nev, prm, saupd, seupd, op, zero, half, fuel);
      multiset(r.1)[WarnNoneConverged] == (if r.0.Returned? && r.0.solution.nconv <= 0 then 1 else 0)
  {
    var r := Drive(n, nev, prm, saupd, seupd, op, zero, half, fuel);
    var log, notice := DriveTrace(n, nev, prm, saupd, seupd, op, zero, half, fuel);
    ShapeNoneConverged(r.0, log, notice);
  }


  /**
    A returned solution holds at most nev values and at most ncv vectors, and
    comes only from a solve whose exchange ended without asking for a product.
  */
  lemma ReturnedWithinBounds<T(!new)>(n: nat, nev: nat, prm: Params<T>,
                                      saupd: (Problem<T>, Rci<T>) -> Rci<T>,
                                      seupd: (Problem<T>, bool, T, seq<T>, Rci<T>) -> Extraction<T>,
                                      op: seq<T> -> seq<T>, zero: T, half: T, fuel: nat)
    requires Admissible(n, nev, prm, saupd, seupd, op)
    ensures var r := Drive(n, nev, prm, saupd, seupd, op, zero, half, fuel);
      r.0.Returned? ==>
        && r.0.solution.nconv <= nev && r.0.solution.nconv <= prm.ncv
        && (r.0.solution.values.Some? ==> |r.0.solution.values.value| == r.0.solution.nconv)
        && (r.0.solution.vectors.Some? ==> prm.retvec && |r.0.solution.vectors.value| == n * r.0.solution.nconv)
  {
    var p := ProblemOf(n, nev, prm);
    var first := saupd(p, Setup(p, prm.maxitr, prm.workmode, op, zero, half));
    var run := Iterate(p, saupd, op, first, fuel, [Advance(first.ido)]);
    if run.settled && run.state.info >= 0 {
      var e := seupd(p, prm.retvec, prm.sigma, seq(p.nev, _ => zero), run.state);
      assert e.ierr >= 0 ==> e.state.iparam[4] <= nev && e.state.iparam[4] <= prm.ncv;
    }
  }

  /** Column j of an n-row column-major matrix. */
  function Column<T>(m: seq<T>, n: nat, j: nat): (c: seq<T>)
    requires (j + 1) * n <= |m|
    ensures |c| == n && forall i :: 0 <= i < n ==> c[i] == m[j * n + i]
  {
    m[j * n .. (j + 1) * n]
  }

  /** The returned vectors are the first nconv columns of V, column by column. */
  lemma {:induction false} VectorsAreLeadingColumns<T>(p: Problem<T>, rvec: bool, e: Extraction<T>, j: nat)
    requires Shaped(p, e.state) && |e.d| == p.nev
    requires e.state.iparam[4] <= p.nev && e.state.iparam[4] <= p.ncv
    requires Collect(p, rvec, e).vectors.Some? && j < Collect(p, rvec, e).nconv
    ensures var vs := Collect(p, rvec, e).vectors.value;
      (j + 1) * p.n <= |vs| && (j + 1) * p.n <= |e.state.v| && Column(vs, p.n, j) == Column(e.state.v, p.n, j)
  {
    var sol := Collect(p, rvec, e);
    var vs := sol.vectors.value;
    ColumnFits(p.n, j, sol.nconv);
    PrefixSlice(vs, e.state.v, j * p.n, (j + 1) * p.n);
  }

  lemma ColumnFits(n: nat, j: nat, k: nat)
    requires j < k
    ensures j * n <= (j + 1) * n <= n * k
  {
    MulMonotone(n, j + 1, k);
  }

  /** A slice within a prefix is the same slice of the whole. */
  lemma PrefixSlice<T>(a: seq<T>, b: seq<T>, lo: nat, hi: nat)
    requires a <= b && lo <= hi <= |a|
    ensures a[lo..hi] == b[lo..hi]
  {
    assert forall i :: lo <= i < hi ==> a[i] == b[i];
  }

  /** The number of dsaupd calls in a trace. */
  function Calls(t: seq<Event>): (c: nat)
    ensures c <= |t|
  {
    if t == [] then 0 else (if t[0].Advance? then 1 else 0) + Calls(t[1..])
  }

  /** The number of products in a trace. */
  function Products(t: seq<Event>): (c: nat)
    ensures c <= |t|
  {
    if t == [] then 0 else (if t[0].Product? then 1 else 0) + Products(t[1..])
  }

  lemma {:induction false} CountsAppend(a: seq<Event>, b: seq<Event>)
    ensures Calls(a + b) == Calls(a) + Calls(b)
    ensures Products(a + b) == Products(a) + Products(b)
  {
    if a != [] {
      assert (a + b)[1..] == a[1..] + b;
      CountsAppend(a[1..], b);
    } else {
      assert a + b == b;
    }
  }

  /** An exchange log holds one call more than it holds products. */
  lemma {:induction false} LogCounts(l: seq<Event>)
    requires ExchangeLog(l)
    ensures Calls(l) == Products(l) + 1
    decreases |l|
  {
    if |l| == 1 {
      assert l[1..] == [];
    } else {
      var init := l[..|l| - 2];
      var round := l[|l| - 2..];
      assert l == init + round;
      assert round == [l[|l| - 2], l[|l| - 1]];
      assert round[1..][1..] == [];
      LogCounts(init);
      CountsAppend(init, round);
    }
  }

  /** A trace without calls or products counts neither. */
  lemma {:induction false} QuietCounts(e: seq<Event>)
    requires Silent(e)
    ensures Calls(e) == 0 && Products(e) == 0
  {
    if e != [] {
      assert forall j :: 0 <= j < |e[1..]| ==> e[1..][j] == e[j + 1];
      QuietCounts(e[1..]);
    }
  }

  /** Every solve supplies exactly one loop product fewer than it makes dsaupd calls. */
  lemma ProductsOneFewer<T(!new)>(n: nat, nev: nat, prm: Params<T>,
                                  saupd: (Problem<T>, Rci<T>) -> Rci<T>,
                                  seupd: (Problem<T>, bool, T, seq<T>, Rci<T>) -> Extraction<T>,
                                  op: seq<T> -> seq<T>, zero: T, half: T, fuel: nat)
    requires Admissible(n, nev, prm, saupd, seupd, op)
    ensures var t := Drive(n, nev, prm, saupd, seupd, op, zero, half, fuel).1;
      Calls(t) == Products(t) + 1
  {
    var r := Drive(n, nev, prm, saupd, seupd, op, zero, half, fuel);
    var log, notice := DriveTrace(n, nev, prm, saupd, seupd, op, zero, half, fuel);
    ShapeCounts(r.0, log, notice);
  }
}
