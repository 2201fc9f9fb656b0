/** The auto-updater's installer lane: four flags under one lock, one checking
    thread and any number of threads that report an idle window.

    A step of a thread is one locked operation or one call out of the class
    (busy check, install, stagger sleep, restart). Their answers are part of the
    step, so a run is any interleaving with any answers and any exceptions. */
module AutoUpdate {
  datatype Flags = Flags(pending: bool, applying: bool, installed: bool, staggered: bool)

  const RESET := Flags(false, false, false, false)

  predicate Drain(f: Flags) {
    f.pending || f.applying
  }

  function Deferred(f: Flags): Flags {
    f.(applying := false, pending := true)
  }

  predicate MayBegin(f: Flags, requirePending: bool) {
    !f.applying && (requirePending ==> f.pending)
  }

  function Begun(f: Flags): Flags {
    f.(pending := false, applying := true)
  }

  // ------------------------------------------------------------------ threads

  /** What a thread does next. `paid` is the caller's copy of the stagger flag. */
  datatype Pc =
    | Idle | Drained | NotifyBusy | NotifyBegin
    | CheckRemote | CheckBusy | CheckDefer | CheckBegin
    | Phase | Pull(paid: bool) | Failed | Pulled(paid: bool) | Delay(paid: bool)
    | Stagger | Mark | LastBusy | Postpone | Restart
    | Gone

  datatype Event =
    | Asked(thread: nat, busy: bool)
    | Pulls(thread: nat, ok: bool)
    | Slept(thread: nat)
    | Restarts(thread: nat)

  /** The checking thread between reading an empty drain and its claim. */
  predicate Checking(pc: Pc) {
    pc.CheckRemote? || pc.CheckBusy? || pc.CheckDefer? || pc.CheckBegin?
  }

  /** Between a successful claim and the defer, clear or restart. */
  predicate InLane(pc: Pc) {
    || pc.Phase? || pc.Pull? || pc.Failed? || pc.Pulled? || pc.Delay?
    || pc.Stagger? || pc.Mark? || pc.LastBusy? || pc.Postpone? || pc.Restart?
  }

  /** Steps that call out and may raise. */
  predicate CallsOut(pc: Pc) {
    || pc.NotifyBusy? || pc.CheckRemote? || pc.CheckBusy? || pc.Pull?
    || pc.Delay? || pc.Stagger? || pc.LastBusy? || pc.Restart?
  }

  datatype Local = Local(pc: Pc, flags: Flags, events: seq<Event>)

  /** One step of thread t; thread 0 is the checking thread. */
  function Act(pc: Pc, f: Flags, t: nat, yes: bool): Local {
    match pc
    case Idle => Local(if t != 0 || Drain(f) then Drained else CheckRemote, f, [])
    case Drained => Local(if Drain(f) then NotifyBusy else Idle, f, [])
    case NotifyBusy => Local(if yes then Idle else NotifyBegin, f, [Asked(t, yes)])
    case NotifyBegin => if MayBegin(f, true) then Local(Phase, Begun(f), []) else Local(Idle, f, [])
    case CheckRemote => Local(if yes then CheckBusy else Idle, f, [])
    case CheckBusy => Local(if yes then CheckDefer else CheckBegin, f, [Asked(t, yes)])
    case CheckDefer => Local(Idle, Deferred(f), [])
    case CheckBegin => if MayBegin(f, false) then Local(Pull(false), Begun(f), []) else Local(Idle, f, [])
    case Phase =>
      Local(if !f.installed then Pull(f.staggered) else if f.staggered then LastBusy else Stagger, f, [])
    case Pull(paid) => Local(if yes then Pulled(paid) else Failed, f, [Pulls(t, yes)])
    case Failed => Local(Idle, RESET, [])
    case Pulled(paid) => Local(Delay(paid), f.(installed := true), [])
    case Delay(paid) => Local(if yes then Postpone else if paid then LastBusy else Stagger, f, [Asked(t, yes)])
    case Stagger => Local(Mark, f, [Slept(t)])
    case Mark => Local(LastBusy, f.(staggered := true), [])
    case LastBusy => Local(if yes then Postpone else Restart, f, [Asked(t, yes)])
    case Postpone => Local(Idle, Deferred(f), [])
    case Restart => Local(Gone, f, [Restarts(t)])
    case Gone => Local(Gone, f, [])
  }

  /** The same step when the call raises: the thread leaves with the flags as
      they are, and an attempt that was begun stays in the record. */
  function Raise(pc: Pc, f: Flags, t: nat): Local {
    Local(Idle, f,
          if pc.Pull? then [Pulls(t, false)] else if pc.Stagger? then [Slept(t)]
          else if pc.Restart? then [Restarts(t)] else [])
  }

  datatype Move = Move(thread: nat, yes: bool, raises: bool)

  datatype State = State(flags: Flags, threads: seq<Pc>, log: seq<Event>)

  function Moved(s: State, m: Move): Local
    requires m.thread < |s.threads|
  {
    var pc := s.threads[m.thread];
    if m.raises && CallsOut(pc) then Raise(pc, s.flags, m.thread) else Act(pc, s.flags, m.thread, m.yes)
  }

  function Step(s: State, m: Move): State {
    if m.thread >= |s.threads| then s
    else
      var l := Moved(s, m);
      State(l.flags, s.threads[m.thread := l.pc], s.log + l.events)
  }

  function Run(threads: nat, moves: seq<Move>): State {
    if |moves| == 0 then State(RESET, seq(threads, _ => Idle), [])
    else Step(Run(threads, moves[..|moves| - 1]), moves[|moves| - 1])
  }

  // ---------------------------------------------------------------- the record

  ghost predicate HasInstall(log: seq<Event>) {
    exists i :: 0 <= i < |log| && log[i].Pulls? && log[i].ok
  }

  ghost predicate HasSlept(log: seq<Event>) {
    exists i :: 0 <= i < |log| && log[i].Slept?
  }

  /** The thread's latest busy check found the process idle. */
  predicate SeenIdle(log: seq<Event>, t: nat) {
    |log| > 0 &&
    var e := log[|log| - 1];
    if e.Asked? && e.thread == t then !e.busy else SeenIdle(log[..|log| - 1], t)
  }

  /** What the record says to thread t. */
  datatype Seen = Seen(installed: bool, slept: bool, idle: bool)

  ghost function Saw(log: seq<Event>, t: nat): Seen {
    Seen(HasInstall(log), HasSlept(log), SeenIdle(log, t))
  }

  function After(seen: Seen, e: Event, t: nat): Seen {
    Seen(seen.installed || (e.Pulls? && e.ok), seen.slept || e.Slept?,
         if e.Asked? && e.thread == t then !e.busy else seen.idle)
  }

  /** What may happen after what: no pull after an install, one stagger and only
      after the install, and a restart only when installed, staggered and idle
      at the thread's latest check. */
  predicate MayFollow(seen: Seen, e: Event) {
    match e
    case Asked(_, _) => true
    case Pulls(_, _) => !seen.installed
    case Slept(_) => seen.installed && !seen.slept
    case Restarts(_) => seen.installed && seen.slept && seen.idle
  }

  ghost predicate Fits(before: seq<Event>, e: Event) {
    MayFollow(Saw(before, e.thread), e)
  }

  ghost predicate Safe(log: seq<Event>) {
    forall i :: 0 <= i < |log| ==> Fits(log[..i], log[i])
  }

  // ----------------------------------------------------------------- invariant

  /** What holds of the flags and the record while a thread is in the lane. */
  predicate LaneFits(pc: Pc, f: Flags, seen: Seen) {
    match pc
    case Phase => f.installed == seen.installed && f.staggered == seen.slept
    case Pull(paid) => !paid && !f.installed && !f.staggered && !seen.installed && !seen.slept
    case Failed => !f.installed && !seen.installed && !seen.slept
    case Pulled(paid) => !paid && !f.staggered && seen.installed && !seen.slept
    case Delay(paid) => !paid && f.installed && !f.staggered && seen.installed && !seen.slept
    case Stagger => f.installed && !f.staggered && seen.installed && !seen.slept
    case Mark => f.installed && seen.installed && seen.slept
    case LastBusy => f.installed && f.staggered && seen.installed && seen.slept
    case Postpone => f.installed && seen.installed && f.staggered == seen.slept
    case Restart => f.installed && f.staggered && seen.installed && seen.slept && seen.idle
    case _ => true
  }

  /** A thread against the shared flags and the record. */
  predicate ThreadFits(pc: Pc, t: nat, f: Flags, seen: Seen) {
    && (Checking(pc) ==> t == 0 && !Drain(f))
    && (InLane(pc) ==> f.applying && !f.pending && LaneFits(pc, f, seen))
  }

  predicate FlagsFit(f: Flags, seen: Seen) {
    && (f.installed ==> Drain(f))
    && (f.staggered ==> f.installed)
    && (!f.applying ==> f.installed == seen.installed && f.staggered == seen.slept)
  }

  ghost predicate Exclusive(threads: seq<Pc>) {
    forall i, j :: 0 <= i < j < |threads| ==> !(InLane(threads[i]) && InLane(threads[j]))
  }

  ghost predicate Invariant(s: State) {
    && Exclusive(s.threads)
    && (forall t :: 0 <= t < |s.threads| ==> ThreadFits(s.threads[t], t, s.flags, Saw(s.log, t)))
    && FlagsFit(s.flags, Saw(s.log, 0))
    && Safe(s.log)
  }

  lemma Appended(log: seq<Event>, e: Event)
    ensures forall t: nat :: Saw(log + [e], t) == After(Saw(log, t), e, t)
    ensures Safe(log) && Fits(log, e) ==> Safe(log + [e])
  {
    var longer := log + [e];
    assert longer[..|log|] == log && longer[|log|] == e;
    if HasInstall(log) {
      var i :| 0 <= i < |log| && log[i].Pulls? && log[i].ok;
      assert longer[i] == log[i];
    }
    if HasSlept(log) {
      var i :| 0 <= i < |log| && log[i].Slept?;
      assert longer[i] == log[i];
    }
    if Safe(log) && Fits(log, e) {
      forall i | 0 <= i < |longer|
        ensures Fits(longer[..i], longer[i])
      {
        if i < |log| {
          assert longer[..i] == log[..i];
        }
      }
    }
  }

  /** At most one event a step. */
  lemma Recorded(log: seq<Event>, events: seq<Event>)
    requires |events| <= 1
    ensures |events| == 0 ==> log + events == log
    ensures |events| == 1 ==> log + events == log + [events[0]]
  {
  }

  /** A local step against what its thread sees: the flags and the record it
      leaves, and for the event it adds, that it may follow. */
  ghost predicate Keeps(l: Local, t: nat, seen: Seen) {
    && |l.events| <= 1
    && var now := if |l.events| == 0 then seen else After(seen, l.events[0], t);
    && (|l.events| == 1 ==> l.events[0].thread == t && MayFollow(seen, l.events[0]))
    && ThreadFits(l.pc, t, l.flags, now)
    && FlagsFit(l.flags, now)
  }

  lemma OutsideKeeps(pc: Pc, f: Flags, t: nat, yes: bool, seen: Seen)
    requires !InLane(pc)
    requires ThreadFits(pc, t, f, seen) && FlagsFit(f, seen)
    ensures Keeps(Act(pc, f, t, yes), t, seen)
  {
  }

  lemma EarlyLaneKeeps(pc: Pc, f: Flags, t: nat, yes: bool, seen: Seen)
    requires pc.Phase? || pc.Pull? || pc.Failed? || pc.Pulled? || pc.Delay?
    requires ThreadFits(pc, t, f, seen) && FlagsFit(f, seen)
    ensures Keeps(Act(pc, f, t, yes), t, seen)
  {
  }

  lemma LateLaneKeeps(pc: Pc, f: Flags, t: nat, yes: bool, seen: Seen)
    requires pc.Stagger? || pc.Mark? || pc.LastBusy? || pc.Postpone? || pc.Restart?
    requires ThreadFits(pc, t, f, seen) && FlagsFit(f, seen)
    ensures Keeps(Act(pc, f, t, yes), t, seen)
  {
  }

  lemma RaiseKeeps(pc: Pc, f: Flags, t: nat, seen: Seen)
    requires ThreadFits(pc, t, f, seen) && FlagsFit(f, seen)
    ensures Keeps(Raise(pc, f, t), t, seen)
  {
  }

  /** The moving thread keeps what concerns itself, the flags and the record. */
  lemma MoverKeeps(s: State, m: Move)
    requires Invariant(s) && m.thread < |s.threads|
    ensures Keeps(Moved(s, m), m.thread, Saw(s.log, m.thread))
  {
    var pc := s.threads[m.thread];
    assert ThreadFits(pc, m.thread, s.flags, Saw(s.log, m.thread));
    assert FlagsFit(s.flags, Saw(s.log, m.thread));
    hide HasInstall, HasSlept, SeenIdle, Safe, Exclusive, FlagsFit, ThreadFits, Keeps, Act, Raise;
    var seen := Saw(s.log, m.thread);
    if m.raises && CallsOut(pc) {
      RaiseKeeps(pc, s.flags, m.thread, seen);
    } else if !InLane(pc) {
      OutsideKeeps(pc, s.flags, m.thread, m.yes, seen);
    } else if pc.Phase? || pc.Pull? || pc.Failed? || pc.Pulled? || pc.Delay? {
      EarlyLaneKeeps(pc, s.flags, m.thread, m.yes, seen);
    } else {
      LateLaneKeeps(pc, s.flags, m.thread, m.yes, seen);
    }
  }

  /** A thread outside the lane, when someone else holds it or nothing is
      pending, changes no flag and records at most a busy check. */
  lemma OutsiderActs(s: State, m: Move)
    requires m.thread < |s.threads| && !InLane(s.threads[m.thread]) && !Checking(s.threads[m.thread])
    requires s.flags.applying || !s.flags.pending
    ensures Moved(s, m).flags == s.flags && !InLane(Moved(s, m).pc) && |Moved(s, m).events| <= 1
    ensures forall e :: e in Moved(s, m).events ==> e.Asked? && e.thread == m.thread
  {
  }

  /** What a step of one thread does to another: nothing it relies on. */
  lemma OthersKeep(s: State, m: Move, t: nat)
    requires Invariant(s) && m.thread < |s.threads| && t < |s.threads| && t != m.thread
    ensures var l, seen := Moved(s, m), Saw(s.log, t);
            && ThreadFits(s.threads[t], t, l.flags, if |l.events| == 0 then seen else After(seen, l.events[0], t))
            && !(InLane(l.pc) && InLane(s.threads[t]))
  {
    var pc := s.threads[m.thread];
    assert ThreadFits(pc, m.thread, s.flags, Saw(s.log, m.thread));
    assert ThreadFits(s.threads[t], t, s.flags, Saw(s.log, t));
    assert !(InLane(pc) && InLane(s.threads[t]));
    if InLane(s.threads[t]) || Checking(s.threads[t]) {
      OutsiderActs(s, m);
    }
    hide HasInstall, HasSlept, SeenIdle, Safe, Exclusive, Moved, LaneFits;
    assert LaneFits(s.threads[t], s.flags, After(Saw(s.log, t), Asked(m.thread, true), t))
       == LaneFits(s.threads[t], s.flags, Saw(s.log, t));
  }

  /** The record of a step, and what every thread then sees. */
  lemma RecordKeeps(log: seq<Event>, l: Local, t: nat)
    requires Safe(log) && Keeps(l, t, Saw(log, t))
    ensures Safe(log + l.events)
    ensures forall u: nat ::
              Saw(log + l.events, u) == if |l.events| == 0 then Saw(log, u) else After(Saw(log, u), l.events[0], u)
  {
    Recorded(log, l.events);
    if |l.events| == 1 {
      Appended(log, l.events[0]);
    }
  }

  lemma StepKeeps(s: State, m: Move)
    requires Invariant(s)
    ensures Invariant(Step(s, m))
  {
    if m.thread < |s.threads| {
      var l := Moved(s, m);
      MoverKeeps(s, m);
      RecordKeeps(s.log, l, m.thread);
      assert FlagsFit(l.flags, Saw(s.log + l.events, 0));
      forall t: nat | t < |s.threads| && t != m.thread
        ensures ThreadFits(s.threads[t], t, l.flags, Saw(s.log + l.events, t))
        ensures !(InLane(l.pc) && InLane(s.threads[t]))
      {
        OthersKeep(s, m, t);
      }
      assert ThreadFits(l.pc, m.thread, l.flags, Saw(s.log + l.events, m.thread));
      hide Moved, ThreadFits, FlagsFit, Safe, InLane, Saw, Keeps;
    }
  }

  lemma {:induction false} RunKeeps(threads: nat, moves: seq<Move>)
    ensures Invariant(Run(threads, moves))
    decreases |moves|
  {
    if |moves| > 0 {
      RunKeeps(threads, moves[..|moves| - 1]);
      hide Invariant, Step;
      StepKeeps(Run(threads, moves[..|moves| - 1]), moves[|moves| - 1]);
    }
  }

  // ------------------------------------------------------------------ theorems

  /** Under every interleaving, at most one thread holds the lane, and while one
      does the drain is requested. */
  lemma LaneIsExclusive(threads: nat, moves: seq<Move>, i: nat, j: nat)
    requires i < threads && j < threads
    ensures var s := Run(threads, moves);
            && |s.threads| == threads
            && (InLane(s.threads[i]) && InLane(s.threads[j]) ==> i == j)
            && (InLane(s.threads[i]) ==> Drain(s.flags))
  {
    RunKeeps(threads, moves);
    RunThreads(threads, moves);
    assert ThreadFits(Run(threads, moves).threads[i], i, Run(threads, moves).flags, Saw(Run(threads, moves).log, i));
  }

  lemma {:induction false} RunThreads(threads: nat, moves: seq<Move>)
    ensures |Run(threads, moves).threads| == threads
    decreases |moves|
  {
    if |moves| > 0 {
      RunThreads(threads, moves[..|moves| - 1]);
    }
  }

  /** What the record of a run looks like: no pull after a successful one, one
      stagger at most and after a successful pull, and a restart only after both,
      with its thread's latest busy check answered idle. */
  ghost predicate Orderly(log: seq<Event>) {
    && (forall i, j :: 0 <= i < j < |log| && log[i].Pulls? && log[i].ok ==> !log[j].Pulls?)
    && (forall i, j :: 0 <= i < j < |log| && log[i].Slept? ==> !log[j].Slept?)
    && (forall j :: 0 <= j < |log| && (log[j].Slept? || log[j].Restarts?) ==>
          exists i :: 0 <= i < j && log[i].Pulls? && log[i].ok)
    && (forall j :: 0 <= j < |log| && log[j].Restarts? ==> exists i :: 0 <= i < j && log[i].Slept?)
    && (forall j :: 0 <= j < |log| && log[j].Restarts? ==> IdleAtLast(log, j, log[j].thread))
  }

  /** The latest busy check of thread t before place j found the process idle. */
  ghost predicate IdleAtLast(log: seq<Event>, j: nat, t: nat)
    requires j <= |log|
  {
    exists i :: 0 <= i < j && log[i] == Asked(t, false) && forall k :: i < k < j ==> !(log[k].Asked? && log[k].thread == t)
  }

  lemma {:induction false} SeenIsLast(log: seq<Event>, j: nat, t: nat)
    requires j <= |log| && SeenIdle(log[..j], t)
    ensures IdleAtLast(log, j, t)
    decreases j
  {
    var e := log[j - 1];
    assert log[..j][j - 1] == e && log[..j][..j - 1] == log[..j - 1];
    if e.Asked? && e.thread == t {
      assert log[j - 1] == Asked(t, false);
    } else {
      SeenIsLast(log, j - 1, t);
      var i :| 0 <= i < j - 1 && log[i] == Asked(t, false) && forall k :: i < k < j - 1 ==> !(log[k].Asked? && log[k].thread == t);
      assert forall k :: i < k < j ==> !(log[k].Asked? && log[k].thread == t);
    }
  }

  lemma SafeIsOrderly(log: seq<Event>)
    requires Safe(log)
    ensures Orderly(log)
  {
    forall j | 0 <= j < |log|
      ensures Fits(log[..j], log[j]) && (log[j].Restarts? ==> IdleAtLast(log, j, log[j].thread))
    {
      assert Fits(log[..j], log[j]);
      if log[j].Restarts? {
        SeenIsLast(log, j, log[j].thread);
      }
    }
    forall i, j | 0 <= i < j < |log|
      ensures log[i].Pulls? && log[i].ok ==> HasInstall(log[..j])
      ensures log[i].Slept? ==> HasSlept(log[..j])
    {
      assert log[..j][i] == log[i];
    }
    hide SeenIdle, IdleAtLast;
    forall j | 0 <= j < |log|
      ensures HasInstall(log[..j]) ==> exists i :: 0 <= i < j && log[i].Pulls? && log[i].ok
      ensures HasSlept(log[..j]) ==> exists i :: 0 <= i < j && log[i].Slept?
    {
      if i :| 0 <= i < j && log[..j][i].Pulls? && log[..j][i].ok {
        assert log[i] == log[..j][i];
      }
      if i :| 0 <= i < j && log[..j][i].Slept? {
        assert log[i] == log[..j][i];
      }
    }
  }

  /** In the record of every run: after one successful install nothing pulls
      again, the stagger is paid at most once, and every restart comes after the
      install and the stagger with the latest busy check of its thread false. */
  lemma EveryRunIsSafe(threads: nat, moves: seq<Move>)
    ensures Safe(Run(threads, moves).log) && Orderly(Run(threads, moves).log)
  {
    RunKeeps(threads, moves);
    SafeIsOrderly(Run(threads, moves).log);
  }

  /** A step is one of the owner's: only the thread in the lane clears it. */
  lemma OwnerReleases(threads: nat, moves: seq<Move>, m: Move)
    requires Run(threads, moves).flags.applying && !Step(Run(threads, moves), m).flags.applying
    ensures m.thread < threads && InLane(Run(threads, moves).threads[m.thread])
  {
    RunKeeps(threads, moves);
    RunThreads(threads, moves);
    var s := Run(threads, moves);
    assert ThreadFits(s.threads[m.thread], m.thread, s.flags, Saw(s.log, m.thread));
  }

  // ---------------------------------------------------------------- a lost lane

  /** The lane is claimed and nobody is in it. */
  predicate Stuck(s: State) {
    s.flags.applying && forall t :: 0 <= t < |s.threads| ==> !InLane(s.threads[t]) && !Checking(s.threads[t])
  }

  /** A move with which a thread leaves the lane without releasing it: a call
      inside it raises, or it restarts. */
  predicate Loses(s: State, m: Move) {
    m.thread < |s.threads| &&
    var pc := s.threads[m.thread];
    InLane(pc) && ((m.raises && CallsOut(pc)) || pc.Restart?)
  }

  ghost predicate LosesAt(threads: nat, moves: seq<Move>, i: nat) {
    i < |moves| && Loses(Run(threads, moves[..i]), moves[i])
  }

  lemma LosingSticks(s: State, m: Move)
    requires Invariant(s) && Loses(s, m)
    ensures Stuck(Step(s, m))
  {
    var pc := s.threads[m.thread];
    assert ThreadFits(pc, m.thread, s.flags, Saw(s.log, m.thread));
    forall t: nat | t < |s.threads| && t != m.thread
      ensures !InLane(s.threads[t]) && !Checking(s.threads[t])
    {
      assert ThreadFits(s.threads[t], t, s.flags, Saw(s.log, t));
    }
    assert Moved(s, m).flags.applying && !InLane(Moved(s, m).pc) && !Checking(Moved(s, m).pc);
    hide Moved, Invariant, InLane, Checking;
  }

  /** A claimed lane with nobody in it is all that being stuck takes: nobody can
      be checking then. */
  lemma ClaimedFits(s: State)
    requires Invariant(s) && s.flags.applying && !Stuck(s)
    ensures exists t :: 0 <= t < |s.threads| && InLane(s.threads[t])
  {
    var t: nat :| t < |s.threads| && (InLane(s.threads[t]) || Checking(s.threads[t]));
    assert ThreadFits(s.threads[t], t, s.flags, Saw(s.log, t));
  }

  /** Any other move leaves the lane free or with a thread in it. */
  lemma OthersHold(s: State, m: Move)
    requires Invariant(s) && !Stuck(s) && !Loses(s, m) && m.thread < |s.threads|
    ensures !Stuck(Step(s, m))
  {
    var pc, l := s.threads[m.thread], Moved(s, m);
    assert ThreadFits(pc, m.thread, s.flags, Saw(s.log, m.thread));
    if l.flags.applying && !InLane(l.pc) {
      assert s.flags.applying && !InLane(pc);
      ClaimedFits(s);
      var t: nat :| t < |s.threads| && InLane(s.threads[t]);
      assert Step(s, m).threads[t] == s.threads[t];
    } else if l.flags.applying {
      assert InLane(Step(s, m).threads[m.thread]);
    }
  }

  /** Over every run the lane is stuck exactly when in some step of it a call
      inside the lane raised or a thread restarted; as long as neither has
      happened, a claimed lane has a thread in it. */
  lemma {:induction false} StuckExactly(threads: nat, moves: seq<Move>)
    ensures Stuck(Run(threads, moves)) <==> exists i: nat :: LosesAt(threads, moves, i)
    ensures var s := Run(threads, moves);
            s.flags.applying && !(exists i: nat :: LosesAt(threads, moves, i)) ==>
              exists t :: 0 <= t < |s.threads| && InLane(s.threads[t])
    decreases |moves|
  {
    RunKeeps(threads, moves);
    if |moves| > 0 {
      var before, m := moves[..|moves| - 1], moves[|moves| - 1];
      var s := Run(threads, before);
      StuckExactly(threads, before);
      RunKeeps(threads, before);
      LosesLater(threads, moves);
      hide Invariant, Stuck, Loses, Step;
      if Loses(s, m) {
        LosingSticks(s, m);
      } else if Stuck(s) {
        StuckStep(s, m);
      } else if m.thread < |s.threads| {
        OthersHold(s, m);
      } else {
        NoThread(s, m);
      }
    }
    if Run(threads, moves).flags.applying && !Stuck(Run(threads, moves)) {
      ClaimedFits(Run(threads, moves));
    }
  }

  lemma NoThread(s: State, m: Move)
    requires m.thread >= |s.threads|
    ensures Step(s, m) == s
  {
  }

  lemma LosesLater(threads: nat, moves: seq<Move>)
    requires |moves| > 0
    ensures var before, m := moves[..|moves| - 1], moves[|moves| - 1];
            (exists i: nat :: LosesAt(threads, moves, i))
            <==> (exists i: nat :: LosesAt(threads, before, i)) || Loses(Run(threads, before), m)
  {
    hide Loses, Run;
    var before := moves[..|moves| - 1];
    forall i: nat | i < |moves|
      ensures LosesAt(threads, moves, i)
           == if i < |before| then LosesAt(threads, before, i) else Loses(Run(threads, before), moves[|moves| - 1])
    {
      assert i < |before| ==> before[..i] == moves[..i];
    }
    if Loses(Run(threads, before), moves[|moves| - 1]) {
      assert LosesAt(threads, moves, |before|);
    }
    if i: nat :| LosesAt(threads, before, i) {
      assert LosesAt(threads, moves, i);
    }
  }

  lemma StuckStep(s: State, m: Move)
    requires Stuck(s)
    ensures Stuck(Step(s, m)) && Step(s, m).flags == s.flags
    ensures s.log <= Step(s, m).log && forall e :: e in Step(s, m).log[|s.log|..] ==> e.Asked?
  {
    if m.thread < |s.threads| {
      var pc := s.threads[m.thread];
      assert !InLane(pc) && !Checking(pc);
      assert !InLane(Moved(s, m).pc) && !Checking(Moved(s, m).pc) && Moved(s, m).flags == s.flags;
      assert forall e :: e in Moved(s, m).events ==> e.Asked?;
      hide InLane, Checking, Moved;
    }
  }

  function From(s: State, moves: seq<Move>): State
    decreases |moves|
  {
    if |moves| == 0 then s else From(Step(s, moves[0]), moves[1..])
  }

  /** Then no later step claims the lane or changes a flag, and the record grows
      by busy checks only: this process pulls, sleeps and restarts no more. */
  lemma {:induction false} StuckForGood(s: State, moves: seq<Move>)
    requires Stuck(s)
    ensures Stuck(From(s, moves)) && From(s, moves).flags == s.flags
    ensures s.log <= From(s, moves).log && forall e :: e in From(s, moves).log[|s.log|..] ==> e.Asked?
    decreases |moves|
  {
    if |moves| > 0 {
      var t := Step(s, moves[0]);
      StuckStep(s, moves[0]);
      hide Stuck, Step;
      StuckForGood(t, moves[1..]);
      var end := From(t, moves[1..]).log;
      assert end[|s.log|..] == end[|s.log|..|t.log|] + end[|t.log|..] && end[|s.log|..|t.log|] == t.log[|s.log|..];
    }
  }

  /** So a raise inside the lane keeps the drain requested in every continuation
      of every run. */
  lemma RaiseKeepsDrain(threads: nat, moves: seq<Move>, m: Move, more: seq<Move>)
    requires Loses(Run(threads, moves), m)
    ensures var s := Step(Run(threads, moves), m);
            Stuck(From(s, more)) && Drain(From(s, more).flags) && From(s, more).flags == s.flags
  {
    RunKeeps(threads, moves);
    LosingSticks(Run(threads, moves), m);
    StuckForGood(Step(Run(threads, moves), m), more);
  }

  // --------------------------------------------------------- one thread by itself

  datatype Outcome = NothingPending | StillBusy | LaneTaken | NotNeeded | InstallFailed | Waiting | Restarting

  /** The answers one call receives from outside. */
  datatype Answers = Answers(needed: bool, busy: bool, pulled: bool, busyAfterDelay: bool, busyAtLast: bool)

  /** From the stagger to the defer or the restart. */
  function Finished(f: Flags, paid: bool, a: Answers): (Flags, Outcome) {
    var g := if paid then f else f.(staggered := true);
    if a.busyAtLast then (Deferred(g), Waiting) else (g, Restarting)
  }

  /** From the claim on, with the caller's copies of the phase. */
  function Claimed(f: Flags, installed: bool, paid: bool, a: Answers): (Flags, Outcome) {
    if installed then Finished(f, paid, a)
    else if !a.pulled then (RESET, InstallFailed)
    else if a.busyAfterDelay then (Deferred(f.(installed := true)), Waiting)
    else Finished(f.(installed := true), paid, a)
  }

  function Notified(f: Flags, a: Answers): (Flags, Outcome) {
    if !Drain(f) then (f, NothingPending)
    else if a.busy then (f, StillBusy)
    else if !MayBegin(f, true) then (f, LaneTaken)
    else Claimed(Begun(f), f.installed, f.staggered, a)
  }

  function Checked(f: Flags, a: Answers): (Flags, Outcome) {
    if !a.needed then (f, NotNeeded)
    else if a.busy then (Deferred(f), Waiting)
    else if !MayBegin(f, false) then (f, LaneTaken)
    else Claimed(Begun(f), false, false, a)
  }

  /** The answer a thread receives where it stands. */
  function AnswerAt(pc: Pc, a: Answers): bool {
    match pc
    case NotifyBusy => a.busy
    case CheckRemote => a.needed
    case CheckBusy => a.busy
    case Pull(_) => a.pulled
    case Delay(_) => a.busyAfterDelay
    case LastBusy => a.busyAtLast
    case _ => false
  }

  /** n steps of one thread while the others stand still. */
  function Alone(s: State, t: nat, a: Answers, n: nat): State
    requires t < |s.threads|
    decreases n
  {
    if n == 0 then s else Alone(Step(s, Move(t, AnswerAt(s.threads[t], a), false)), t, a, n - 1)
  }

  /** The same for the thread and the flags only. */
  function Walk(pc: Pc, f: Flags, t: nat, a: Answers, n: nat): (Pc, Flags)
    decreases n
  {
    if n == 0 then (pc, f)
    else
      var l := Act(pc, f, t, AnswerAt(pc, a));
      Walk(l.pc, l.flags, t, a, n - 1)
  }

  lemma {:induction false} AloneWalks(s: State, t: nat, a: Answers, n: nat)
    requires t < |s.threads|
    ensures var end, walked := Alone(s, t, a, n), Walk(s.threads[t], s.flags, t, a, n);
            end.flags == walked.1 && end.threads == s.threads[t := walked.0]
    decreases n
  {
    if n > 0 {
      var next := Step(s, Move(t, AnswerAt(s.threads[t], a), false));
      AloneWalks(next, t, a, n - 1);
      hide Act;
      assert s.threads[t := next.threads[t]] == next.threads;
    }
  }

  /** Where a thread stands after a call with an outcome: about to restart, or
      back outside. */
  function EndOf(o: Outcome): Pc {
    if o.Restarting? then Restart else Idle
  }

  /** Some number of steps ends a walk as a call does. */
  ghost predicate EndsAs(pc: Pc, f: Flags, t: nat, a: Answers, r: (Flags, Outcome)) {
    exists n: nat :: Walk(pc, f, t, a, n) == (EndOf(r.1), r.0)
  }

  lemma OneStep(pc: Pc, f: Flags, t: nat, a: Answers, r: (Flags, Outcome))
    requires var l := Act(pc, f, t, AnswerAt(pc, a)); EndsAs(l.pc, l.flags, t, a, r)
    ensures EndsAs(pc, f, t, a, r)
  {
    hide Act;
    var l := Act(pc, f, t, AnswerAt(pc, a));
    var n: nat :| Walk(l.pc, l.flags, t, a, n) == (EndOf(r.1), r.0);
    assert Walk(pc, f, t, a, n + 1) == (EndOf(r.1), r.0);
  }

  lemma Ended(pc: Pc, f: Flags, t: nat, a: Answers, r: (Flags, Outcome))
    requires pc == EndOf(r.1) && f == r.0
    ensures EndsAs(pc, f, t, a, r)
  {
    assert Walk(pc, f, t, a, 0) == (EndOf(r.1), r.0);
  }

  lemma LastWalk(f: Flags, t: nat, a: Answers)
    ensures EndsAs(LastBusy, f, t, a, if a.busyAtLast then (Deferred(f), Waiting) else (f, Restarting))
  {
    hide Walk, EndsAs;
    if a.busyAtLast {
      Ended(Idle, Deferred(f), t, a, (Deferred(f), Waiting));
      OneStep(Postpone, f, t, a, (Deferred(f), Waiting));
      OneStep(LastBusy, f, t, a, (Deferred(f), Waiting));
    } else {
      Ended(Restart, f, t, a, (f, Restarting));
      OneStep(LastBusy, f, t, a, (f, Restarting));
    }
  }

  lemma FinishWalk(f: Flags, paid: bool, t: nat, a: Answers)
    ensures EndsAs(if paid then LastBusy else Stagger, f, t, a, Finished(f, paid, a))
  {
    hide Walk, EndsAs;
    var g := if paid then f else f.(staggered := true);
    LastWalk(g, t, a);
    if !paid {
      OneStep(Mark, f, t, a, Finished(f, paid, a));
      OneStep(Stagger, f, t, a, Finished(f, paid, a));
    }
  }

  lemma PullWalk(f: Flags, paid: bool, t: nat, a: Answers)
    ensures EndsAs(Pull(paid), f, t, a, Claimed(f, false, paid, a))
  {
    hide Walk, EndsAs;
    var g, r := f.(installed := true), Claimed(f, false, paid, a);
    if !a.pulled {
      Ended(Idle, RESET, t, a, r);
      OneStep(Failed, f, t, a, r);
    } else {
      if a.busyAfterDelay {
        Ended(Idle, Deferred(g), t, a, r);
        OneStep(Postpone, g, t, a, r);
      } else {
        FinishWalk(g, paid, t, a);
      }
      OneStep(Delay(paid), g, t, a, r);
      OneStep(Pulled(paid), f, t, a, r);
    }
    OneStep(Pull(paid), f, t, a, r);
  }

  /** A notifying thread that moves alone ends as `Notified` says, from any
      state. */
  lemma NotifyAlone(s: State, t: nat, a: Answers) returns (n: nat)
    requires t < |s.threads| && s.threads[t] == Drained
    ensures var r, end := Notified(s.flags, a), Alone(s, t, a, n);
            end.flags == r.0 && end.threads == s.threads[t := EndOf(r.1)]
  {
    var f, r := s.flags, Notified(s.flags, a);
    assert EndsAs(Drained, f, t, a, r) by {
      hide Walk, EndsAs;
      if !Drain(f) || a.busy || !MayBegin(f, true) {
        Ended(Idle, f, t, a, r);
      } else {
        var g := Begun(f);
        if f.installed {
          FinishWalk(g, f.staggered, t, a);
        } else {
          PullWalk(g, f.staggered, t, a);
        }
        OneStep(Phase, g, t, a, r);
      }
      if Drain(f) {
        if !a.busy {
          OneStep(NotifyBegin, f, t, a, r);
        }
        OneStep(NotifyBusy, f, t, a, r);
      }
      OneStep(Drained, f, t, a, r);
    }
    n :| Walk(Drained, f, t, a, n) == (EndOf(r.1), r.0);
    AloneWalks(s, t, a, n);
  }

  /** And a check cycle that moves alone as `Checked` says. */
  lemma CheckAlone(s: State, t: nat, a: Answers) returns (n: nat)
    requires t < |s.threads| && s.threads[t] == CheckRemote
    ensures var r, end := Checked(s.flags, a), Alone(s, t, a, n);
            end.flags == r.0 && end.threads == s.threads[t := EndOf(r.1)]
  {
    var f, r := s.flags, Checked(s.flags, a);
    assert EndsAs(CheckRemote, f, t, a, r) by {
      hide Walk, EndsAs;
      if !a.needed {
        Ended(Idle, f, t, a, r);
      } else {
        if a.busy {
          Ended(Idle, Deferred(f), t, a, r);
          OneStep(CheckDefer, f, t, a, r);
        } else {
          if MayBegin(f, false) {
            PullWalk(Begun(f), false, t, a);
          } else {
            Ended(Idle, f, t, a, r);
          }
          OneStep(CheckBegin, f, t, a, r);
        }
        OneStep(CheckBusy, f, t, a, r);
      }
      OneStep(CheckRemote, f, t, a, r);
    }
    n :| Walk(CheckRemote, f, t, a, n) == (EndOf(r.1), r.0);
    AloneWalks(s, t, a, n);
  }

  /** The loop of `_run` and the callers' entry: a thread that moves alone from
      outside looks for an update exactly when it is the checking thread and nothing
      is pending or applying; otherwise it goes on with a pending one. */
  lemma LoopAlone(s: State, t: nat, a: Answers) returns (n: nat)
    requires t < |s.threads| && s.threads[t] == Idle
    ensures n > 0
    ensures var r := if t == 0 && !s.flags.pending && !s.flags.applying then Checked(s.flags, a) else Notified(s.flags, a);
            var end := Alone(s, t, a, n);
            end.flags == r.0 && end.threads == s.threads[t := EndOf(r.1)]
  {
    var next := Step(s, Move(t, AnswerAt(s.threads[t], a), false));
    assert next.flags == s.flags;
    var rest: nat;
    if t == 0 && !s.flags.pending && !s.flags.applying {
      assert next.threads == s.threads[t := CheckRemote];
      rest := CheckAlone(next, t, a);
    } else {
      assert next.threads == s.threads[t := Drained];
      rest := NotifyAlone(next, t, a);
    }
    n := rest + 1;
    assert Alone(s, t, a, n) == Alone(next, t, a, rest);
  }

  /** Every attempt is in the record, also one that raises: a pull with its
      success, a stagger, a restart, and each answered busy check. */
  lemma AttemptsRecorded(s: State, m: Move)
    requires m.thread < |s.threads|
    ensures var pc, log := s.threads[m.thread], Step(s, m).log;
            && (pc.Pull? ==> log == s.log + [Pulls(m.thread, m.yes && !m.raises)])
            && (pc.Stagger? ==> log == s.log + [Slept(m.thread)])
            && (pc.Restart? ==> log == s.log + [Restarts(m.thread)])
            && (pc.NotifyBusy? || pc.CheckBusy? || pc.Delay? || pc.LastBusy? ==>
                  log == if m.raises then s.log else s.log + [Asked(m.thread, m.yes)])
            && (pc.Idle? || pc.Drained? || pc.Phase? || pc.Mark? || pc.Postpone? || pc.Failed? ==> log == s.log)
  {
  }

  /** A raise counts in the eight steps that call out and nowhere else: the thread is
      outside again, and the flags stay as they are, claimed or not. */
  lemma RaiseLeaves(s: State, m: Move)
    requires m.thread < |s.threads| && m.raises
    ensures var pc, t := s.threads[m.thread], Step(s, m);
            if pc.NotifyBusy? || pc.CheckRemote? || pc.CheckBusy? || pc.Pull? || pc.Delay? || pc.Stagger? || pc.LastBusy? || pc.Restart?
            then t.flags == s.flags && t.threads == s.threads[m.thread := Idle]
            else t == Step(s, m.(raises := false))
  {
  }

  // ----------------------------------------------------------------- the class

  class AutoUpdater {
    var updatePending: bool
    var updateApplying: bool
    var updateInstalled: bool
    var updateStaggerCompleted: bool

    constructor ()
      ensures Value() == RESET
    {
      updatePending := false;
      updateApplying := false;
      updateInstalled := false;
      updateStaggerCompleted := false;
    }

    function Value(): Flags
      reads this
    {
      Flags(updatePending, updateApplying, updateInstalled, updateStaggerCompleted)
    }

    method DrainRequested() returns (r: bool)
      ensures r == Drain(Value())
      ensures !r <==> !updatePending && !updateApplying
    {
      r := updatePending || updateApplying;
    }

    method DeferUpdate()
      modifies this
      ensures Value() == Deferred(old(Value()))
      ensures updatePending && !updateApplying
      ensures updateInstalled == old(updateInstalled) && updateStaggerCompleted == old(updateStaggerCompleted)
    {
      updateApplying := false;
      updatePending := true;
    }

    method ClearUpdate()
      modifies this
      ensures Value() == RESET
      ensures !updatePending && !updateApplying && !updateInstalled && !updateStaggerCompleted
    {
      updatePending := false;
      updateApplying := false;
      updateInstalled := false;
      updateStaggerCompleted := false;
    }

    method BeginUpdate(requirePending: bool) returns (claimed: bool)
      modifies this
      ensures claimed == MayBegin(old(Value()), requirePending)
      ensures claimed <==> !old(updateApplying) && (old(updatePending) || !requirePending)
      ensures Value() == if claimed then Begun(old(Value())) else old(Value())
      ensures if claimed then updateApplying && !updatePending
              else updateApplying == old(updateApplying) && updatePending == old(updatePending)
      ensures updateInstalled == old(updateInstalled) && updateStaggerCompleted == old(updateStaggerCompleted)
    {
      if updateApplying {
        return false;
      }
      if requirePending && !updatePending {
        return false;
      }
      updatePending := false;
      updateApplying := true;
      return true;
    }

    /** From the claim to the defer, clear or restart, with the caller's copies
        of the phase. */
    method InstallAndRestart(installed: bool, staggered: bool, a: Answers) returns (r: Outcome)
      modifies this
      ensures (Value(), r) == Claimed(old(Value()), installed, staggered, a)
      ensures r.InstallFailed? <==> !installed && !a.pulled
      ensures r.InstallFailed? ==> Value() == RESET
      ensures r.Waiting? ==> Value().pending && !Value().applying
      ensures r.Restarting? <==> (installed || (a.pulled && !a.busyAfterDelay)) && !a.busyAtLast
      ensures r.InstallFailed? || r.Waiting? || r.Restarting?
    {
      if !installed {
        if !a.pulled {
          ClearUpdate();
          return InstallFailed;
        }
        updateInstalled := true;
        if a.busyAfterDelay {
          DeferUpdate();
          return Waiting;
        }
      }
      if !staggered {
        updateStaggerCompleted := true;
      }
      if a.busyAtLast {
        DeferUpdate();
        return Waiting;
      }
      return Restarting;
    }

    /** `notify_not_busy`, when no other thread moves during the call. */
    method NotifyNotBusy(a: Answers) returns (r: Outcome)
      modifies this
      ensures (Value(), r) == Notified(old(Value()), a)
      ensures r.NothingPending? <==> !old(updatePending) && !old(updateApplying)
      ensures r.StillBusy? <==> (old(updatePending) || old(updateApplying)) && a.busy
      ensures r.LaneTaken? <==> old(Value()).applying && !a.busy
      ensures r.NothingPending? || r.StillBusy? || r.LaneTaken? ==> Value() == old(Value())
      ensures r.InstallFailed? <==> old(updatePending) && !old(updateApplying) && !a.busy && !old(Value()).installed && !a.pulled
      ensures r.InstallFailed? ==> Value() == RESET
      ensures r.Waiting? ==>
                Value() == Flags(true, false, true, old(Value()).staggered || old(Value()).installed || !a.busyAfterDelay)
      ensures r.Restarting? <==>
              (old(updatePending) && !old(updateApplying) && !a.busy && !a.busyAtLast
               && (old(Value()).installed || (a.pulled && !a.busyAfterDelay)))
      ensures r.Restarting? ==> Value() == Flags(false, true, true, true)
      ensures !r.NotNeeded?
    {
      var drain := DrainRequested();
      if !drain {
        return NothingPending;
      }
      if a.busy {
        return StillBusy;
      }
      var claimed := BeginUpdate(true);
      if !claimed {
        return LaneTaken;
      }
      r := InstallAndRestart(updateInstalled, updateStaggerCompleted, a);
    }

    /** `_check_and_update`, when no other thread moves during the call. */
    method CheckAndUpdate(a: Answers) returns (r: Outcome)
      modifies this
      ensures (Value(), r) == Checked(old(Value()), a)
      ensures r.NotNeeded? <==> !a.needed
      ensures r.LaneTaken? <==> a.needed && !a.busy && old(Value()).applying
      ensures r.NotNeeded? || r.LaneTaken? ==> Value() == old(Value())
      ensures r.InstallFailed? <==> a.needed && !a.busy && !old(Value()).applying && !a.pulled
      ensures r.InstallFailed? ==> Value() == RESET
      ensures r.Waiting? ==>
                Value() == if a.busy then Deferred(old(Value()))
                           else Flags(true, false, true, old(Value()).staggered || !a.busyAfterDelay)
      ensures r.Restarting? <==>
              (a.needed && !a.busy && !old(Value()).applying && a.pulled && !a.busyAfterDelay && !a.busyAtLast)
      ensures r.Restarting? ==> Value() == Flags(false, true, true, true)
      ensures !r.NothingPending? && !r.StillBusy?
    {
      if !a.needed {
        return NotNeeded;
      }
      if a.busy {
        DeferUpdate();
        return Waiting;
      }
      var claimed := BeginUpdate(false);
      if !claimed {
        return LaneTaken;
      }
      r := InstallAndRestart(false, false, a);
    }
  }
}
