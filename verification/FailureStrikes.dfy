/** The hard-proof strike tracker: which failures are neutral, which carry a
    penalty, and what a save and reload keeps. */
module FailureStrikes {
  import opened Wrappers

  type Key = (string, int)

  datatype Strike = Strike(failures: set<nat>, clean: set<nat>, penalty: bool, endpoint: string)

  type Table = map<Key, Strike>

  datatype State = State(table: Table, failureThreshold: int, cleanThreshold: int)

  type Lower = string -> string

  /** `value.rstrip("/")` */
  function Stripped(s: string): string {
    if |s| > 0 && s[|s| - 1] == '/' then Stripped(s[..|s| - 1]) else s
  }

  function KeyOf(lower: Lower, k: Key): Key {
    (lower(k.0), k.1)
  }

  predicate ThresholdsOk(failures: int, clean: int) {
    1 <= failures <= 10 && 1 <= clean <= 100
  }

  // ---------------------------------------------------------------- operations

  datatype Op =
    | Configure(failures: int, clean: int)
    | Fail(key: Key, epoch: int, endpoint: string, onProbation: bool)
    | Pass(key: Key, epoch: int)
    | Clear(key: Key)
    | ClearAll
    | Migrate(address: string, index: int, endpoint: string)

  /** What an operation returns; Raised leaves everything as it was. */
  datatype Reply = Raised | Done | Answer(yes: bool) | Count(n: nat)

  function Tightened(s: Strike, threshold: int): Strike {
    s.(penalty := s.penalty || |s.failures| >= threshold)
  }

  function Configured(s: State, failures: int, clean: int): State {
    State(map k | k in s.table :: Tightened(s.table[k], failures), failures, clean)
  }

  /** The strike of a key after one more failed epoch. */
  function Failed(before: Option<Strike>, epoch: nat, endpoint: string, onProbation: bool, threshold: int): Strike {
    var was := if before.Some? then before.value else Strike({}, {}, false, "");
    var s := was.(endpoint := if endpoint != "" then Stripped(endpoint) else was.endpoint);
    if onProbation then s.(penalty := true, failures := s.failures + {epoch}, clean := {})
    else if epoch in s.failures then s
    else Tightened(s.(failures := s.failures + {epoch}, clean := {}), threshold)
  }

  function Find(t: Table, k: Key): Option<Strike> {
    if k in t then Some(t[k]) else None
  }

  predicate After(s: Strike, epoch: int) {
    forall f :: f in s.failures ==> epoch > f
  }

  /** The entry an endpoint's new index can take over. */
  predicate Candidate(t: Table, newKey: Key, endpoint: string, k: Key) {
    && k in t && k.0 == newKey.0 && k.1 != newKey.1
    && (t[k].endpoint == "" || endpoint == "" || t[k].endpoint == Stripped(endpoint))
  }

  function Candidates(t: Table, newKey: Key, endpoint: string): set<Key> {
    set k | k in t && Candidate(t, newKey, endpoint, k)
  }

  function Moved(t: Table, from: Key, to: Key, endpoint: string): Table
    requires from in t
  {
    (t - {from})[to := t[from].(endpoint := if endpoint != "" then Stripped(endpoint) else t[from].endpoint)]
  }

  ghost function TheOne(ks: set<Key>): Key
    requires |ks| == 1
  {
    assert ks != {};
    var k :| k in ks;
    k
  }

  /** The state and the reply after one operation. */
  ghost function Apply(lower: Lower, s: State, op: Op): (State, Reply) {
    match op
    case Configure(f, c) => if ThresholdsOk(f, c) then (Configured(s, f, c), Done) else (s, Raised)
    case Fail(key, epoch, endpoint, onProbation) =>
      if epoch < 0 then (s, Raised)
      else
        var k := KeyOf(lower, key);
        var strike := Failed(Find(s.table, k), epoch, endpoint, onProbation, s.failureThreshold);
        (s.(table := s.table[k := strike]), Answer(strike.penalty))
    case Pass(key, epoch) =>
      var k := KeyOf(lower, key);
      if k !in s.table || s.table[k].penalty || s.table[k].failures == {} then (s, Answer(false))
      else if epoch < 0 then (s, Raised)
      else if !After(s.table[k], epoch) then (s, Answer(false))
      else
        var clean := s.table[k].clean + {epoch as nat};
        if |clean| < s.cleanThreshold then (s.(table := s.table[k := s.table[k].(clean := clean)]), Answer(false))
        else (s.(table := s.table - {k}), Answer(true))
    case Clear(key) =>
      var k := KeyOf(lower, key);
      (s.(table := s.table - {k}), Answer(k in s.table))
    case ClearAll => (s.(table := map[]), Count(|s.table|))
    case Migrate(address, index, endpoint) =>
      var newKey := KeyOf(lower, (address, index));
      var candidates := Candidates(s.table, newKey, endpoint);
      if newKey in s.table || |candidates| != 1 then (s, Answer(false))
      else (s.(table := Moved(s.table, TheOne(candidates), newKey, endpoint)), Answer(true))
  }

  // ----------------------------------------------------------------- the class

  class HardProofStrikeTracker {
    const lower: Lower
    var states: Table
    var failureThreshold: int
    var cleanThreshold: int

    /** The thresholds of a tracker are in range from the start. */
    constructor (lower: Lower, failures: int := 1, clean: int := 3)
      requires ThresholdsOk(failures, clean)
      ensures this.lower == lower && Value() == State(map[], failures, clean)
    {
      this.lower := lower;
      states := map[];
      failureThreshold := failures;
      cleanThreshold := clean;
    }

    ghost function Value(): State
      reads this
    {
      State(states, failureThreshold, cleanThreshold)
    }

    method ConfigureThresholds(failures: int, clean: int) returns (r: Reply)
      modifies this
      ensures (Value(), r) == Apply(lower, old(Value()), Configure(failures, clean))
    {
      if !(1 <= failures <= 10) || !(1 <= clean <= 100) {
        return Raised;
      }
      failureThreshold := failures;
      cleanThreshold := clean;
      var todo := states.Keys;
      while todo != {}
        invariant todo <= states.Keys == old(states).Keys
        invariant failureThreshold == failures && cleanThreshold == clean
        invariant forall k :: k in todo ==> states[k] == old(states)[k]
        invariant forall k :: k in states && k !in todo ==> states[k] == Tightened(old(states)[k], failures)
        decreases |todo|
      {
        var k :| k in todo;
        if |states[k].failures| >= failures {
          states := states[k := states[k].(penalty := true)];
        }
        todo := todo - {k};
      }
      assert states == Configured(old(Value()), failures, clean).table;
      return Done;
    }

    method RecordFailure(key: Key, sourceEpoch: int, endpoint: string, onProbation: bool) returns (r: Reply)
      modifies this
      ensures (Value(), r) == Apply(lower, old(Value()), Fail(key, sourceEpoch, endpoint, onProbation))
    {
      if sourceEpoch < 0 {
        return Raised;
      }
      var epoch: nat := sourceEpoch;
      var canonical := KeyOf(lower, key);
      if canonical !in states {
        states := states[canonical := Strike({}, {}, false, "")];
      }
      var state := states[canonical];
      if endpoint != "" {
        state := state.(endpoint := Stripped(endpoint));
        states := states[canonical := state];
      }
      if onProbation {
        state := state.(penalty := true, failures := state.failures + {epoch}, clean := {});
        states := states[canonical := state];
        assert states == old(states)[canonical := state];
        return Answer(true);
      }
      if epoch in state.failures {
        assert states == old(states)[canonical := state];
        return Answer(state.penalty);
      }
      state := state.(failures := state.failures + {epoch}, clean := {});
      if |state.failures| >= failureThreshold {
        state := state.(penalty := true);
      }
      states := states[canonical := state];
      assert states == old(states)[canonical := state];
      return Answer(state.penalty);
    }

    method RecordCleanPass(key: Key, sourceEpoch: int) returns (r: Reply)
      modifies this
      ensures (Value(), r) == Apply(lower, old(Value()), Pass(key, sourceEpoch))
    {
      var canonical := KeyOf(lower, key);
      if canonical !in states || states[canonical].penalty || states[canonical].failures == {} {
        return Answer(false);
      }
      if sourceEpoch < 0 {
        return Raised;
      }
      if !After(states[canonical], sourceEpoch) {
        return Answer(false);
      }
      var clean := states[canonical].clean + {sourceEpoch as nat};
      states := states[canonical := states[canonical].(clean := clean)];
      if |clean| < cleanThreshold {
        return Answer(false);
      }
      states := states - {canonical};
      assert states == old(states) - {canonical};
      return Answer(true);
    }

    method PenaltyRequired(key: Key) returns (yes: bool)
      ensures yes <==> HasPenalty(states, KeyOf(lower, key))
    {
      yes := KeyOf(lower, key) in states && states[KeyOf(lower, key)].penalty;
    }

    method ClearOne(key: Key) returns (r: Reply)
      modifies this
      ensures (Value(), r) == Apply(lower, old(Value()), Clear(key))
    {
      var canonical := KeyOf(lower, key);
      var present := canonical in states;
      states := states - {canonical};
      return Answer(present);
    }

    method ClearEverything() returns (r: Reply)
      modifies this
      ensures (Value(), r) == Apply(lower, old(Value()), ClearAll)
    {
      var count := |states|;
      states := map[];
      return Count(count);
    }

    method MigrateIndex(address: string, index: int, endpoint: string) returns (r: Reply)
      modifies this
      ensures (Value(), r) == Apply(lower, old(Value()), Migrate(address, index, endpoint))
    {
      var newKey := KeyOf(lower, (address, index));
      if newKey in states {
        return Answer(false);
      }
      var candidates := Candidates(states, newKey, endpoint);
      if |candidates| != 1 {
        return Answer(false);
      }
      ghost var one := TheOne(candidates);
      assert candidates == {one} by { Singleton(candidates, one); }
      var oldKey :| oldKey in candidates;
      var state := states[oldKey];
      states := states - {oldKey};
      if endpoint != "" {
        state := state.(endpoint := Stripped(endpoint));
      }
      states := states[newKey := state];
      return Answer(true);
    }
  }

  lemma Singleton(ks: set<Key>, k: Key)
    requires |ks| == 1 && k in ks
    ensures ks == {k}
  {
    assert |ks - {k}| == 0;
  }

  // --------------------------------------------------------------------- runs

  ghost function Run(lower: Lower, s: State, ops: seq<Op>): State
    decreases |ops|
  {
    if |ops| == 0 then s else Run(lower, Apply(lower, s, ops[0]).0, ops[1..])
  }

  /** A strike has failures, every clean epoch comes after all of them, and
      enough failures mean a penalty. */
  ghost predicate StrikeOk(s: Strike, threshold: int) {
    && s.failures != {}
    && (forall c, f :: c in s.clean && f in s.failures ==> c > f)
    && (|s.failures| >= threshold ==> s.penalty)
  }

  ghost predicate Invariant(s: State) {
    && ThresholdsOk(s.failureThreshold, s.cleanThreshold)
    && forall k :: k in s.table ==> StrikeOk(s.table[k], s.failureThreshold)
  }

  lemma FailedOk(before: Option<Strike>, epoch: nat, endpoint: string, onProbation: bool, threshold: int)
    requires before.Some? ==> StrikeOk(before.value, threshold)
    ensures StrikeOk(Failed(before, epoch, endpoint, onProbation, threshold), threshold)
  {
    var s := Failed(before, epoch, endpoint, onProbation, threshold);
    assert epoch in s.failures;
  }

  lemma PassOk(s: Strike, epoch: nat, threshold: int)
    requires StrikeOk(s, threshold) && After(s, epoch)
    ensures StrikeOk(s.(clean := s.clean + {epoch}), threshold)
  {
  }

  lemma CandidateIn(t: Table, newKey: Key, endpoint: string)
    requires |Candidates(t, newKey, endpoint)| == 1
    ensures Candidate(t, newKey, endpoint, TheOne(Candidates(t, newKey, endpoint)))
  {
  }

  lemma StepKeeps(lower: Lower, s: State, op: Op)
    requires Invariant(s)
    ensures Invariant(Apply(lower, s, op).0)
  {
    hide StrikeOk;
    match op
    case Configure(f, c) =>
      forall k | k in s.table
        ensures ThresholdsOk(f, c) ==> StrikeOk(Tightened(s.table[k], f), f)
      {
        TightenedOk(s.table[k], s.failureThreshold, f);
      }
    case Fail(key, epoch, endpoint, onProbation) =>
      if epoch >= 0 {
        hide Failed;
        FailedOk(Find(s.table, KeyOf(lower, key)), epoch, endpoint, onProbation, s.failureThreshold);
      }
    case Pass(key, epoch) =>
      var k := KeyOf(lower, key);
      if k in s.table && epoch >= 0 && After(s.table[k], epoch) {
        PassOk(s.table[k], epoch, s.failureThreshold);
      }
    case Clear(_) =>
    case ClearAll =>
    case Migrate(address, index, endpoint) =>
      var newKey := KeyOf(lower, (address, index));
      if |Candidates(s.table, newKey, endpoint)| == 1 {
        CandidateIn(s.table, newKey, endpoint);
        MovedOk(s.table[TheOne(Candidates(s.table, newKey, endpoint))], s.failureThreshold, Stripped(endpoint));
      }
  }

  lemma TightenedOk(s: Strike, threshold: int, f: int)
    requires StrikeOk(s, threshold)
    ensures StrikeOk(Tightened(s, f), f)
  {
  }

  lemma MovedOk(s: Strike, threshold: int, endpoint: string)
    requires StrikeOk(s, threshold)
    ensures StrikeOk(s.(endpoint := endpoint), threshold) && s == s.(endpoint := s.endpoint)
  {
  }

  /** In every reachable tracker. */
  lemma {:induction false} RunKeeps(lower: Lower, s: State, ops: seq<Op>)
    requires Invariant(s)
    ensures Invariant(Run(lower, s, ops))
    decreases |ops|
  {
    if |ops| > 0 {
      StepKeeps(lower, s, ops[0]);
      RunKeeps(lower, Apply(lower, s, ops[0]).0, ops[1..]);
    }
  }

  lemma ReachableOk(lower: Lower, failures: int, clean: int, ops: seq<Op>)
    requires ThresholdsOk(failures, clean)
    ensures Invariant(Run(lower, State(map[], failures, clean), ops))
  {
    RunKeeps(lower, State(map[], failures, clean), ops);
  }

  // ------------------------------------------------------------------- penalty

  predicate HasPenalty(t: Table, k: Key) {
    k in t && t[k].penalty
  }

  /** What one operation can do to a penalty: an explicit clear removes it, an
      index migration moves it, nothing else touches it. */
  lemma PenaltyStep(lower: Lower, s: State, op: Op, k: Key)
    requires HasPenalty(s.table, k)
    ensures var t := Apply(lower, s, op).0.table;
            || HasPenalty(t, k)
            || op == ClearAll
            || (op.Clear? && KeyOf(lower, op.key) == k)
            || (op.Migrate? && lower(op.address) == k.0 && HasPenalty(t, (k.0, op.index)))
  {
    if op.Migrate? {
      var newKey := KeyOf(lower, (op.address, op.index));
      if |Candidates(s.table, newKey, op.endpoint)| == 1 {
        CandidateIn(s.table, newKey, op.endpoint);
      }
    }
  }

  /** An operation that clears nothing of an address. */
  predicate Spares(lower: Lower, op: Op, address: string) {
    !op.ClearAll? && (op.Clear? ==> lower(op.key.0) != address)
  }

  /** Over any run: as long as nothing of an address is cleared, a penalty of
      that address is still there at the end, under some index. */
  lemma {:induction false} PenaltyPersists(lower: Lower, s: State, ops: seq<Op>, k: Key) returns (end: Key)
    requires HasPenalty(s.table, k)
    requires forall i :: 0 <= i < |ops| ==> Spares(lower, ops[i], k.0)
    ensures end.0 == k.0 && HasPenalty(Run(lower, s, ops).table, end)
    decreases |ops|
  {
    hide Apply, HasPenalty;
    end := k;
    if |ops| > 0 {
      assert Spares(lower, ops[0], k.0);
      PenaltyStep(lower, s, ops[0], k);
      var t := Apply(lower, s, ops[0]).0;
      var next := if HasPenalty(t.table, k) then k else (k.0, ops[0].index);
      end := PenaltyPersists(lower, t, ops[1..], next);
    }
  }

  // ----------------------------------------------------- what one operation does

  /** r is s without the slashes at its end. */
  predicate StripsTo(s: string, r: string) {
    && |r| <= |s| && s[..|r|] == r && (forall i :: |r| <= i < |s| ==> s[i] == '/')
    && (|r| > 0 ==> r[|r| - 1] != '/')
  }

  lemma {:induction false} StrippedExact(s: string, r: string)
    ensures Stripped(s) == r <==> StripsTo(s, r)
    decreases |s|
  {
    assert s[..|s|] == s;
    if |s| > 0 && s[|s| - 1] == '/' {
      var front := s[..|s| - 1];
      StrippedExact(front, r);
      if StripsTo(front, r) {
        assert s[..|r|] == front[..|r|];
      }
      if StripsTo(s, r) {
        assert |r| < |s| && front[..|r|] == s[..|r|];
      }
    } else if StripsTo(s, r) {
      assert |r| == |s| && s[..|r|] == s;
    }
  }

  /** A key from which a strike could move: the same address, another index, and
      an endpoint that is unknown, not asked for, or the one offered up to slashes
      at its end. */
  ghost predicate Movable(lower: Lower, t: Table, address: string, index: int, endpoint: string, k: Key) {
    && k in t && k.0 == lower(address) && k.1 != index
    && (t[k].endpoint == "" || endpoint == "" || StripsTo(endpoint, t[k].endpoint))
  }

  lemma MovableExact(lower: Lower, t: Table, address: string, index: int, endpoint: string, k: Key)
    ensures k in Candidates(t, KeyOf(lower, (address, index)), endpoint) <==> Movable(lower, t, address, index, endpoint, k)
  {
    if k in t {
      StrippedExact(endpoint, t[k].endpoint);
    }
  }

  /** A migration answers true exactly when the new key is free and one key alone
      could move to it. */
  lemma MigrateExactly(lower: Lower, s: State, address: string, index: int, endpoint: string)
    ensures var (t, r) := Apply(lower, s, Migrate(address, index, endpoint));
            && r.Answer? && (!r.yes ==> t == s)
            && (r.yes <==>
                  && (lower(address), index) !in s.table
                  && (exists k :: Movable(lower, s.table, address, index, endpoint, k))
                  && (forall k, l ::
                        Movable(lower, s.table, address, index, endpoint, k) && Movable(lower, s.table, address, index, endpoint, l)
                        ==> k == l))
  {
    var newKey := KeyOf(lower, (address, index));
    var candidates := Candidates(s.table, newKey, endpoint);
    forall k
      ensures k in candidates <==> Movable(lower, s.table, address, index, endpoint, k)
    {
      MovableExact(lower, s.table, address, index, endpoint, k);
    }
    hide Candidates, Movable;
    OnlyOne(candidates);
  }

  lemma OnlyOne(ks: set<Key>)
    ensures |ks| == 1 <==> (exists k :: k in ks) && (forall k, l :: k in ks && l in ks ==> k == l)
  {
    if k :| k in ks {
      if forall l :: l in ks ==> l == k {
        assert ks == {k};
      }
      if |ks| == 1 {
        Singleton(ks, k);
      }
    }
  }

  /** Then that strike is under the new key, with its epochs and its penalty and
      with the offered endpoint if there is one, and every other strike is where it
      was. */
  lemma MigrateMoves(lower: Lower, s: State, address: string, index: int, endpoint: string, k: Key)
    requires Apply(lower, s, Migrate(address, index, endpoint)).1 == Answer(true)
    requires Movable(lower, s.table, address, index, endpoint, k)
    ensures var t, newKey := Apply(lower, s, Migrate(address, index, endpoint)).0, (lower(address), index);
            && newKey in t.table && newKey != k
            && t.table[newKey].failures == s.table[k].failures && t.table[newKey].clean == s.table[k].clean
            && t.table[newKey].penalty == s.table[k].penalty
            && (if endpoint == "" then t.table[newKey].endpoint == s.table[k].endpoint
                else StripsTo(endpoint, t.table[newKey].endpoint))
            && t.table - {newKey} == s.table - {k}
            && t.failureThreshold == s.failureThreshold && t.cleanThreshold == s.cleanThreshold
  {
    var newKey := KeyOf(lower, (address, index));
    var candidates := Candidates(s.table, newKey, endpoint);
    MovableExact(lower, s.table, address, index, endpoint, k);
    Singleton(candidates, k);
    assert TheOne(candidates) == k;
    StrippedExact(endpoint, Stripped(endpoint));
    assert newKey !in s.table;
  }

  /** A strike whose endpoint is known and is not the one offered stays under its
      key as it was. */
  lemma OtherEndpointStays(lower: Lower, s: State, address: string, index: int, endpoint: string, k: Key)
    requires k in s.table && s.table[k].endpoint != "" && endpoint != "" && !StripsTo(endpoint, s.table[k].endpoint)
    ensures var t := Apply(lower, s, Migrate(address, index, endpoint)).0; k in t.table && t.table[k] == s.table[k]
  {
    var candidates := Candidates(s.table, KeyOf(lower, (address, index)), endpoint);
    MovableExact(lower, s.table, address, index, endpoint, k);
    if |candidates| == 1 {
      CandidateIn(s.table, KeyOf(lower, (address, index)), endpoint);
    }
  }

  /** The strike of a key, or none yet. */
  ghost function Known(s: State, k: Key): Strike {
    if k in s.table then s.table[k] else Strike({}, {}, false, "")
  }

  /** A reported failure, in a reachable state: the epoch joins the failures, and a
      penalty is required exactly when there was one, the endpoint is on probation,
      or the failed epochs reach the threshold. Clean epochs are forgotten unless
      the report only repeats a known epoch. */
  lemma FailExactly(lower: Lower, s: State, key: Key, epoch: nat, endpoint: string, onProbation: bool)
    requires Invariant(s)
    ensures var k := (lower(key.0), key.1);
            var (t, r) := Apply(lower, s, Fail(key, epoch, endpoint, onProbation));
            var before := Known(s, k);
            && k in t.table && t.table - {k} == s.table - {k}
            && t.table[k].failures == before.failures + {epoch}
            && t.table[k].clean == (if epoch in before.failures && !onProbation then before.clean else {})
            && (t.table[k].penalty <==>
                  before.penalty || onProbation || |before.failures + {epoch}| >= s.failureThreshold)
            && r == Answer(t.table[k].penalty)
            && (if endpoint == "" then t.table[k].endpoint == before.endpoint else StripsTo(endpoint, t.table[k].endpoint))
            && t.failureThreshold == s.failureThreshold && t.cleanThreshold == s.cleanThreshold
  {
    var k := KeyOf(lower, key);
    StrippedExact(endpoint, Stripped(endpoint));
    hide StripsTo, Stripped;
    if k in s.table {
      assert StrikeOk(s.table[k], s.failureThreshold);
      assert epoch in s.table[k].failures ==> s.table[k].failures + {epoch} == s.table[k].failures;
    }
    hide Invariant, StrikeOk;
  }

  /** New thresholds are taken exactly when they are in range; then every strike
      that reaches the new one has a penalty, and nothing else changes. */
  lemma ConfigureExactly(lower: Lower, s: State, failures: int, clean: int)
    ensures var (t, r) := Apply(lower, s, Configure(failures, clean));
            if failures < 1 || failures > 10 || clean < 1 || clean > 100 then t == s && r == Raised
            else
              && r == Done && t.failureThreshold == failures && t.cleanThreshold == clean && t.table.Keys == s.table.Keys
              && forall k :: k in s.table ==>
                   t.table[k] == s.table[k].(penalty := s.table[k].penalty || |s.table[k].failures| >= failures)
  {
  }

  // ------------------------------------------------------ where a penalty is from

  /** Operation i reports a failed epoch of the address, and nothing forgets
      everything after it. */
  ghost predicate ReportAt(lower: Lower, ops: seq<Op>, i: int, address: string) {
    && 0 <= i < |ops| && ops[i].Fail? && lower(ops[i].key.0) == address && ops[i].epoch >= 0
    && forall j :: i < j < |ops| ==> ops[j] != ClearAll
  }

  ghost predicate Reported(lower: Lower, ops: seq<Op>, address: string, epoch: nat) {
    exists i :: ReportAt(lower, ops, i, address) && ops[i].epoch == epoch
  }

  ghost predicate FailedOnProbation(lower: Lower, ops: seq<Op>, address: string) {
    exists i :: ReportAt(lower, ops, i, address) && ops[i].onProbation
  }

  /** A failure threshold of the run: the first one, or a configured one. */
  ghost predicate InForce(first: int, ops: seq<Op>, threshold: int) {
    threshold == first || exists i :: 0 <= i < |ops| && ops[i].Configure? && ops[i].failures == threshold
  }

  /** As many failures as some threshold of the run asks for. */
  ghost predicate Reached(first: int, ops: seq<Op>, strike: Strike) {
    exists threshold: int :: InForce(first, ops, threshold) && |strike.failures| >= threshold
  }

  /** Every failed epoch was reported, and a penalty has a cause. */
  ghost predicate Backed(lower: Lower, first: int, ops: seq<Op>, address: string, strike: Strike) {
    && (forall epoch :: epoch in strike.failures ==> Reported(lower, ops, address, epoch))
    && (strike.penalty ==> FailedOnProbation(lower, ops, address) || Reached(first, ops, strike))
  }

  ghost predicate AllBacked(lower: Lower, first: int, ops: seq<Op>, s: State) {
    && InForce(first, ops, s.failureThreshold)
    && forall k :: k in s.table ==> Backed(lower, first, ops, k.0, s.table[k])
  }

  lemma ReportStays(lower: Lower, ops: seq<Op>, op: Op, i: int, address: string)
    requires ReportAt(lower, ops, i, address) && op != ClearAll
    ensures 0 <= i < |ops| && ops[i].Fail? && (ops + [op])[i] == ops[i] && ReportAt(lower, ops + [op], i, address)
  {
  }

  lemma ForceStays(first: int, ops: seq<Op>, op: Op, threshold: int)
    requires InForce(first, ops, threshold)
    ensures InForce(first, ops + [op], threshold)
  {
    if threshold != first {
      var i :| 0 <= i < |ops| && ops[i].Configure? && ops[i].failures == threshold;
      assert (ops + [op])[i] == ops[i];
    }
  }

  lemma ForceNow(first: int, ops: seq<Op>, op: Op)
    requires op.Configure?
    ensures InForce(first, ops + [op], op.failures)
  {
    assert (ops + [op])[|ops|] == op;
  }

  lemma ReportsStay(lower: Lower, ops: seq<Op>, op: Op, address: string)
    requires op != ClearAll
    ensures forall epoch :: Reported(lower, ops, address, epoch) ==> Reported(lower, ops + [op], address, epoch)
    ensures FailedOnProbation(lower, ops, address) ==> FailedOnProbation(lower, ops + [op], address)
  {
    forall i | ReportAt(lower, ops, i, address)
      ensures 0 <= i < |ops| && (ops + [op])[i] == ops[i] && ReportAt(lower, ops + [op], i, address)
    {
      ReportStays(lower, ops, op, i, address);
    }
  }

  lemma BackedStays(lower: Lower, first: int, ops: seq<Op>, op: Op, address: string, strike: Strike)
    requires Backed(lower, first, ops, address, strike) && op != ClearAll
    ensures Backed(lower, first, ops + [op], address, strike)
  {
    hide Reported, FailedOnProbation, InForce;
    ReportsStay(lower, ops, op, address);
    if strike.penalty && Reached(first, ops, strike) {
      var threshold: int :| InForce(first, ops, threshold) && |strike.failures| >= threshold;
      ForceStays(first, ops, op, threshold);
    }
  }

  lemma NewReport(lower: Lower, ops: seq<Op>, op: Op)
    requires op.Fail? && op.epoch >= 0
    ensures Reported(lower, ops + [op], lower(op.key.0), op.epoch)
    ensures op.onProbation ==> FailedOnProbation(lower, ops + [op], lower(op.key.0))
  {
    var now := ops + [op];
    assert ReportAt(lower, now, |ops|, lower(op.key.0)) && now[|ops|] == op;
  }

  /** The strike a failure leaves. */
  lemma FailureBacked(lower: Lower, first: int, ops: seq<Op>, op: Op, before: Option<Strike>, threshold: int)
    requires op.Fail? && op.epoch >= 0 && InForce(first, ops, threshold)
    requires before.Some? ==> Backed(lower, first, ops, lower(op.key.0), before.value)
    ensures Backed(lower, first, ops + [op], lower(op.key.0), Failed(before, op.epoch, op.endpoint, op.onProbation, threshold))
  {
    var address := lower(op.key.0);
    var was := if before.Some? then before.value else Strike({}, {}, false, "");
    NewReport(lower, ops, op);
    ForceStays(first, ops, op, threshold);
    hide Reported, FailedOnProbation, InForce;
    BackedStays(lower, first, ops, op, address, was);
    var after := Failed(before, op.epoch, op.endpoint, op.onProbation, threshold);
    assert after.failures <= was.failures + {op.epoch};
    CardinalityLess(was.failures, after.failures);
    assert |after.failures| >= |was.failures|;
  }

  lemma BackedStep(lower: Lower, first: int, ops: seq<Op>, s: State, op: Op)
    requires AllBacked(lower, first, ops, s)
    ensures AllBacked(lower, first, ops + [op], Apply(lower, s, op).0)
  {
    var t := Apply(lower, s, op).0;
    ForceStays(first, ops, op, s.failureThreshold);
    assert (ops + [op])[|ops|] == op;
    forall k | k in t.table
      ensures Backed(lower, first, ops + [op], k.0, t.table[k])
    {
      BackedKey(lower, first, ops, s, op, k);
    }
  }

  lemma BackedKey(lower: Lower, first: int, ops: seq<Op>, s: State, op: Op, k: Key)
    requires AllBacked(lower, first, ops, s) && k in Apply(lower, s, op).0.table
    ensures Backed(lower, first, ops + [op], k.0, Apply(lower, s, op).0.table[k])
  {
    hide Failed, Reported, FailedOnProbation, InForce;
    if k in s.table {
      assert Backed(lower, first, ops, k.0, s.table[k]);
      if op != ClearAll {
        BackedStays(lower, first, ops, op, k.0, s.table[k]);
      }
    }
    match op
    case Configure(f, c) =>
      ForceNow(first, ops, op);
    case Fail(key, epoch, endpoint, onProbation) =>
      if epoch >= 0 && k == KeyOf(lower, key) {
        FailureBacked(lower, first, ops, op, Find(s.table, k), s.failureThreshold);
      }
    case Migrate(address, index, endpoint) =>
      var newKey := KeyOf(lower, (address, index));
      if k == newKey && k !in s.table {
        CandidateIn(s.table, newKey, endpoint);
        var from := TheOne(Candidates(s.table, newKey, endpoint));
        BackedStays(lower, first, ops, op, from.0, s.table[from]);
      }
    case _ =>
  }

  lemma {:induction false} RunBacked(lower: Lower, first: int, done: seq<Op>, s: State, ops: seq<Op>)
    requires AllBacked(lower, first, done, s)
    ensures AllBacked(lower, first, done + ops, Run(lower, s, ops))
    decreases |ops|
  {
    hide Apply, AllBacked;
    if |ops| == 0 {
      assert done + ops == done;
    } else {
      BackedStep(lower, first, done, s, ops[0]);
      RunBacked(lower, first, done + [ops[0]], Apply(lower, s, ops[0]).0, ops[1..]);
      assert done + [ops[0]] + ops[1..] == done + ops;
    }
  }

  /** No penalty without a cause: in every run, each failed epoch a strike holds
      was reported for its address after the last time everything was forgotten,
      there is at least one, and a penalty means that one of those reports came on
      probation or that the epochs reach a threshold of the run. */
  lemma PenaltyEarned(lower: Lower, failures: int, clean: int, ops: seq<Op>, k: Key)
    requires ThresholdsOk(failures, clean)
    requires HasPenalty(Run(lower, State(map[], failures, clean), ops).table, k)
    ensures var strike := Run(lower, State(map[], failures, clean), ops).table[k];
            && strike.failures != {}
            && (forall epoch :: epoch in strike.failures ==> Reported(lower, ops, k.0, epoch))
            && (FailedOnProbation(lower, ops, k.0) || Reached(failures, ops, strike))
  {
    hide Apply, Reported, FailedOnProbation, Reached;
    ReachableOk(lower, failures, clean, ops);
    RunBacked(lower, failures, [], State(map[], failures, clean), ops);
    assert [] + ops == ops;
  }

  // ------------------------------------------------------------------ recovery

  function Passes(key: Key, epochs: seq<nat>): (ops: seq<Op>)
    ensures |ops| == |epochs|
  {
    seq(|epochs|, i requires 0 <= i < |epochs| => Pass(key, epochs[i]))
  }

  function Elements(epochs: seq<nat>): set<nat> {
    set e | e in epochs
  }

  /** A pending strike that clean epochs are being counted against. */
  predicate Counting(s: State, k: Key, epochs: seq<nat>) {
    && k in s.table && !s.table[k].penalty && s.table[k].failures != {}
    && (forall e :: e in epochs ==> After(s.table[k], e))
  }

  function Seen(s: State, k: Key, epochs: seq<nat>): set<nat>
    requires k in s.table
  {
    s.table[k].clean + Elements(epochs)
  }

  /** A pending strike clears exactly when enough distinct clean epochs after its
      failures have been seen: it stays while they are too few, and goes with
      the pass that completes them. Repeated epochs do not count twice. */
  lemma {:induction false} RecoveryExact(lower: Lower, s: State, key: Key, epochs: seq<nat>)
    requires Counting(s, KeyOf(lower, key), epochs) && |epochs| > 0
    requires |Seen(s, KeyOf(lower, key), epochs[..|epochs| - 1])| < s.cleanThreshold
    ensures var k, t := KeyOf(lower, key), Run(lower, s, Passes(key, epochs)).table;
            var seen := Seen(s, k, epochs);
            if |seen| < s.cleanThreshold then t == s.table[k := s.table[k].(clean := seen)]
            else t == s.table - {k}
    decreases |epochs|
  {
    hide KeyOf, Run, Apply, Passes, Elements, After;
    var k := KeyOf(lower, key);
    var first := [epochs[0]];
    RunPasses(lower, s, key, epochs);
    OnePass(lower, s, key, epochs);
    if |epochs| == 1 {
      assert epochs == first;
    } else {
      FirstOf(epochs);
      var before := Seen(s, k, epochs[..|epochs| - 1]);
      CardinalityLess(Seen(s, k, first), before);
      var t := Apply(lower, s, Pass(key, epochs[0])).0;
      SeenOn(s, t, k, epochs);
      RecoveryExact(lower, t, key, epochs[1..]);
      assert t.table - {k} == s.table - {k};
    }
  }

  lemma OnePass(lower: Lower, s: State, key: Key, epochs: seq<nat>)
    requires Counting(s, KeyOf(lower, key), epochs) && |epochs| > 0
    ensures var k, t := KeyOf(lower, key), Apply(lower, s, Pass(key, epochs[0])).0;
            var seen := Seen(s, k, [epochs[0]]);
            t == s.(table := if |seen| < s.cleanThreshold then s.table[k := s.table[k].(clean := seen)] else s.table - {k})
  {
    assert epochs[0] in epochs;
    assert Elements([epochs[0]]) == {epochs[0]};
  }

  /** After the first pass the rest is counted on from what it has seen. */
  lemma SeenOn(s: State, t: State, k: Key, epochs: seq<nat>)
    requires Counting(s, k, epochs) && |epochs| > 1
    requires t == s.(table := s.table[k := s.table[k].(clean := Seen(s, k, [epochs[0]]))])
    ensures Counting(t, k, epochs[1..]) && Seen(t, k, epochs[1..]) == Seen(s, k, epochs)
    ensures Seen(t, k, epochs[1..][..|epochs| - 2]) == Seen(s, k, epochs[..|epochs| - 1])
  {
    FirstOf(epochs);
    assert Elements([epochs[0]]) == {epochs[0]};
    assert forall e :: e in epochs[1..] ==> e in epochs;
  }

  lemma RunPasses(lower: Lower, s: State, key: Key, epochs: seq<nat>)
    requires |epochs| > 0
    ensures Run(lower, s, Passes(key, epochs))
         == Run(lower, Apply(lower, s, Pass(key, epochs[0])).0, Passes(key, epochs[1..]))
    ensures |epochs| == 1 ==> Run(lower, s, Passes(key, epochs)) == Apply(lower, s, Pass(key, epochs[0])).0
  {
    hide Apply;
    assert Passes(key, epochs)[1..] == Passes(key, epochs[1..]);
  }

  lemma FirstOf(epochs: seq<nat>)
    requires |epochs| > 1
    ensures Elements(epochs) == {epochs[0]} + Elements(epochs[1..])
    ensures Elements(epochs[..|epochs| - 1]) == {epochs[0]} + Elements(epochs[1..][..|epochs| - 2])
    ensures Elements([epochs[0]]) <= Elements(epochs[..|epochs| - 1])
  {
    var rest := epochs[1..];
    assert epochs == [epochs[0]] + rest;
    assert epochs[..|epochs| - 1] == [epochs[0]] + rest[..|rest| - 1];
  }

  lemma CardinalityLess(a: set<nat>, b: set<nat>)
    requires a <= b
    ensures |a| <= |b|
  {
    assert b == a + (b - a);
  }

  // ------------------------------------------------------------ save and reload

  datatype Item = Item(failures: seq<int>, clean: seq<int>, penalty: bool, endpoint: string)

  function Digits(n: nat): (s: string)
    ensures |s| > 0
  {
    var d := ['0' + (n % 10) as char];
    if n < 10 then d else Digits(n / 10) + d
  }

  /** `str` of an integer. */
  function Decimal(i: int): string {
    if i < 0 then "-" + Digits(-i) else Digits(i)
  }

  predicate IsDigit(c: char) {
    '0' <= c <= '9'
  }

  /** Digits, with single underscores allowed between them. */
  function ParseDigits(s: string): Option<nat> {
    if |s| == 0 || !IsDigit(s[|s| - 1]) then None
    else
      var d := (s[|s| - 1] - '0') as nat;
      if |s| == 1 then Some(d)
      else
        var high :- ParseDigits(if s[|s| - 2] == '_' then s[..|s| - 2] else s[..|s| - 1]);
        Some(high * 10 + d)
  }

  predicate IsSpace(c: char) {
    c == ' ' || 0x09 <= c as int <= 0x0D || 0x1C <= c as int <= 0x1F
  }

  function Trimmed(s: string): string {
    if |s| > 0 && IsSpace(s[0]) then Trimmed(s[1..])
    else if |s| > 0 && IsSpace(s[|s| - 1]) then Trimmed(s[..|s| - 1])
    else s
  }

  /** `int` of a text: white space around it, one sign, underscores between
      digits. */
  function ParseInt(s: string): Option<int> {
    ParseCore(Trimmed(s))
  }

  lemma {:induction false} DigitsRoundTrip(n: nat)
    ensures ParseDigits(Digits(n)) == Some(n)
    ensures forall i :: 0 <= i < |Digits(n)| ==> IsDigit(Digits(n)[i])
    decreases n
  {
    if n >= 10 {
      DigitsRoundTrip(n / 10);
      assert Digits(n)[..|Digits(n)| - 1] == Digits(n / 10);
    }
  }

  lemma DecimalRoundTrip(i: int)
    ensures ParseInt(Decimal(i)) == Some(i)
    ensures '|' !in Decimal(i)
  {
    var d := Digits(if i < 0 then -i else i);
    DigitsRoundTrip(if i < 0 then -i else i);
    assert IsDigit(d[0]) && IsDigit(d[|d| - 1]);
    assert Trimmed(Decimal(i)) == Decimal(i);
    if i < 0 {
      assert Decimal(i)[1..] == d;
    }
  }

  /** White space only. */
  predicate Blank(s: string) {
    forall i :: 0 <= i < |s| ==> s[i] == ' ' || 9 <= s[i] as int <= 13 || 28 <= s[i] as int <= 31
  }

  /** The digits of d as a number, underscores left out. */
  function DigitValue(d: string): (n: int)
    ensures n >= 0
  {
    if |d| == 0 then 0
    else
      var last := d[|d| - 1];
      if '0' <= last <= '9' then DigitValue(d[..|d| - 1]) * 10 + (last - '0') as int else DigitValue(d[..|d| - 1])
  }

  predicate Between(d: string, i: nat)
    requires 0 < i < |d| - 1
  {
    '0' <= d[i] <= '9' || (d[i] == '_' && '0' <= d[i - 1] <= '9' && '0' <= d[i + 1] <= '9')
  }

  /** Digits, with an underscore only between two digits. */
  predicate Numeral(d: string) {
    && |d| > 0 && '0' <= d[0] <= '9' && '0' <= d[|d| - 1] <= '9'
    && forall i :: 0 < i < |d| - 1 ==> Between(d, i)
  }

  lemma {:induction false} DigitsExactly(d: string)
    ensures ParseDigits(d).Some? <==> Numeral(d)
    ensures Numeral(d) ==> ParseDigits(d) == Some(DigitValue(d))
    decreases |d|
  {
    if |d| > 1 && IsDigit(d[|d| - 1]) {
      var n := |d|;
      if d[n - 2] == '_' {
        var front := d[..n - 2];
        DigitsExactly(front);
        assert d[..n - 1][..n - 2] == front;
        assert Numeral(d) <==> Numeral(front) by { NumeralGrows(d, n - 2); }
      } else {
        var front := d[..n - 1];
        DigitsExactly(front);
        assert Numeral(d) <==> Numeral(front) by { NumeralGrows(d, n - 1); }
      }
    } else if |d| == 1 {
      assert d[..0] == [];
    }
  }

  lemma NumeralGrows(d: string, n: nat)
    requires |d| > 1 && IsDigit(d[|d| - 1]) && (if d[|d| - 2] == '_' then n == |d| - 2 else n == |d| - 1)
    ensures Numeral(d) <==> Numeral(d[..n])
  {
    var front := d[..n];
    assert forall i :: 0 < i < n - 1 ==> (Between(front, i) <==> Between(d, i));
    if Numeral(front) {
      forall i | 0 < i < |d| - 1
        ensures Between(d, i)
      {
        assert i < n - 1 ==> Between(front, i);
      }
    }
    if Numeral(d) {
      assert |d| > 2 ==> Between(d, |d| - 2);
    }
  }

  lemma BlankGrows(c: char, a: string)
    requires IsSpace(c) && Blank(a)
    ensures Blank([c] + a) && Blank(a + [c])
  {
  }

  lemma Framed(c: char, a: string, t: string, b: string)
    ensures [c] + (a + t + b) == ([c] + a) + t + b
    ensures (a + t + b) + [c] == a + t + (b + [c])
  {
  }

  lemma {:induction false} TrimmedSplits(s: string) returns (a: string, b: string)
    ensures s == a + Trimmed(s) + b && Blank(a) && Blank(b)
    ensures |Trimmed(s)| > 0 ==> !IsSpace(Trimmed(s)[0]) && !IsSpace(Trimmed(s)[|Trimmed(s)| - 1])
    decreases |s|
  {
    if |s| > 0 && IsSpace(s[0]) {
      a, b := TrimmedAfter(s);
    } else if |s| > 0 && IsSpace(s[|s| - 1]) {
      a, b := TrimmedBefore(s);
    } else {
      a, b := "", "";
    }
  }

  lemma TrimmedAfter(s: string) returns (a: string, b: string)
    requires |s| > 0 && IsSpace(s[0])
    ensures s == a + Trimmed(s) + b && Blank(a) && Blank(b)
    ensures |Trimmed(s)| > 0 ==> !IsSpace(Trimmed(s)[0]) && !IsSpace(Trimmed(s)[|Trimmed(s)| - 1])
    decreases |s|, 0
  {
    hide Blank, IsSpace;
    assert Trimmed(s) == Trimmed(s[1..]);
    hide Trimmed;
    a, b := TrimmedSplits(s[1..]);
    assert s == [s[0]] + s[1..];
    BlankGrows(s[0], a);
    Framed(s[0], a, Trimmed(s), b);
    a := [s[0]] + a;
  }

  lemma TrimmedBefore(s: string) returns (a: string, b: string)
    requires |s| > 0 && !IsSpace(s[0]) && IsSpace(s[|s| - 1])
    ensures s == a + Trimmed(s) + b && Blank(a) && Blank(b)
    ensures |Trimmed(s)| > 0 ==> !IsSpace(Trimmed(s)[0]) && !IsSpace(Trimmed(s)[|Trimmed(s)| - 1])
    decreases |s|, 0
  {
    hide Blank, IsSpace;
    var last := s[|s| - 1];
    assert Trimmed(s) == Trimmed(s[..|s| - 1]);
    hide Trimmed;
    a, b := TrimmedSplits(s[..|s| - 1]);
    assert s == s[..|s| - 1] + [last];
    BlankGrows(last, b);
    Framed(last, a, Trimmed(s), b);
    b := b + [last];
  }

  lemma {:induction false} SplitTrims(a: string, t: string, b: string)
    requires Blank(a) && Blank(b) && |t| > 0 && !IsSpace(t[0]) && !IsSpace(t[|t| - 1])
    ensures Trimmed(a + t + b) == t
    decreases |a| + |b|
  {
    var s := a + t + b;
    if |a| > 0 {
      assert s[1..] == a[1..] + t + b;
      SplitTrims(a[1..], t, b);
    } else if |b| > 0 {
      assert s[0] == t[0] && s[..|s| - 1] == a + t + b[..|b| - 1];
      SplitTrims(a, t, b[..|b| - 1]);
    } else {
      assert s == t;
    }
  }

  function SignedValue(sign: string, d: string): int {
    if sign == "-" then -DigitValue(d) else DigitValue(d)
  }

  /** A sign or none, and a numeral. */
  predicate Signed(core: string, sign: string, d: string) {
    (sign == "" || sign == "+" || sign == "-") && Numeral(d) && core == sign + d
  }

  /** Text that reads as the number i: white space, a sign or none, a numeral, white
      space. */
  ghost predicate Spells(s: string, i: int) {
    exists a, core, b, sign, d ::
      s == a + core + b && Blank(a) && Blank(b) && Signed(core, sign, d) && i == SignedValue(sign, d)
  }

  /** `int`, without white space. */
  function ParseCore(t: string): Option<int> {
    if |t| > 0 && t[0] == '-' then
      match ParseDigits(t[1..])
      case None => None
      case Some(n) => Some(0 - n as int)
    else
      match ParseDigits(if |t| > 0 && t[0] == '+' then t[1..] else t)
      case None => None
      case Some(n) => Some(n as int)
  }

  lemma CoreSplits(t: string, i: int) returns (sign: string, d: string)
    requires ParseCore(t) == Some(i)
    ensures Signed(t, sign, d) && i == SignedValue(sign, d)
  {
    sign := if |t| > 0 && (t[0] == '-' || t[0] == '+') then [t[0]] else "";
    d := t[|sign|..];
    assert t == sign + d;
    DigitsExactly(d);
    assert sign == "" ==> d == t;
    hide ParseDigits, Numeral;
  }

  lemma CoreRead(t: string, sign: string, d: string)
    requires Signed(t, sign, d)
    ensures ParseCore(t) == Some(SignedValue(sign, d))
    ensures |t| > 0 && !IsSpace(t[0]) && !IsSpace(t[|t| - 1])
  {
    DigitsExactly(d);
    assert t[|sign|..] == d && t[|t| - 1] == d[|d| - 1];
    assert sign == "" ==> t == d;
    SignsShow(t[0]);
    SignsShow(t[|t| - 1]);
    hide ParseDigits;
  }

  lemma SignsShow(c: char)
    requires '0' <= c <= '9' || c == '+' || c == '-'
    ensures !IsSpace(c)
  {
    assert '0' as int == 48 && '+' as int == 43 && '-' as int == 45;
  }

  lemma ParseIntExactly(s: string, i: int)
    ensures ParseInt(s) == Some(i) <==> Spells(s, i)
  {
    if ParseInt(s) == Some(i) {
      var a, b := TrimmedSplits(s);
      hide Trimmed;
      var sign, d := CoreSplits(Trimmed(s), i);
      assert s == a + Trimmed(s) + b && Signed(Trimmed(s), sign, d);
    }
    if Spells(s, i) {
      hide Trimmed, Signed;
      var a, core, b, sign, d :| s == a + core + b && Blank(a) && Blank(b) && Signed(core, sign, d) && i == SignedValue(sign, d);
      CoreRead(core, sign, d);
      SplitTrims(a, core, b);
    }
  }

  /** `encoded.rsplit("|", 1)` */
  function RSplit(s: string): Option<(string, string)> {
    if |s| == 0 then None
    else if s[|s| - 1] == '|' then Some((s[..|s| - 1], ""))
    else
      var (left, right) :- RSplit(s[..|s| - 1]);
      Some((left, right + [s[|s| - 1]]))
  }

  function Encoded(k: Key): string {
    k.0 + "|" + Decimal(k.1)
  }

  lemma {:induction false} RSplitLast(left: string, right: string)
    requires '|' !in right
    ensures RSplit(left + "|" + right) == Some((left, right))
    decreases |right|
  {
    var s := left + "|" + right;
    if |right| == 0 {
      assert s[..|s| - 1] == left;
    } else {
      var most := right[..|right| - 1];
      assert s[..|s| - 1] == left + "|" + most;
      RSplitLast(left, most);
      assert most + [right[|right| - 1]] == right;
    }
  }

  predicate AllDistinct(s: seq<int>) {
    forall i, j :: 0 <= i < j < |s| ==> s[i] != s[j]
  }

  predicate NoneNegative(s: seq<int>) {
    forall i :: 0 <= i < |s| ==> s[i] >= 0
  }

  function Naturals(s: seq<int>): set<nat>
    requires NoneNegative(s)
  {
    set i | 0 <= i < |s| :: s[i] as nat
  }

  /** One saved entry read back, or an error. */
  function ReadItem(lower: Lower, encoded: string, item: Item, threshold: int): Option<(Key, Strike)> {
    var (address, rawIndex) :- RSplit(encoded);
    var index :- ParseInt(rawIndex);
    if address == "" || index < 0 || |item.failures| == 0 || !NoneNegative(item.failures) || !NoneNegative(item.clean)
       || !AllDistinct(item.failures) || !AllDistinct(item.clean) then None
    else
      var failures, clean := Naturals(item.failures), Naturals(item.clean);
      if failures * clean != {} then None
      else Some((KeyOf(lower, (address, index)), Tightened(Strike(failures, clean, item.penalty, item.endpoint), threshold)))
  }

  /** Each epoch a number that is not negative, none twice. */
  predicate Epochs(s: seq<int>) {
    (forall i :: 0 <= i < |s| ==> s[i] >= 0) && forall i, j :: 0 <= i < j < |s| ==> s[i] != s[j]
  }

  lemma {:induction false} RSplitExactly(s: string, left: string, right: string)
    ensures RSplit(s) == Some((left, right)) <==> s == left + "|" + right && '|' !in right
    decreases |s|
  {
    if s == left + "|" + right && '|' !in right {
      RSplitLast(left, right);
    }
    if RSplit(s) == Some((left, right)) {
      RSplitFound(s);
    }
  }

  lemma {:induction false} RSplitFound(s: string)
    requires RSplit(s).Some?
    ensures s == RSplit(s).value.0 + "|" + RSplit(s).value.1 && '|' !in RSplit(s).value.1
    decreases |s|
  {
    if s[|s| - 1] != '|' {
      RSplitFound(s[..|s| - 1]);
    }
    assert s == s[..|s| - 1] + [s[|s| - 1]];
  }

  /** The parts of a saved key: an address, the last bar, and the text of an index. */
  ghost predicate KeyParts(encoded: string, address: string, index: int) {
    exists text :: encoded == address + "|" + text && '|' !in text && Spells(text, index)
  }

  /** A saved entry with an address, an index that is not negative, at least one
      failed epoch, and epochs that are numbers without repetition or overlap; and
      the strike of these epochs, its penalty required also when the failures reach
      the threshold. */
  ghost predicate ItemFits(lower: Lower, encoded: string, item: Item, threshold: int, k: Key, strike: Strike,
                           address: string, index: int) {
    && KeyParts(encoded, address, index) && address != "" && index >= 0 && k == (lower(address), index)
    && |item.failures| > 0 && Epochs(item.failures) && Epochs(item.clean)
    && (forall e :: e in item.failures ==> e !in item.clean)
    && (forall e: nat :: e in strike.failures <==> e in item.failures)
    && (forall e: nat :: e in strike.clean <==> e in item.clean)
    && (strike.penalty <==> item.penalty || |strike.failures| >= threshold) && strike.endpoint == item.endpoint
  }

  lemma NaturalsExact(s: seq<int>)
    requires NoneNegative(s)
    ensures forall e: nat :: e in Naturals(s) <==> e in s
  {
  }

  lemma OverlapExact(a: seq<int>, b: seq<int>)
    requires NoneNegative(a) && NoneNegative(b)
    ensures Naturals(a) * Naturals(b) == {} <==> forall e :: e in a ==> e !in b
  {
    NaturalsExact(a);
    NaturalsExact(b);
    if Naturals(a) * Naturals(b) == {} {
      forall e | e in a
        ensures e !in b
      {
        var i :| 0 <= i < |a| && a[i] == e;
        assert e as nat !in Naturals(a) * Naturals(b);
      }
    }
  }

  /** A saved entry is read exactly when it fits, and then as the fitting strike. */
  lemma ReadItemExactly(lower: Lower, encoded: string, item: Item, threshold: int, k: Key, strike: Strike)
    ensures ReadItem(lower, encoded, item, threshold) == Some((k, strike))
       <==> exists address, index :: ItemFits(lower, encoded, item, threshold, k, strike, address, index)
  {
    if ReadItem(lower, encoded, item, threshold) == Some((k, strike)) {
      ReadFits(lower, encoded, item, threshold, k, strike);
    }
    if address, index :| ItemFits(lower, encoded, item, threshold, k, strike, address, index) {
      FitsRead(lower, encoded, item, threshold, k, strike, address, index);
    }
  }

  lemma ReadFits(lower: Lower, encoded: string, item: Item, threshold: int, k: Key, strike: Strike)
    requires ReadItem(lower, encoded, item, threshold) == Some((k, strike))
    ensures exists address, index :: ItemFits(lower, encoded, item, threshold, k, strike, address, index)
  {
    var (address, text) := RSplit(encoded).value;
    var index := ParseInt(text).value;
    RSplitExactly(encoded, address, text);
    ParseIntExactly(text, index);
    hide RSplit, ParseInt, Spells;
    NaturalsExact(item.failures);
    NaturalsExact(item.clean);
    OverlapExact(item.failures, item.clean);
    hide Naturals;
    assert ItemFits(lower, encoded, item, threshold, k, strike, address, index);
  }

  lemma FitsRead(lower: Lower, encoded: string, item: Item, threshold: int, k: Key, strike: Strike, address: string, index: int)
    requires ItemFits(lower, encoded, item, threshold, k, strike, address, index)
    ensures ReadItem(lower, encoded, item, threshold) == Some((k, strike))
  {
    var text :| encoded == address + "|" + text && '|' !in text && Spells(text, index);
    RSplitExactly(encoded, address, text);
    ParseIntExactly(text, index);
    hide RSplit, ParseInt, Spells;
    NaturalsExact(item.failures);
    NaturalsExact(item.clean);
    OverlapExact(item.failures, item.clean);
    assert strike.failures == Naturals(item.failures) && strike.clean == Naturals(item.clean);
    hide Naturals;
  }

  /** The entries of a saved form, read one after the other. */
  function Load(lower: Lower, items: seq<(string, Item)>, threshold: int): Option<Table> {
    if |items| == 0 then Some(map[])
    else
      var before :- Load(lower, items[..|items| - 1], threshold);
      var (k, strike) :- ReadItem(lower, items[|items| - 1].0, items[|items| - 1].1, threshold);
      Some(before[k := strike])
  }

  /** `from_json` after the text and its version: a new tracker with the loaded
      table. */
  method FromItems(lower: Lower, items: seq<(string, Item)>, failures: int, clean: int)
    returns (tracker: HardProofStrikeTracker?)
    ensures tracker == null <==> !ThresholdsOk(failures, clean) || Load(lower, items, failures).None?
    ensures tracker != null ==>
              && fresh(tracker) && tracker.lower == lower
              && tracker.Value() == State(Load(lower, items, failures).value, failures, clean)
  {
    hide ReadItem;
    if !ThresholdsOk(failures, clean) {
      return null;
    }
    var t := new HardProofStrikeTracker(lower, failures, clean);
    var i := 0;
    while i < |items|
      invariant 0 <= i <= |items| && fresh(t) && t.lower == lower
      invariant t.failureThreshold == failures && t.cleanThreshold == clean
      invariant Load(lower, items[..i], failures) == Some(t.states)
    {
      assert items[..i + 1][..i] == items[..i];
      var entry := ReadItem(lower, items[i].0, items[i].1, failures);
      if entry.None? {
        assert Load(lower, items[..i + 1], failures).None?;
        LoadFails(lower, items, i + 1, failures);
        return null;
      }
      t.states := t.states[entry.value.0 := entry.value.1];
      i := i + 1;
    }
    assert items[..|items|] == items;
    return t;
  }

  lemma {:induction false} LoadFails(lower: Lower, items: seq<(string, Item)>, n: nat, threshold: int)
    requires n <= |items| && Load(lower, items[..n], threshold).None?
    ensures Load(lower, items, threshold).None?
    decreases |items|
  {
    if n == |items| {
      assert items[..n] == items;
    } else {
      assert items[..|items| - 1][..n] == items[..n];
      LoadFails(lower, items[..|items| - 1], n, threshold);
    }
  }

  /** A list of the elements of a set, each once. */
  ghost predicate Lists(s: seq<int>, e: set<nat>) {
    AllDistinct(s) && NoneNegative(s) && Naturals(s) == e
  }

  ghost predicate SavesStrike(item: Item, s: Strike) {
    && Lists(item.failures, s.failures) && Lists(item.clean, s.clean)
    && item.penalty == s.penalty && item.endpoint == s.endpoint
  }

  /** What `to_json` writes: every key once, with its strike. */
  ghost predicate Saves(items: seq<(string, Item)>, ks: seq<Key>, t: Table) {
    && |items| == |ks|
    && (forall i, j :: 0 <= i < j < |ks| ==> ks[i] != ks[j])
    && (forall i :: 0 <= i < |ks| ==>
          ks[i] in t && items[i].0 == Encoded(ks[i]) && SavesStrike(items[i].1, t[ks[i]]))
    && (forall k :: k in t ==> k in ks)
  }

  lemma {:induction false} ListOf(e: set<nat>) returns (s: seq<int>)
    ensures Lists(s, e)
    decreases |e|
  {
    if e == {} {
      s := [];
    } else {
      var x: nat :| x in e;
      var rest := ListOf(e - {x});
      s := rest + [x];
      assert forall i :: 0 <= i < |rest| ==> rest[i] as nat in Naturals(rest);
      assert forall y: nat :: y in Naturals(rest) ==> y in Naturals(s) by {
        assert forall i :: 0 <= i < |rest| ==> s[i] == rest[i];
      }
      assert s[|rest|] == x;
    }
  }

  lemma {:induction false} OrderOf(keys: set<Key>) returns (ks: seq<Key>)
    ensures forall i, j :: 0 <= i < j < |ks| ==> ks[i] != ks[j]
    ensures forall k :: k in keys <==> k in ks
    decreases |keys|
  {
    if keys == {} {
      ks := [];
    } else {
      var k :| k in keys;
      ks := OrderOf(keys - {k});
      ks := ks + [k];
    }
  }

  /** Every table can be saved. */
  lemma SavedForm(t: Table) returns (items: seq<(string, Item)>, ks: seq<Key>)
    ensures Saves(items, ks, t)
  {
    hide Lists, Encoded;
    ks := OrderOf(t.Keys);
    items := [];
    while |items| < |ks|
      invariant |items| <= |ks|
      invariant forall i :: 0 <= i < |items| ==> items[i].0 == Encoded(ks[i]) && SavesStrike(items[i].1, t[ks[i]])
      decreases |ks| - |items|
    {
      var k := ks[|items|];
      var failures := ListOf(t[k].failures);
      var clean := ListOf(t[k].clean);
      items := items + [(Encoded(k), Item(failures, clean, t[k].penalty, t[k].endpoint))];
    }
  }

  /** Keys that can be read back. */
  predicate Readable(k: Key) {
    k.0 != "" && k.1 >= 0
  }

  lemma ReadSaved(lower: Lower, k: Key, item: Item, s: Strike, threshold: int)
    requires StrikeOk(s, threshold) && SavesStrike(item, s) && lower(k.0) == k.0
    ensures ReadItem(lower, Encoded(k), item, threshold) == if Readable(k) then Some((k, s)) else None
  {
    DecimalRoundTrip(k.1);
    RSplitLast(k.0, Decimal(k.1));
    assert |item.failures| > 0;
    hide AllDistinct, NoneNegative, Decimal, ParseInt, RSplit;
    if Readable(k) {
      assert s.failures * s.clean == {};
      assert Tightened(s, threshold) == s;
    }
  }

  lemma {:induction false} LoadPrefix(lower: Lower, items: seq<(string, Item)>, ks: seq<Key>, t: Table, threshold: int, n: nat)
    requires Saves(items, ks, t) && n <= |ks|
    requires forall k :: k in t ==> StrikeOk(t[k], threshold) && lower(k.0) == k.0
    ensures var r := Load(lower, items[..n], threshold);
            && (r.Some? <==> forall i :: 0 <= i < n ==> Readable(ks[i]))
            && (r.Some? ==> r.value.Keys == (set i | 0 <= i < n :: ks[i]))
            && (r.Some? ==> forall i :: 0 <= i < n ==> r.value[ks[i]] == t[ks[i]])
    decreases n
  {
    hide StrikeOk, SavesStrike, ReadItem, Encoded, Readable;
    if n > 0 {
      LoadPrefix(lower, items, ks, t, threshold, n - 1);
      assert items[..n][..n - 1] == items[..n - 1] && items[..n][n - 1] == items[n - 1];
      ReadSaved(lower, ks[n - 1], items[n - 1].1, t[ks[n - 1]], threshold);
    }
  }

  /** A save and reload with the same thresholds gives back the same tracker
      exactly when every key has an address and an index that is not negative;
      otherwise the reload raises. */
  lemma ReloadExact(lower: Lower, s: State, items: seq<(string, Item)>, ks: seq<Key>)
    requires Invariant(s) && Saves(items, ks, s.table)
    requires forall k :: k in s.table ==> lower(k.0) == k.0
    ensures Load(lower, items, s.failureThreshold)
         == if forall k :: k in s.table ==> Readable(k) then Some(s.table) else None
  {
    hide StrikeOk, Readable, SavesStrike, Encoded;
    LoadPrefix(lower, items, ks, s.table, s.failureThreshold, |ks|);
    assert items[..|ks|] == items;
    var r := Load(lower, items, s.failureThreshold);
    if r.Some? {
      assert r.value.Keys == s.table.Keys;
      assert r.value == s.table;
    }
  }

  /** The keys of every reachable tracker are lower-case, when lower-casing twice
      is the same as once. */
  lemma {:induction false} KeysLower(lower: Lower, s: State, ops: seq<Op>)
    requires forall x :: lower(lower(x)) == lower(x)
    requires forall k :: k in s.table ==> lower(k.0) == k.0
    ensures forall k :: k in Run(lower, s, ops).table ==> lower(k.0) == k.0
    decreases |ops|
  {
    if |ops| > 0 {
      var t := Apply(lower, s, ops[0]).0;
      forall k | k in t.table
        ensures lower(k.0) == k.0
      {
        KeyStep(lower, s, ops[0], k);
      }
      KeysLower(lower, t, ops[1..]);
    }
  }

  lemma KeyStep(lower: Lower, s: State, op: Op, k: Key)
    requires k in Apply(lower, s, op).0.table
    ensures k in s.table || exists x :: lower(x) == k.0
  {
    match op
    case Fail(key, _, _, _) => assert lower(key.0) == KeyOf(lower, key).0;
    case Migrate(address, _, _) => assert lower(address) == KeyOf(lower, (address, op.index)).0;
    case _ =>
  }

  /** So in every run of a new tracker, saving and reloading with the thresholds
      in force gives back the same tracker, or raises, by the keys alone. */
  lemma EveryRunReloads(lower: Lower, failures: int, clean: int, ops: seq<Op>, items: seq<(string, Item)>, ks: seq<Key>)
    requires ThresholdsOk(failures, clean) && forall x :: lower(lower(x)) == lower(x)
    requires Saves(items, ks, Run(lower, State(map[], failures, clean), ops).table)
    ensures var s := Run(lower, State(map[], failures, clean), ops);
            Load(lower, items, s.failureThreshold)
            == if forall k :: k in s.table ==> Readable(k) then Some(s.table) else None
  {
    hide Load, Saves, Invariant, Run;
    ReachableOk(lower, failures, clean, ops);
    KeysLower(lower, State(map[], failures, clean), ops);
    ReloadExact(lower, Run(lower, State(map[], failures, clean), ops), items, ks);
  }
}
