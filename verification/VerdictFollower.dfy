/** The follower of the owner's verdict feed: which snapshots it accepts, and
    what its anti-replay floor guarantees over every run. */
module VerdictFollower {
  import opened ByteStrings
  import opened Utf8
  import opened Wrappers
  import opened VerdictRecords

  /** Lower-casing, address decoding and signature checking come from outside. */
  datatype World = World(
    lower: Lower,
    keyOf: Text -> Option<Bytes>,
    signed: (Text, Bytes, Bytes) -> bool)

  /** Hotkeys and validator permits by UID; the lists may differ in length. */
  datatype Metagraph = Metagraph(hotkeys: seq<Text>, permits: seq<bool>)

  datatype Offer = Offer(
    raw: Bytes, owner: Text, metagraph: Option<Metagraph>, closingEpoch: int, epochSeconds: real, now: int)

  datatype Reason = Encoding | NoPermit | BadSignature | WrongEpoch | Stale | Future | Older | Conflict

  datatype Answer = Accepted(snapshot: Snapshot) | Unavailable(reason: Reason)

  datatype Version = Version(epoch: int, generated: int)

  predicate Before(a: Version, b: Version) {
    a.epoch < b.epoch || (a.epoch == b.epoch && a.generated < b.generated)
  }

  function VersionOf(s: Snapshot): Version {
    Version(s.epochNumber, s.generatedAt)
  }

  /** `list.index` and the permit at that UID. */
  function IndexOf(keys: seq<Text>, key: Text): (r: Option<nat>)
    ensures r.Some? ==> r.value < |keys| && keys[r.value] == key && key !in keys[..r.value]
    ensures r.None? ==> key !in keys
  {
    if |keys| == 0 then None
    else if keys[0] == key then Some(0)
    else
      var i :- IndexOf(keys[1..], key);
      assert keys[..i + 1] == [keys[0]] + keys[1..][..i];
      Some(i + 1)
  }

  predicate HasPermit(owner: Text, metagraph: Option<Metagraph>) {
    metagraph.Some? &&
    var uid := IndexOf(metagraph.value.hotkeys, owner);
    uid.Some? && uid.value < |metagraph.value.permits| && metagraph.value.permits[uid.value]
  }

  /** `verify_verdict_snapshot_v1` */
  predicate Verified(w: World, s: Snapshot, owner: Text) {
    && Valid(s, w.lower, true)
    && w.keyOf(owner) == Some(s.auditorHotkey)
    && SigningMessage(s, w.lower).Some?
    && w.signed(owner, SigningMessage(s, w.lower).value, s.signature)
  }

  /** `int` of a float: towards zero. */
  function Trunc(x: real): int {
    if x >= 0.0 then x.Floor else -((-x).Floor)
  }

  function Oldest(o: Offer): int {
    var age := 2.0 * o.epochSeconds;
    Trunc(o.now as real - if age > 1.0 then age else 1.0)
  }

  datatype State = State(lastVersion: Option<Version>, lastRaw: Bytes, current: Option<(Snapshot, Bytes)>)

  const START := State(None, [], None)

  function Decide(w: World, s: State, o: Offer): Answer {
    match FromBytes(o.raw, w.lower)
    case None => Unavailable(Encoding)
    case Some(snapshot) =>
      if !HasPermit(o.owner, o.metagraph) then Unavailable(NoPermit)
      else if !Verified(w, snapshot, o.owner) then Unavailable(BadSignature)
      else if snapshot.epochNumber != o.closingEpoch
              && snapshot.epochNumber != (if o.closingEpoch > 1 then o.closingEpoch - 1 else 0) then Unavailable(WrongEpoch)
      else if snapshot.generatedAt < Oldest(o) then Unavailable(Stale)
      else if snapshot.generatedAt > o.now + 300 then Unavailable(Future)
      else if s.lastVersion.Some? && Before(VersionOf(snapshot), s.lastVersion.value) then Unavailable(Older)
      else if s.lastVersion == Some(VersionOf(snapshot)) && s.lastRaw != [] && o.raw != s.lastRaw then Unavailable(Conflict)
      else Accepted(snapshot)
  }

  function Offered(w: World, s: State, o: Offer): State {
    match Decide(w, s, o)
    case Unavailable(_) => s
    case Accepted(snapshot) => State(Some(VersionOf(snapshot)), o.raw, Some((snapshot, o.raw)))
  }

  function Cleared(s: State): State {
    s.(current := None)
  }

  class Follower {
    var lastVersion: Option<Version>
    var lastRaw: Bytes
    var current: Option<(Snapshot, Bytes)>

    constructor ()
      ensures Value() == START
    {
      lastVersion := None;
      lastRaw := [];
      current := None;
    }

    function Value(): State
      reads this
    {
      State(lastVersion, lastRaw, current)
    }

    /** `clear_current` */
    method ClearCurrent()
      modifies this`current
      ensures Value() == Cleared(old(Value()))
    {
      current := None;
    }

    /** `accept_raw` */
    method AcceptRaw(w: World, o: Offer) returns (r: Answer)
      modifies this
      ensures r == Decide(w, old(Value()), o)
      ensures Value() == Offered(w, old(Value()), o)
    {
      hide Verified, HasPermit, Oldest;
      var parsed := Parse(o.raw, w.lower);
      if parsed.None? {
        return Unavailable(Encoding);
      }
      var snapshot := parsed.value;
      if !HasPermit(o.owner, o.metagraph) {
        return Unavailable(NoPermit);
      }
      if !Verified(w, snapshot, o.owner) {
        return Unavailable(BadSignature);
      }
      var previous := o.closingEpoch - 1;
      if previous < 0 {
        previous := 0;
      }
      if snapshot.epochNumber != o.closingEpoch && snapshot.epochNumber != previous {
        return Unavailable(WrongEpoch);
      }
      if snapshot.generatedAt < Oldest(o) {
        return Unavailable(Stale);
      }
      if snapshot.generatedAt > o.now + 300 {
        return Unavailable(Future);
      }
      var version := VersionOf(snapshot);
      if lastVersion.Some? && Before(version, lastVersion.value) {
        return Unavailable(Older);
      }
      if lastVersion.Some? && version == lastVersion.value && lastRaw != [] && o.raw != lastRaw {
        return Unavailable(Conflict);
      }
      lastVersion := Some(version);
      lastRaw := o.raw;
      current := Some((snapshot, o.raw));
      return Accepted(snapshot);
    }
  }

  // --------------------------------------------------------------------- runs

  datatype Event = Receive(offer: Offer) | Clear

  function Step(w: World, s: State, e: Event): State {
    match e
    case Receive(o) => Offered(w, s, o)
    case Clear => Cleared(s)
  }

  function Run(w: World, events: seq<Event>): State {
    if |events| == 0 then START else Step(w, Run(w, events[..|events| - 1]), events[|events| - 1])
  }

  /** The byte strings one event makes accepted. */
  function Taken(w: World, s: State, e: Event): seq<Bytes> {
    if e.Receive? && Decide(w, s, e.offer).Accepted? then [e.offer.raw] else []
  }

  /** The byte strings accepted in a run, in order. */
  function History(w: World, events: seq<Event>): seq<Bytes> {
    if |events| == 0 then []
    else
      var before := events[..|events| - 1];
      History(w, before) + Taken(w, Run(w, before), events[|events| - 1])
  }

  function VersionIn(w: World, raw: Bytes): Version
    requires FromBytes(raw, w.lower).Some?
  {
    VersionOf(FromBytes(raw, w.lower).value)
  }

  /** b is a newer decision than a, or the very same bytes. */
  ghost predicate Follows(w: World, a: Bytes, b: Bytes) {
    && FromBytes(a, w.lower).Some? && FromBytes(b, w.lower).Some?
    && (Before(VersionIn(w, a), VersionIn(w, b)) || a == b)
  }

  ghost predicate Advancing(w: World, history: seq<Bytes>) {
    && (forall i :: 0 <= i < |history| ==> FromBytes(history[i], w.lower).Some?)
    && forall i, j :: 0 <= i < j < |history| ==> Follows(w, history[i], history[j])
  }

  /** The state against the history: the floor is the last accepted snapshot,
      and what is applied is that snapshot or nothing. */
  ghost predicate Floor(w: World, s: State, history: seq<Bytes>) {
    if |history| == 0 then s == START
    else
      var last := history[|history| - 1];
      && FromBytes(last, w.lower).Some?
      && s.lastRaw == last && s.lastVersion == Some(VersionIn(w, last))
      && (s.current == None || s.current == Some((FromBytes(last, w.lower).value, last)))
  }

  lemma AcceptedFollows(w: World, s: State, o: Offer, history: seq<Bytes>)
    requires Floor(w, s, history) && Decide(w, s, o).Accepted?
    ensures FromBytes(o.raw, w.lower) == Some(Decide(w, s, o).snapshot)
    ensures |history| > 0 ==> Follows(w, history[|history| - 1], o.raw)
  {
    hide FromBytes, Verified, HasPermit, Oldest;
    if |history| > 0 {
      assert s.lastRaw != [] by { assert FromBytes([], w.lower).None? by { TooShort(w.lower); } }
    }
  }

  lemma TooShort(lower: Lower)
    ensures FromBytes([], lower).None?
  {
  }

  lemma StepKeeps(w: World, s: State, e: Event, history: seq<Bytes>)
    requires Floor(w, s, history) && Advancing(w, history)
    ensures Floor(w, Step(w, s, e), history + Taken(w, s, e))
    ensures Advancing(w, history + Taken(w, s, e))
  {
    hide FromBytes, Decide;
    if e.Receive? && Decide(w, s, e.offer).Accepted? {
      AcceptedFollows(w, s, e.offer, history);
      var longer := history + [e.offer.raw];
      forall i, j | 0 <= i < j < |longer|
        ensures Follows(w, longer[i], longer[j])
      {
        if j < |history| {
          assert Follows(w, history[i], history[j]);
        } else if i < |history| - 1 {
          assert Follows(w, history[i], history[|history| - 1]);
        }
      }
    } else {
      assert history + [] == history;
    }
  }

  lemma {:induction false} RunKeeps(w: World, events: seq<Event>)
    ensures Floor(w, Run(w, events), History(w, events)) && Advancing(w, History(w, events))
    decreases |events|
  {
    if |events| > 0 {
      var before := events[..|events| - 1];
      RunKeeps(w, before);
      hide Floor, Advancing, Step, Taken;
      StepKeeps(w, Run(w, before), events[|events| - 1], History(w, before));
    }
  }

  /** In every run a later accepted snapshot has a later epoch, or the same epoch
      and a later time, or is the same bytes. */
  lemma NeverBack(w: World, events: seq<Event>, i: nat, j: nat)
    requires i < j < |History(w, events)|
    ensures var history := History(w, events);
            && FromBytes(history[i], w.lower).Some? && FromBytes(history[j], w.lower).Some?
            && var early, late := FromBytes(history[i], w.lower).value, FromBytes(history[j], w.lower).value;
               || early.epochNumber < late.epochNumber
               || (early.epochNumber == late.epochNumber && early.generatedAt < late.generatedAt)
               || history[i] == history[j]
  {
    hide FromBytes, History;
    RunKeeps(w, events);
    assert Follows(w, History(w, events)[i], History(w, events)[j]);
  }

  /** What is applied is the last accepted snapshot or nothing. */
  lemma CurrentIsLast(w: World, events: seq<Event>)
    ensures var s, history := Run(w, events), History(w, events);
            s.current.Some? ==>
              (&& |history| > 0 && s.current.value.1 == history[|history| - 1]
               && FromBytes(s.current.value.1, w.lower) == Some(s.current.value.0))
  {
    hide FromBytes, History, Run;
    RunKeeps(w, events);
  }

  /** Once a newer decision has been accepted, an older one is refused for good,
      whoever offers it and whenever. */
  lemma NoReplay(w: World, events: seq<Event>, early: nat, o: Offer)
    requires early < |History(w, events)| && o.raw == History(w, events)[early]
    requires History(w, events)[|History(w, events)| - 1] != o.raw
    ensures Decide(w, Run(w, events), o).Unavailable?
  {
    hide FromBytes, History, Run, Verified, HasPermit, Oldest;
    RunKeeps(w, events);
    var history := History(w, events);
    assert Follows(w, history[early], history[|history| - 1]);
    if Decide(w, Run(w, events), o).Accepted? {
      AcceptedFollows(w, Run(w, events), o, history);
    }
  }

  function WithoutClears(events: seq<Event>): seq<Event> {
    if |events| == 0 then []
    else WithoutClears(events[..|events| - 1])
         + if events[|events| - 1].Clear? then [] else [events[|events| - 1]]
  }

  /** Clearing the current snapshot leaves the floor: the same offers are
      accepted as if nothing had ever been cleared. */
  lemma {:induction false} ClearKeepsFloor(w: World, events: seq<Event>)
    ensures History(w, events) == History(w, WithoutClears(events))
    ensures Run(w, events).(current := None) == Run(w, WithoutClears(events)).(current := None)
    decreases |events|
  {
    if |events| > 0 {
      var before, e := events[..|events| - 1], events[|events| - 1];
      ClearKeepsFloor(w, before);
      var s, t := Run(w, before), Run(w, WithoutClears(before));
      if e.Receive? {
        CurrentIrrelevant(w, s, t, e.offer);
        var kept := WithoutClears(before) + [e];
        assert kept[..|kept| - 1] == WithoutClears(before);
      } else {
        assert WithoutClears(before) + [] == WithoutClears(before);
        assert History(w, before) + [] == History(w, before);
      }
    }
  }

  lemma CurrentIrrelevant(w: World, s: State, t: State, o: Offer)
    requires s.(current := None) == t.(current := None)
    ensures Decide(w, s, o) == Decide(w, t, o)
    ensures Offered(w, s, o).(current := None) == Offered(w, t, o).(current := None)
  {
    hide FromBytes, Verified, HasPermit, Oldest;
    assert s.lastVersion == t.lastVersion && s.lastRaw == t.lastRaw;
  }

  // ---------------------------------------------------------- acceptance, exactly

  /** The owner's first UID holds a validator permit. */
  ghost predicate Permitted(o: Offer) {
    && o.metagraph.Some?
    && var keys, permits := o.metagraph.value.hotkeys, o.metagraph.value.permits;
       exists uid :: 0 <= uid < |keys| && keys[uid] == o.owner && o.owner !in keys[..uid] && uid < |permits| && permits[uid]
  }

  lemma {:induction false} FirstIndex(keys: seq<Text>, key: Text, uid: nat)
    requires uid < |keys| && keys[uid] == key && key !in keys[..uid]
    ensures IndexOf(keys, key) == Some(uid)
    decreases uid
  {
    if uid > 0 {
      assert keys[..uid] == [keys[0]] + keys[1..][..uid - 1];
      FirstIndex(keys[1..], key, uid - 1);
    }
  }

  lemma PermitExact(o: Offer)
    ensures HasPermit(o.owner, o.metagraph) <==> Permitted(o)
  {
    if Permitted(o) {
      var keys, permits := o.metagraph.value.hotkeys, o.metagraph.value.permits;
      var uid :| 0 <= uid < |keys| && keys[uid] == o.owner && o.owner !in keys[..uid] && uid < |permits| && permits[uid];
      FirstIndex(keys, o.owner, uid);
    }
  }

  /** The owner's signature over exactly this snapshot. */
  ghost predicate SignedByOwner(w: World, snapshot: Snapshot, owner: Text) {
    && w.keyOf(owner) == Some(snapshot.auditorHotkey)
    && SigningMessage(snapshot, w.lower).Some?
    && w.signed(owner, SigningMessage(snapshot, w.lower).value, snapshot.signature)
  }

  /** At most the maximal age old, rounded towards zero, and at most five minutes
      ahead. */
  ghost predicate InTime(snapshot: Snapshot, o: Offer) {
    var oldest := o.now as real - if 2.0 * o.epochSeconds > 1.0 then 2.0 * o.epochSeconds else 1.0;
    && snapshot.generatedAt <= o.now + 300
    && if oldest >= 0.0 then snapshot.generatedAt as real > oldest - 1.0 else snapshot.generatedAt as real >= oldest
  }

  lemma OldestExact(snapshot: Snapshot, o: Offer)
    ensures InTime(snapshot, o) <==> Oldest(o) <= snapshot.generatedAt <= o.now + 300
  {
    var oldest := o.now as real - if 2.0 * o.epochSeconds > 1.0 then 2.0 * o.epochSeconds else 1.0;
    Rounded(oldest);
    Rounded(-oldest);
  }

  lemma Rounded(x: real)
    ensures x.Floor as real <= x < x.Floor as real + 1.0
  {
  }

  /** Above the floor: a later epoch, the same epoch and a later time, or the
      accepted bytes once more. */
  ghost predicate AboveFloor(s: State, snapshot: Snapshot, raw: Bytes) {
    s.lastVersion.Some? ==>
      var last := s.lastVersion.value;
      || snapshot.epochNumber > last.epoch
      || (snapshot.epochNumber == last.epoch && snapshot.generatedAt > last.generated)
      || (snapshot.epochNumber == last.epoch && snapshot.generatedAt == last.generated && (s.lastRaw == [] || raw == s.lastRaw))
  }

  /** Acceptance, exactly, on every state and every offer: the bytes are the
      snapshot's own encoding, the owner has a permit and signed it, it is of the
      closing epoch or the one before, in time, and above the floor. */
  lemma AcceptedExactly(w: World, s: State, o: Offer, snapshot: Snapshot)
    ensures Decide(w, s, o) == Accepted(snapshot) <==>
            && ToBytes(snapshot, w.lower) == Some(o.raw)
            && Permitted(o)
            && SignedByOwner(w, snapshot, o.owner)
            && (|| snapshot.epochNumber == o.closingEpoch
                || (snapshot.epochNumber == o.closingEpoch - 1 && o.closingEpoch >= 1)
                || (snapshot.epochNumber == 0 && o.closingEpoch < 1))
            && InTime(snapshot, o)
            && AboveFloor(s, snapshot, o.raw)
  {
    CodecExact(o.raw, snapshot, w.lower);
    PermitExact(o);
    OldestExact(snapshot, o);
    assert ToBytes(snapshot, w.lower).Some? ==> Valid(snapshot, w.lower, true);
    hide FromBytes, ToBytes, SigningMessage, HasPermit, Permitted, Valid, Oldest, InTime;
  }
}
