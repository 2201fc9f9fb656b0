/** The in-memory sliding-window rate limiter. Clock readings are reals. */
module RateLimit {
  import opened Sorting

  const CLEANUP_INTERVAL := 60.0

  type Times = seq<real>

  /** The buckets and the time of the last cleanup. */
  datatype State = State(buckets: map<string, Times>, lastCleanup: real)

  datatype Outcome =
    | Allowed(remaining: int)
    | Denied(retryAfter: int)
    | IndexError // an empty bucket is full when the limit is not positive

  datatype Call = Call(now: real, key: string, limit: int, window: int)

  // ---------------------------------------------------------------- one check

  predicate Stale(ts: Times, cutoff: real) {
    |ts| == 0 || ts[|ts| - 1] < cutoff
  }

  function Cleaned(buckets: map<string, Times>, now: real, window: int): map<string, Times> {
    map k | k in buckets && !Stale(buckets[k], now - window as real) :: buckets[k]
  }

  /** The entries after the cutoff, in order. */
  function Prune(ts: Times, cutoff: real): Times {
    if |ts| == 0 then []
    else if ts[0] > cutoff then [ts[0]] + Prune(ts[1..], cutoff)
    else Prune(ts[1..], cutoff)
  }

  /** The bucket a check looks at, after cleanup and pruning. */
  function Live(s: State, c: Call): Times {
    var buckets := if c.now - s.lastCleanup > CLEANUP_INTERVAL then Cleaned(s.buckets, c.now, c.window) else s.buckets;
    if c.key in buckets then Prune(buckets[c.key], c.now - c.window as real) else []
  }

  function Result(s: State, c: Call): Outcome {
    var live := Live(s, c);
    if |live| >= c.limit then
      if |live| == 0 then IndexError
      else
        var retry := (live[0] - (c.now - c.window as real)).Floor + 1;
        Denied(if retry > 1 then retry else 1)
    else Allowed(c.limit - |live| - 1)
  }

  function Step(s: State, c: Call): State {
    var due := c.now - s.lastCleanup > CLEANUP_INTERVAL;
    var buckets := if due then Cleaned(s.buckets, c.now, c.window) else s.buckets;
    var live := Live(s, c);
    State(buckets[c.key := if |live| >= c.limit then live else live + [c.now]],
          if due then c.now else s.lastCleanup)
  }

  class RateLimiter {
    var buckets: map<string, Times>
    var lastCleanup: real

    constructor (now: real)
      ensures Value() == State(map[], now)
    {
      buckets := map[];
      lastCleanup := now;
    }

    function Value(): State
      reads this
    {
      State(buckets, lastCleanup)
    }

    /** `_cleanup` */
    method Cleanup(now: real, window: int)
      modifies this`buckets
      ensures buckets == Cleaned(old(buckets), now, window)
      ensures forall k :: k in buckets <==>
                k in old(buckets) && |old(buckets)[k]| > 0 && old(buckets)[k][|old(buckets)[k]| - 1] >= now - window as real
      ensures forall k :: k in buckets ==> buckets[k] == old(buckets)[k]
    {
      var cutoff := now - window as real;
      var stale := set k | k in buckets && Stale(buckets[k], cutoff);
      ghost var all := stale;
      while stale != {}
        invariant stale <= all
        invariant buckets == map k | k in old(buckets) && (k !in all || k in stale) :: old(buckets)[k]
        decreases |stale|
      {
        var k :| k in stale;
        stale := stale - {k};
        buckets := buckets - {k};
      }
    }

    /** `_check_memory` under its lock; the source raises on an empty full
        bucket. */
    method Check(now: real, key: string, limit: int, window: int) returns (r: Outcome)
      modifies this
      ensures Value() == Step(old(Value()), Call(now, key, limit, window))
      ensures r == Result(old(Value()), Call(now, key, limit, window))
    {
      if now - lastCleanup > CLEANUP_INTERVAL {
        Cleanup(now, window);
        lastCleanup := now;
      }
      var timestamps := if key in buckets then buckets[key] else [];
      var cutoff := now - window as real;
      timestamps := Prune(timestamps, cutoff);
      buckets := buckets[key := timestamps];
      if |timestamps| >= limit {
        if |timestamps| == 0 {
          return IndexError;
        }
        var retryAfter := (timestamps[0] - cutoff).Floor + 1;
        return Denied(if retryAfter > 1 then retryAfter else 1);
      }
      buckets := buckets[key := timestamps + [now]];
      r := Allowed(limit - (|timestamps| + 1));
    }
  }

  // --------------------------------------------------------------------- runs

  function Run(start: real, calls: seq<Call>): State {
    if |calls| == 0 then State(map[], start)
    else Step(Run(start, calls[..|calls| - 1]), calls[|calls| - 1])
  }

  /** The times at which requests of a key were allowed. */
  function History(start: real, calls: seq<Call>, key: string): Times {
    if |calls| == 0 then []
    else
      var before, c := calls[..|calls| - 1], calls[|calls| - 1];
      History(start, before, key) + Grown(Run(start, before), c, key)
  }

  ghost predicate InOrder(ts: Times) {
    forall i, j :: 0 <= i < j < |ts| ==> ts[i] <= ts[j]
  }

  /** The clock does not go back. */
  ghost predicate Clocked(start: real, calls: seq<Call>) {
    && (forall i :: 0 <= i < |calls| ==> start <= calls[i].now)
    && (forall i, j :: 0 <= i < j < |calls| ==> calls[i].now <= calls[j].now)
  }

  /** One limit and window for the key; no window below `least` for anyone. */
  ghost predicate Configured(calls: seq<Call>, key: string, limit: int, window: int, least: int) {
    forall i :: 0 <= i < |calls| ==>
      && calls[i].window >= least
      && (calls[i].key == key ==> calls[i].limit == limit && calls[i].window == window)
  }

  /** Entries that are `limit` apart are at least a window apart. */
  ghost predicate Sparse(ts: Times, limit: nat, window: int) {
    forall i :: 0 <= i && i + limit < |ts| ==> ts[i] <= ts[i + limit] - window as real
  }

  /** The bucket is the end of the history, and what is missing has expired. */
  ghost predicate Tracks(bucket: Times, history: Times, expiry: real) {
    && |bucket| <= |history|
    && bucket == history[|history| - |bucket|..]
    && forall i :: 0 <= i < |history| - |bucket| ==> history[i] <= expiry
  }

  function Bucket(s: State, key: string): Times {
    if key in s.buckets then s.buckets[key] else []
  }

  lemma {:induction false} PruneKeepsAll(ts: Times, cutoff: real)
    requires forall i :: 0 <= i < |ts| ==> ts[i] > cutoff
    ensures Prune(ts, cutoff) == ts
    decreases |ts|
  {
    if |ts| > 0 {
      PruneKeepsAll(ts[1..], cutoff);
    }
  }

  lemma {:induction false} PruneShorter(ts: Times, cutoff: real)
    ensures |Prune(ts, cutoff)| <= |ts|
    decreases |ts|
  {
    if |ts| > 0 {
      PruneShorter(ts[1..], cutoff);
    }
  }

  /** Pruning a sorted list drops a prefix, and the prefix has expired. */
  lemma {:induction false} PruneSorted(ts: Times, cutoff: real) returns (dropped: nat)
    requires InOrder(ts)
    ensures dropped <= |ts| && Prune(ts, cutoff) == ts[dropped..]
    ensures forall i :: 0 <= i < dropped ==> ts[i] <= cutoff
    ensures forall i :: dropped <= i < |ts| ==> ts[i] > cutoff
    decreases |ts|
  {
    if |ts| == 0 || ts[0] > cutoff {
      dropped := 0;
      PruneKeepsAll(ts, cutoff);
    } else {
      var rest := PruneSorted(ts[1..], cutoff);
      dropped := rest + 1;
      assert ts[1..][rest..] == ts[dropped..];
      forall i | 0 <= i < dropped
        ensures ts[i] <= cutoff
      {
        assert i > 0 ==> ts[i] == ts[1..][i - 1];
      }
      forall i | dropped <= i < |ts|
        ensures ts[i] > cutoff
      {
        assert ts[i] == ts[1..][i - 1];
      }
    }
  }

  /** Pruning keeps a bucket the end of the history. */
  lemma PruneTracks(bucket: Times, history: Times, expiry: real, cutoff: real)
    requires InOrder(history) && Tracks(bucket, history, expiry) && expiry <= cutoff
    ensures Tracks(Prune(bucket, cutoff), history, cutoff)
    ensures |Prune(bucket, cutoff)| <= |bucket|
    ensures forall i :: 0 <= i < |Prune(bucket, cutoff)| ==> Prune(bucket, cutoff)[i] > cutoff
  {
    hide Prune;
    var dropped := PruneSorted(bucket, cutoff);
    var start := |history| - |bucket|;
    assert bucket[dropped..] == history[start + dropped..];
    forall i | 0 <= i < start + dropped
      ensures history[i] <= cutoff
    {
      assert i >= start ==> history[i] == bucket[i - start];
    }
  }

  /** Cleanup and pruning keep the bucket the end of the history. */
  lemma LiveTracks(s: State, c: Call, history: Times, expiry: real)
    requires InOrder(history) && Tracks(Bucket(s, c.key), history, expiry)
    requires expiry <= c.now - c.window as real
    ensures Tracks(Live(s, c), history, c.now - c.window as real)
    ensures |Live(s, c)| <= |Bucket(s, c.key)|
    ensures forall i :: 0 <= i < |Live(s, c)| ==> Live(s, c)[i] > c.now - c.window as real
  {
    LiveIsPruned(s, c);
    PruneTracks(Bucket(s, c.key), history, expiry, c.now - c.window as real);
  }

  /** The bucket a check looks at is the pruned bucket, cleanup or not. */
  lemma LiveIsPruned(s: State, c: Call)
    requires InOrder(Bucket(s, c.key))
    ensures Live(s, c) == Prune(Bucket(s, c.key), c.now - c.window as real)
  {
    hide Prune;
    var bucket, cutoff := Bucket(s, c.key), c.now - c.window as real;
    if Stale(bucket, cutoff) {
      var dropped := PruneSorted(bucket, cutoff);
      assert dropped == |bucket|;
    }
  }

  /** A call of another key with no smaller window drops only expired entries
      of this key. */
  lemma OthersTrack(s: State, c: Call, key: string, history: Times, expiry: real, window: int)
    requires c.key != key && c.window >= window
    requires InOrder(history) && Tracks(Bucket(s, key), history, expiry)
    requires expiry <= c.now - window as real
    ensures Tracks(Bucket(Step(s, c), key), history, c.now - window as real)
    ensures |Bucket(Step(s, c), key)| <= |Bucket(s, key)|
  {
    var bucket := Bucket(s, key);
    if Bucket(Step(s, c), key) != bucket {
      forall i | 0 <= i < |history|
        ensures history[i] <= c.now - window as real
      {
        assert history[|history| - 1] == bucket[|bucket| - 1];
      }
    }
  }

  /** What every reachable state keeps for a key. */
  ghost predicate Keeps(bucket: Times, history: Times, now: real, limit: nat, window: int) {
    && InOrder(history) && (forall i :: 0 <= i < |history| ==> history[i] <= now)
    && Tracks(bucket, history, now - window as real)
    && |bucket| <= limit
    && Sparse(history, limit, window)
  }

  /** Allowing one more request when fewer than the limit are live. */
  lemma Extends(live: Times, history: Times, now: real, limit: nat, window: int)
    requires Keeps(live, history, now, limit, window) && |live| < limit
    ensures Keeps(live + [now], history + [now], now, limit, window)
  {
    var longer := history + [now];
    forall i | 0 <= i && i + limit < |longer|
      ensures longer[i] <= longer[i + limit] - window as real
    {
      if i + limit < |history| {
        assert history[i] <= history[i + limit] - window as real;
      }
    }
    assert longer[|longer| - |live| - 1..] == history[|history| - |live|..] + [now];
  }

  /** The requests of one call that join the history of a key. */
  function Grown(s: State, c: Call, key: string): Times {
    if c.key == key && Result(s, c).Allowed? then [c.now] else []
  }

  lemma KeyStep(s: State, c: Call, history: Times, last: real)
    requires c.limit >= 1 && last <= c.now
    requires Keeps(Bucket(s, c.key), history, last, c.limit, c.window)
    ensures Keeps(Bucket(Step(s, c), c.key), history + Grown(s, c, c.key), c.now, c.limit, c.window)
  {
    LiveTracks(s, c, history, last - c.window as real);
    var live := Live(s, c);
    assert Keeps(live, history, c.now, c.limit, c.window);
    if |live| < c.limit {
      hide Live, Keeps;
      Extends(live, history, c.now, c.limit, c.window);
      assert Bucket(Step(s, c), c.key) == live + [c.now];
    } else {
      assert Bucket(Step(s, c), c.key) == live && history + [] == history;
    }
  }

  lemma OtherStep(s: State, c: Call, key: string, history: Times, last: real, limit: nat, window: int)
    requires c.key != key && c.window >= window && last <= c.now
    requires Keeps(Bucket(s, key), history, last, limit, window)
    ensures Keeps(Bucket(Step(s, c), key), history + Grown(s, c, key), c.now, limit, window)
  {
    OthersTrack(s, c, key, history, last - window as real, window);
    assert history + [] == history;
  }

  function Clock(start: real, calls: seq<Call>): real {
    if |calls| == 0 then start else calls[|calls| - 1].now
  }

  lemma {:induction false} RunKeeps(start: real, calls: seq<Call>, key: string, limit: nat, window: int)
    requires Clocked(start, calls) && limit >= 1 && window >= 1
    requires Configured(calls, key, limit, window, window)
    ensures Keeps(Bucket(Run(start, calls), key), History(start, calls, key), Clock(start, calls), limit, window)
    decreases |calls|
  {
    if |calls| > 0 {
      var before, c := calls[..|calls| - 1], calls[|calls| - 1];
      RunKeeps(start, before, key, limit, window);
      var s, history, last := Run(start, before), History(start, before, key), Clock(start, before);
      assert last <= c.now;
      assert History(start, calls, key) == history + Grown(s, c, key);
      hide Keeps, Run, History, Step;
      if c.key == key {
        KeyStep(s, c, history, last);
      } else {
        OtherStep(s, c, key, history, last, limit, window);
      }
      assert Run(start, calls) == Step(s, c) by { RunLast(start, calls); }
    }
  }

  lemma RunLast(start: real, calls: seq<Call>)
    requires |calls| > 0
    ensures Run(start, calls) == Step(Run(start, calls[..|calls| - 1]), calls[|calls| - 1])
  {
  }

  // -------------------------------------------------------------------- bound

  /** The indices of entries in the interval (from, to]. */
  ghost function InWindow(ts: Times, from: real, to: real): set<nat> {
    set i: nat | i < |ts| && from < ts[i] <= to
  }

  lemma {:induction false} IntervalSize(s: set<nat>, lo: nat, n: nat)
    requires forall x :: x in s ==> lo <= x < lo + n
    ensures |s| <= n
    decreases n
  {
    if |s| > 0 {
      var x :| x in s;
      IntervalSize(s - {lo + n - 1}, lo, n - 1);
      assert s <= (s - {lo + n - 1}) + {lo + n - 1};
    }
  }

  /** In a sparse list the entries of one interval are fewer than limit + 1
      places apart. */
  lemma Near(ts: Times, limit: nat, window: int, to: real, lo: nat, x: nat)
    requires InOrder(ts) && Sparse(ts, limit, window) && limit >= 1
    requires lo in InWindow(ts, to - window as real, to) && x in InWindow(ts, to - window as real, to)
    ensures x < lo + limit
  {
    if lo + limit < |ts| {
      assert ts[lo + limit] >= ts[lo] + window as real > to;
    }
  }

  lemma SparseBound(ts: Times, limit: nat, window: int, to: real)
    requires InOrder(ts) && Sparse(ts, limit, window) && limit >= 1
    ensures |InWindow(ts, to - window as real, to)| <= limit
  {
    var s := InWindow(ts, to - window as real, to);
    if s != {} {
      var lo := LeastExists(s);
      forall x | x in s
        ensures lo <= x < lo + limit
      {
        Near(ts, limit, window, to, lo, x);
      }
      IntervalSize(s, lo, limit);
    }
  }

  /** The interval (to - window, to] holds at most `limit` entries. */
  ghost predicate WithinLimit(ts: Times, to: real, limit: nat, window: int) {
    |InWindow(ts, to - window as real, to)| <= limit
  }

  /** The window bound of a key on one run. */
  ghost predicate Bounded(start: real, calls: seq<Call>, key: string, limit: nat, window: int) {
    forall to: real :: WithinLimit(History(start, calls, key), to, limit, window)
  }

  /** Sliding window over whole runs: whatever the other keys and cleanups do,
      as long as nobody's window is below the key's. */
  lemma SlidingWindow(start: real, calls: seq<Call>, key: string, limit: nat, window: int)
    requires Clocked(start, calls) && limit >= 1 && window >= 1
    requires Configured(calls, key, limit, window, window)
    ensures Bounded(start, calls, key, limit, window)
  {
    RunKeeps(start, calls, key, limit, window);
    forall to: real
      ensures WithinLimit(History(start, calls, key), to, limit, window)
    {
      SparseBound(History(start, calls, key), limit, window, to);
    }
  }

  /** A denied caller who comes back after `retry_after` or later, with no call
      in between, is allowed. */
  lemma RetryIsAllowed(start: real, calls: seq<Call>, c: Call, later: real)
    requires Clocked(start, calls) && Clock(start, calls) <= c.now && c.limit >= 1 && c.window >= 1
    requires Configured(calls, c.key, c.limit, c.window, c.window)
    requires Result(Run(start, calls), c).Denied?
    requires later >= c.now + Result(Run(start, calls), c).retryAfter as real
    ensures Result(Step(Run(start, calls), c), c.(now := later)).Allowed?
  {
    var s, history, last := Run(start, calls), History(start, calls, c.key), Clock(start, calls);
    RunKeeps(start, calls, c.key, c.limit, c.window);
    hide Run, History, Step, Result, Live, Bucket, Clocked, Configured;
    LiveTracks(s, c, history, last - c.window as real);
    assert InOrder(Live(s, c)) && |Live(s, c)| <= c.limit;
    RetryStep(s, c, Live(s, c), later);
  }

  lemma RetryStep(s: State, c: Call, live: Times, later: real)
    requires c.limit >= 1 && live == Live(s, c) && InOrder(live) && |live| <= c.limit
    requires Result(s, c).Denied?
    requires later >= c.now + Result(s, c).retryAfter as real
    ensures Result(Step(s, c), c.(now := later)).Allowed?
  {
    DeniedStep(s, c, later);
    hide Live, Step, Bucket, Prune;
    LiveIsPruned(Step(s, c), c.(now := later));
    FirstExpires(live, later - c.window as real);
  }

  /** A denial leaves the live entries, the first of which expires in time. */
  lemma DeniedStep(s: State, c: Call, later: real)
    requires Result(s, c).Denied?
    requires later >= c.now + Result(s, c).retryAfter as real
    ensures Bucket(Step(s, c), c.key) == Live(s, c)
    ensures |Live(s, c)| > 0 && Live(s, c)[0] <= later - c.window as real
  {
    hide Live, Prune;
    var live, cutoff := Live(s, c), c.now - c.window as real;
    assert live[0] - cutoff < ((live[0] - cutoff).Floor + 1) as real;
  }

  lemma FirstExpires(ts: Times, cutoff: real)
    requires |ts| > 0 && ts[0] <= cutoff
    ensures |Prune(ts, cutoff)| < |ts|
  {
    PruneShorter(ts[1..], cutoff);
  }

  /** What a check does to the other keys: nothing, unless more than a minute has
      passed since the last cleanup; then those go that are empty or whose last
      entry is older than the caller's window, and the clock of the cleanup is set. */
  lemma StepOnOthers(s: State, c: Call, key: string)
    requires key != c.key
    ensures var t := Step(s, c);
            if c.now - s.lastCleanup > 60.0 then
              && t.lastCleanup == c.now
              && (key in t.buckets <==>
                    key in s.buckets && |s.buckets[key]| > 0 && s.buckets[key][|s.buckets[key]| - 1] >= c.now - c.window as real)
              && (key in t.buckets ==> t.buckets[key] == s.buckets[key])
            else
              && t.lastCleanup == s.lastCleanup
              && (key in t.buckets <==> key in s.buckets) && (key in s.buckets ==> t.buckets[key] == s.buckets[key])
  {
    hide Prune;
  }

  // ------------------------------------------------------------ exact admission

  lemma {:induction false} IntervalFull(s: set<nat>, lo: nat, n: nat)
    requires forall x :: x in s <==> lo <= x < lo + n
    ensures |s| == n
    decreases n
  {
    if n > 0 {
      assert lo + n - 1 in s;
      IntervalFull(s - {lo + n - 1}, lo, n - 1);
    } else {
      assert s == {};
    }
  }

  /** The live entries are those of the last window of the history. */
  lemma LiveCount(live: Times, history: Times, now: real, window: int)
    requires Tracks(live, history, now - window as real)
    requires forall i :: 0 <= i < |live| ==> live[i] > now - window as real
    requires forall i :: 0 <= i < |history| ==> history[i] <= now
    ensures |InWindow(history, now - window as real, now)| == |live|
  {
    var lo, s := |history| - |live|, InWindow(history, now - window as real, now);
    forall x: nat
      ensures x in s <==> lo <= x < lo + |live|
    {
      assert lo <= x < |history| ==> history[x] == live[x - lo];
    }
    IntervalFull(s, lo, |live|);
  }

  /** What a check finds in a reachable state. */
  ghost predicate Finds(live: Times, history: Times, now: real, limit: int, window: int) {
    && InOrder(live) && |live| <= limit
    && (forall i :: 0 <= i < |live| ==> now - window as real < live[i] <= now)
    && |InWindow(history, now - window as real, now)| == |live|
  }

  lemma FindsLive(live: Times, history: Times, now: real, limit: nat, window: int)
    requires Keeps(live, history, now, limit, window)
    requires forall i :: 0 <= i < |live| ==> live[i] > now - window as real
    ensures Finds(live, history, now, limit, window)
  {
    hide Sparse, InWindow;
    LiveCount(live, history, now, window);
  }

  lemma ReachedLive(start: real, calls: seq<Call>, c: Call)
    requires Clocked(start, calls) && Clock(start, calls) <= c.now && c.limit >= 1 && c.window >= 1
    requires Configured(calls, c.key, c.limit, c.window, c.window)
    ensures Finds(Live(Run(start, calls), c), History(start, calls, c.key), c.now, c.limit, c.window)
  {
    var s, history, last := Run(start, calls), History(start, calls, c.key), Clock(start, calls);
    RunKeeps(start, calls, c.key, c.limit, c.window);
    hide Run, History, Live, Bucket, Clocked, Configured, Finds;
    LiveTracks(s, c, history, last - c.window as real);
    assert Keeps(Live(s, c), history, c.now, c.limit, c.window);
    hide Keeps;
    FindsLive(Live(s, c), history, c.now, c.limit, c.window);
  }

  /** Admission, exactly: a call is allowed just when fewer than the limit of the
      key's allowed calls lie in the window that ends now, and it is told how many
      more there is room for. */
  lemma AdmissionExact(start: real, calls: seq<Call>, c: Call)
    requires Clocked(start, calls) && Clock(start, calls) <= c.now && c.limit >= 1 && c.window >= 1
    requires Configured(calls, c.key, c.limit, c.window, c.window)
    ensures var n := |InWindow(History(start, calls, c.key), c.now - c.window as real, c.now)|;
            var r := Result(Run(start, calls), c);
            if n < c.limit then r == Allowed(c.limit - n - 1) else r.Denied?
  {
    hide Run, History, Live, Clocked, Configured, InWindow;
    ReachedLive(start, calls, c);
  }

  /** A bucket whose entries are all live. */
  ghost predicate Fresh(s: State, c: Call) {
    && InOrder(Bucket(s, c.key))
    && forall i :: 0 <= i < |Bucket(s, c.key)| ==> c.now - c.window as real < Bucket(s, c.key)[i] <= c.now
  }

  lemma FreshStep(s: State, c: Call)
    requires Fresh(s, c) && c.limit >= 1 && c.window >= 1
    ensures Result(s, c).Allowed? <==> |Bucket(s, c.key)| < c.limit
    ensures Fresh(Step(s, c), c)
    ensures |Bucket(Step(s, c), c.key)| == |Bucket(s, c.key)| + if Result(s, c).Allowed? then 1 else 0
  {
    hide Live;
    LiveIsPruned(s, c);
    PruneKeepsAll(Bucket(s, c.key), c.now - c.window as real);
    hide Prune;
  }

  function Repeat(s: State, c: Call, k: nat): State
    decreases k
  {
    if k == 0 then s else Repeat(Step(s, c), c, k - 1)
  }

  lemma {:induction false} FreshRepeat(s: State, c: Call, k: nat)
    requires Fresh(s, c) && |Bucket(s, c.key)| <= c.limit && c.limit >= 1 && c.window >= 1
    ensures Result(Repeat(s, c, k), c).Allowed? <==> k < c.limit - |Bucket(s, c.key)|
    decreases k
  {
    FreshStep(s, c);
    if k > 0 {
      hide Fresh, Step, Bucket, Result;
      FreshRepeat(Step(s, c), c, k - 1);
    }
  }

  /** The promise of `remaining`: after an allowed call exactly that many more of
      the same calls, at the same time, are allowed, and every further one is
      denied. */
  lemma RemainingExactly(start: real, calls: seq<Call>, c: Call, k: nat)
    requires Clocked(start, calls) && Clock(start, calls) <= c.now && c.limit >= 1 && c.window >= 1
    requires Configured(calls, c.key, c.limit, c.window, c.window)
    requires Result(Run(start, calls), c).Allowed?
    ensures Result(Repeat(Run(start, calls), c, k + 1), c).Allowed?
       <==> k < Result(Run(start, calls), c).remaining
    ensures !Result(Repeat(Run(start, calls), c, k + 1), c).IndexError?
  {
    var s := Run(start, calls);
    ReachedLive(start, calls, c);
    hide Run, History, Live, Clocked, Configured, InWindow, Repeat;
    assert Bucket(Step(s, c), c.key) == Live(s, c) + [c.now];
    assert Fresh(Step(s, c), c);
    FreshRepeat(Step(s, c), c, k);
    RepeatFirst(s, c, k);
    NoIndexError(Repeat(s, c, k + 1), c);
  }

  lemma RepeatFirst(s: State, c: Call, k: nat)
    ensures Repeat(s, c, k + 1) == Repeat(Step(s, c), c, k)
  {
  }

  lemma NoIndexError(s: State, c: Call)
    requires c.limit >= 1
    ensures !Result(s, c).IndexError?
  {
  }

  // ------------------------------------------------------- the denial's promise

  /** A caller denied with a retry time is denied again, without a call in between,
      at every time more than a second before it. */
  lemma RetryIsLeast(start: real, calls: seq<Call>, c: Call, later: real)
    requires Clocked(start, calls) && Clock(start, calls) <= c.now && c.limit >= 1 && c.window >= 1
    requires Configured(calls, c.key, c.limit, c.window, c.window)
    requires Result(Run(start, calls), c).Denied?
    requires c.now <= later < c.now + Result(Run(start, calls), c).retryAfter as real - 1.0
    ensures Result(Step(Run(start, calls), c), c.(now := later)).Denied?
  {
    ReachedLive(start, calls, c);
    hide Run, History, Clocked, Configured, Live, InWindow, Result, Step;
    SoonDenied(Run(start, calls), c, Live(Run(start, calls), c), later);
  }

  lemma SoonDenied(s: State, c: Call, live: Times, later: real)
    requires c.limit >= 1 && live == Live(s, c) && InOrder(live)
    requires Result(s, c).Denied? && c.now <= later < c.now + Result(s, c).retryAfter as real - 1.0
    ensures Result(Step(s, c), c.(now := later)).Denied?
  {
    StillLive(s, c, live, later);
    hide Live, Step, Prune, Bucket;
    LiveIsPruned(Step(s, c), c.(now := later));
    PruneKeepsAll(live, later - c.window as real);
  }

  lemma StillLive(s: State, c: Call, live: Times, later: real)
    requires live == Live(s, c) && InOrder(live)
    requires Result(s, c).Denied? && c.now <= later < c.now + Result(s, c).retryAfter as real - 1.0
    ensures Bucket(Step(s, c), c.key) == live
    ensures forall i :: 0 <= i < |live| ==> live[i] > later - c.window as real
  {
    hide Live;
    var cutoff := c.now - c.window as real;
    assert (live[0] - cutoff).Floor as real <= live[0] - cutoff;
    assert forall i :: 0 <= i < |live| ==> live[i] >= live[0];
  }

  // ---------------------------------------------------- the exact condition

  /** A burst of n requests of one key at one time. */
  function Burst(n: nat, c: Call): (calls: seq<Call>)
    ensures |calls| == n
  {
    seq(n, _ => c)
  }

  lemma {:induction false} BurstFills(n: nat, c: Call)
    requires c.now == 60.0 && c.window >= 1 && n <= c.limit
    ensures Run(0.0, Burst(n, c)) == if n == 0 then State(map[], 0.0) else State(map[c.key := seq(n, _ => c.now)], 0.0)
    ensures History(0.0, Burst(n, c), c.key) == seq(n, _ => c.now)
  {
    if n > 0 {
      assert Burst(n, c)[..n - 1] == Burst(n - 1, c);
      BurstFills(n - 1, c);
      var s, full := Run(0.0, Burst(n - 1, c)), seq(n - 1, _ => c.now);
      PruneKeepsAll(full, c.now - c.window as real);
      assert Live(s, c) == full;
      assert full + [c.now] == seq(n, _ => c.now);
      assert s.buckets[c.key := seq(n, _ => c.now)] == map[c.key := seq(n, _ => c.now)];
    }
  }

  /** With one other caller whose window is shorter by one, a cleanup forgets a
      full bucket and the key exceeds its limit. */
  lemma ShorterWindowBreaks(key: string, other: string, limit: nat, window: int) returns (calls: seq<Call>)
    requires key != other && limit >= 1 && window >= 1
    ensures Clocked(0.0, calls)
    ensures Configured(calls, key, limit, window, window - 1)
    ensures !Bounded(0.0, calls, key, limit, window)
  {
    var c := Call(60.0, key, limit, window);
    var t := 60.0 + (window as real - 0.5);
    var d := Call(t, other, 1, window - 1);
    var e := Call(t, key, limit, window);
    calls := Burst(limit, c) + [d] + [e];
    Overfull(limit, c, d, e);
  }

  lemma Overfull(limit: nat, c: Call, d: Call, e: Call)
    requires limit >= 1 && c.now == 60.0 && c.window >= 1 && c.limit == limit
    requires e == c.(now := e.now) && e.now == 60.0 + (c.window as real - 0.5)
    requires d.key != c.key && d.now == e.now && d.window == c.window - 1
    ensures !Bounded(0.0, Burst(limit, c) + [d] + [e], c.key, limit, c.window)
  {
    hide Run, History, Result, Step;
    var calls, full := Burst(limit, c) + [d] + [e], seq(limit, _ => 60.0);
    BurstFills(limit, c);
    CleanupForgets(Run(0.0, Burst(limit, c)), d, e, full);
    TwoMore(Burst(limit, c), d, e);
    var history := History(0.0, calls, c.key);
    assert history == full + [e.now];
    AtLeast(InWindow(full + [e.now], e.now - c.window as real, e.now), limit + 1);
    assert !WithinLimit(history, e.now, limit, c.window);
  }

  lemma TwoMore(calls: seq<Call>, d: Call, e: Call)
    requires d.key != e.key && Result(Step(Run(0.0, calls), d), e).Allowed?
    ensures History(0.0, calls + [d] + [e], e.key) == History(0.0, calls, e.key) + [e.now]
  {
    hide Step, Result;
    var more := calls + [d];
    assert (more + [e])[..|more|] == more && more[..|calls|] == calls;
    assert Run(0.0, more) == Step(Run(0.0, calls), d);
    assert History(0.0, more, e.key) == History(0.0, calls, e.key) + [];
  }

  /** The cleanup of `d` drops a bucket whose entries are live for `e`. */
  lemma CleanupForgets(s: State, d: Call, e: Call, full: Times)
    requires |full| > 0 && s == State(map[e.key := full], 0.0) && full[|full| - 1] == 60.0
    requires d.key != e.key && e.limit >= 1 && d.now == e.now > 60.0 && e.now - d.window as real > 60.0
    ensures Result(Step(s, d), e).Allowed?
  {
    assert e.key !in Step(s, d).buckets;
    assert Live(Step(s, d), e) == [];
  }

  lemma {:induction false} AtLeast(s: set<nat>, n: nat)
    requires forall i :: 0 <= i < n ==> i in s
    ensures |s| >= n
    decreases n
  {
    if n > 0 {
      AtLeast(s - {n - 1}, n - 1);
      assert n - 1 in s;
    }
  }

  /** The bound on every run in which all windows are at least `least`. */
  ghost predicate AlwaysBounded(key: string, limit: nat, window: int, least: int) {
    forall start: real, calls: seq<Call> ::
      Clocked(start, calls) && Configured(calls, key, limit, window, least) ==> Bounded(start, calls, key, limit, window)
  }

  /** Exactly when the bound holds on every run: no caller may use a window
      below the key's. */
  lemma BoundedExactly(key: string, limit: nat, window: int, least: int)
    requires limit >= 1 && window >= 1
    ensures AlwaysBounded(key, limit, window, least) <==> least >= window
  {
    if least >= window {
      forall start: real, calls: seq<Call> | Clocked(start, calls) && Configured(calls, key, limit, window, least)
        ensures Bounded(start, calls, key, limit, window)
      {
        SlidingWindow(start, calls, key, limit, window);
      }
    } else {
      var calls := ShorterWindowBreaks(key, key + "x", limit, window);
      assert Configured(calls, key, limit, window, least);
    }
  }
}
