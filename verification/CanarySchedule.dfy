/** The canary schedule of an epoch: signed decode lengths, the tests planned for
    each endpoint, and the dispatch queue. Hash-derived draws are parameters; an
    exception is None. */
module CanarySchedule {
  import opened Arithmetic
  import opened Utf8
  import opened Wrappers
  import opened Sorting

  // --------------------------------------------------------------------- draws

  datatype Seed =
    | TestSeed(index: nat) | Candidate(offset: nat) | Drought | DroughtSelect

  datatype Tag =
    | LowTokens | LowDecode | CandidateEvent | ForcedBlock | ForcedIndex | HardMark | TargetBlock
    | CategoryDraw | CommonDraw | AnchorDraw | TailBand | TailOffset

  /** The first eight bytes of every derived digest of one endpoint. */
  type Hash = (Seed, Tag) -> nat

  /** `_seed_int` */
  function Draw(h: Hash, seed: Seed, tag: Tag, modulus: int): (r: nat)
    ensures if modulus > 0 then r < modulus else r == 0
  {
    if modulus <= 0 then 0 else h(seed, tag) % modulus
  }

  lemma DrawIs(h: Hash, seed: Seed, tag: Tag, modulus: int)
    requires h(seed, tag) < modulus
    ensures Draw(h, seed, tag, modulus) == h(seed, tag)
  {
  }

  function Min(a: int, b: int): int {
    if a < b then a else b
  }

  function Max(a: int, b: int): int {
    if a > b then a else b
  }

  // -------------------------------------------------------------- decode bands

  type Band = (int, int)

  function BandsFrom(lower: int, cap: int): seq<Band>
    requires lower >= 1
    decreases cap - lower
  {
    if lower > cap then []
    else
      var upper := Min(cap, 2 * lower - 1);
      [(lower, upper)] + BandsFrom(upper + 1, cap)
  }

  function Merged(bands: seq<Band>): seq<Band> {
    var n := |bands|;
    if n > 1 && bands[n - 1].0 == bands[n - 1].1 then bands[..n - 2] + [(bands[n - 2].0, bands[n - 1].1)] else bands
  }

  function Bands(cap: int): seq<Band>
    requires cap > 0
  {
    Merged(BandsFrom(1, cap))
  }

  /** The bands cover lo..hi in order without a gap, and none is wider than
      double. */
  predicate Tiles(bands: seq<Band>, lo: int, hi: int) {
    && |bands| > 0 && bands[0].0 == lo && bands[|bands| - 1].1 == hi
    && (forall i :: 0 <= i < |bands| ==> bands[i].0 <= bands[i].1 <= 2 * bands[i].0)
    && (forall i :: 0 < i < |bands| ==> bands[i].0 == bands[i - 1].1 + 1)
  }

  /** Before merging, a band that is not the last ends just below double. */
  predicate Doubling(bands: seq<Band>) {
    forall i :: 0 <= i < |bands| - 1 ==> bands[i].1 == 2 * bands[i].0 - 1
  }

  lemma {:induction false} BandsFromTile(lower: int, cap: int)
    requires 1 <= lower <= cap
    ensures Tiles(BandsFrom(lower, cap), lower, cap) && Doubling(BandsFrom(lower, cap))
    decreases cap - lower
  {
    var upper := Min(cap, 2 * lower - 1);
    if upper < cap {
      BandsFromTile(upper + 1, cap);
    } else {
      assert BandsFrom(upper + 1, cap) == [];
    }
  }

  /** The bands of a cap tile 1..cap. */
  lemma BandsTile(cap: int)
    requires cap > 0
    ensures Tiles(Bands(cap), 1, cap)
  {
    BandsFromTile(1, cap);
    var b := BandsFrom(1, cap);
    var n := |b|;
    if n > 1 && b[n - 1].0 == b[n - 1].1 {
      assert b[n - 1].0 == b[n - 2].1 + 1 == 2 * b[n - 2].0;
    }
  }

  lemma {:induction false} BandStarts(bands: seq<Band>, hi: int, i: nat)
    requires Tiles(bands, 1, hi) && Doubling(bands) && i < |bands|
    ensures bands[i].0 == Pow2(i)
  {
    if i > 0 {
      BandStarts(bands, hi, i - 1);
    }
  }

  /** Band i starts at the i-th power of two; a band that is not the last stops just
      below double, and the last one holds more than one length unless the cap is one. */
  lemma BandsExactly(cap: int)
    requires cap > 0
    ensures var b := Bands(cap);
            && (forall i :: 0 <= i < |b| ==> b[i].0 == Pow2(i))
            && (forall i :: 0 <= i < |b| - 1 ==> b[i].1 == 2 * b[i].0 - 1)
            && b[|b| - 1].1 == cap <= 2 * b[|b| - 1].0
            && (cap > 1 ==> b[|b| - 1].0 < b[|b| - 1].1)
  {
    BandsTile(cap);
    BandsFromTile(1, cap);
    var all := BandsFrom(1, cap);
    forall i | 0 <= i < |all|
      ensures all[i].0 == Pow2(i)
    {
      BandStarts(all, cap, i);
    }
  }

  lemma {:induction false} TilesCover(bands: seq<Band>, lo: int, hi: int, n: int) returns (i: nat)
    requires Tiles(bands, lo, hi) && lo <= n <= hi
    ensures i < |bands| && bands[i].0 <= n <= bands[i].1
    decreases |bands|
  {
    if n <= bands[0].1 {
      i := 0;
    } else {
      assert |bands| > 1;
      var rest := bands[1..];
      assert forall j :: 0 < j < |rest| ==> rest[j] == bands[j + 1] && rest[j - 1] == bands[j];
      i := TilesCover(rest, bands[1].0, hi, n);
      i := i + 1;
    }
  }

  /** `_log_uniform_decode_bands_v3` */
  method LogUniformBands(cap: int) returns (r: Option<seq<Band>>)
    ensures cap <= 0 ==> r == None
    ensures cap > 0 ==> r == Some(Bands(cap))
  {
    if cap <= 0 {
      return None;
    }
    var bands: seq<Band> := [];
    var lower := 1;
    while lower <= cap
      invariant lower >= 1
      invariant bands + BandsFrom(lower, cap) == BandsFrom(1, cap)
      decreases cap - lower
    {
      var upper := Min(cap, 2 * lower - 1);
      assert bands + ([(lower, upper)] + BandsFrom(upper + 1, cap)) == (bands + [(lower, upper)]) + BandsFrom(upper + 1, cap);
      bands := bands + [(lower, upper)];
      lower := upper + 1;
    }
    assert bands == BandsFrom(1, cap);
    var n := |bands|;
    if n > 1 && bands[n - 1].0 == bands[n - 1].1 {
      bands := bands[..n - 2] + [(bands[n - 2].0, bands[n - 1].1)];
    }
    return Some(bands);
  }

  // ------------------------------------------------------------- decode lengths

  datatype Category = Common | Anchor | Tail

  const ANCHORS := [512, 1024, 2048, 4096, 8192]
  const MIN_ANCHOR_BPS := 2500
  const MIN_TAIL_BPS := 1000

  /** `dict.fromkeys(min(cap, v) for v in ANCHORS)` over the first n anchors. */
  function Anchors(cap: int, n: nat): (r: seq<int>)
    requires cap > 0 && n <= |ANCHORS|
    ensures forall x :: x in r ==> 1 <= x <= cap
    ensures n > 0 ==> |r| > 0
  {
    if n == 0 then []
    else
      var before, a := Anchors(cap, n - 1), Min(cap, ANCHORS[n - 1]);
      if a in before then before else before + [a]
  }

  /** `_signed_full_decode_tokens_v3` */
  function Tokens(h: Hash, seed: Seed, category: Category, cap: int, common: int): Option<int> {
    if cap <= 0 then None
    else match category
      case Common =>
        var lower := Min(64, cap);
        var upper := Min(cap, Max(lower, common));
        Some(lower + Draw(h, seed, CommonDraw, upper - lower + 1))
      case Anchor =>
        var anchors := Anchors(cap, |ANCHORS|);
        Some(anchors[Draw(h, seed, AnchorDraw, |anchors|)])
      case Tail =>
        var bands := Bands(cap);
        BandsTile(cap);
        var (lower, upper) := bands[Draw(h, seed, TailBand, |bands|)];
        Some(lower + Draw(h, seed, TailOffset, upper - lower + 1))
  }

  /** Whatever is drawn, the length is a positive number of tokens within the
      signed cap; there is none exactly when the cap is not positive. */
  lemma TokensInRange(h: Hash, seed: Seed, category: Category, cap: int, common: int)
    ensures Tokens(h, seed, category, cap, common).Some? <==> cap > 0
    ensures cap > 0 ==> 1 <= Tokens(h, seed, category, cap, common).value <= cap
  {
    if cap > 0 && category.Tail? {
      var bands := Bands(cap);
      BandsTile(cap);
      var i := Draw(h, seed, TailBand, |bands|);
      BandWithin(bands, 1, cap, i);
    } else if cap > 0 && category.Anchor? {
      var anchors := Anchors(cap, |ANCHORS|);
      assert anchors[Draw(h, seed, AnchorDraw, |anchors|)] in anchors;
    }
  }

  lemma {:induction false} BandWithin(bands: seq<Band>, lo: int, hi: int, i: nat)
    requires Tiles(bands, lo, hi) && i < |bands|
    ensures lo <= bands[i].0 <= bands[i].1 <= hi
    decreases |bands|
  {
    if |bands| > 1 {
      var rest := bands[1..];
      assert forall j :: 0 < j < |rest| ==> rest[j] == bands[j + 1] && rest[j - 1] == bands[j];
      BandWithin(rest, bands[1].0, hi, if i == 0 then 0 else i - 1);
    }
  }

  /** No length is out of reach: the tail can draw every one up to the cap. */
  lemma TailReaches(seed: Seed, cap: int, common: int, n: int) returns (h: Hash)
    requires 1 <= n <= cap
    ensures Tokens(h, seed, Tail, cap, common) == Some(n)
  {
    BandsTile(cap);
    hide Bands, Tiles;
    var i := TilesCover(Bands(cap), 1, cap, n);
    h := Drawing(i, n - Bands(cap)[i].0);
    DrawIs(h, seed, TailBand, |Bands(cap)|);
    DrawIs(h, seed, TailOffset, Bands(cap)[i].1 - Bands(cap)[i].0 + 1);
    hide Draw;
  }

  /** The draws of a band and a place in it. */
  function Drawing(band: nat, offset: nat): Hash {
    (s, t) => if t == TailBand then band else offset
  }

  /** A common length is any from 64, or the cap when it is less, up to the common
      maximum within the cap. */
  lemma CommonExactly(seed: Seed, cap: int, common: int, n: int)
    requires cap > 0
    ensures (exists h: Hash :: Tokens(h, seed, Common, cap, common) == Some(n)) <==>
            n <= cap && ((n >= 64 && n <= common) || n == 64 || (n == cap && cap < 64))
  {
    var lower := Min(64, cap);
    if lower <= n <= Min(cap, Max(lower, common)) {
      var h: Hash := (s, t) => n - lower;
      DrawIs(h, seed, CommonDraw, Min(cap, Max(lower, common)) - lower + 1);
      assert Tokens(h, seed, Common, cap, common) == Some(n);
    }
  }

  lemma {:induction false} AnchorsAre(cap: int, n: nat, x: int)
    requires cap > 0 && n <= |ANCHORS|
    ensures x in Anchors(cap, n) <==> exists i :: 0 <= i < n && x == Min(cap, ANCHORS[i])
    ensures Distinct(Anchors(cap, n))
    decreases n
  {
    if n > 0 {
      AnchorsAre(cap, n - 1, x);
      assert Anchors(cap, n) == Anchors(cap, n - 1) || Anchors(cap, n) == Anchors(cap, n - 1) + [Min(cap, ANCHORS[n - 1])];
    }
  }

  /** An anchored length is one of the five anchors, or the cap when it is below
      one of them. */
  lemma AnchorExactly(seed: Seed, cap: int, common: int, n: int)
    requires cap > 0
    ensures (exists h: Hash :: Tokens(h, seed, Anchor, cap, common) == Some(n)) <==>
            (n in {512, 1024, 2048, 4096, 8192} && n <= cap) || (n == cap && cap < 8192)
  {
    var anchors := Anchors(cap, |ANCHORS|);
    AnchorsAre(cap, |ANCHORS|, n);
    AnchorValues(cap, n);
    hide Anchors;
    if n in anchors {
      var i: nat :| i < |anchors| && anchors[i] == n;
      var h: Hash := (s, t) => i;
      DrawIs(h, seed, AnchorDraw, |anchors|);
      assert Tokens(h, seed, Anchor, cap, common) == Some(n);
    }
    if h: Hash :| Tokens(h, seed, Anchor, cap, common) == Some(n) {
      assert anchors[Draw(h, seed, AnchorDraw, |anchors|)] == n;
    }
  }

  lemma AnchorValues(cap: int, n: int)
    ensures (exists i :: 0 <= i < |ANCHORS| && n == Min(cap, ANCHORS[i])) <==>
            (n in {512, 1024, 2048, 4096, 8192} && n <= cap) || (n == cap && cap < 8192)
  {
    assert ANCHORS[0] == 512 && ANCHORS[1] == 1024 && ANCHORS[2] == 2048 && ANCHORS[3] == 4096 && ANCHORS[4] == 8192;
    assert n == Min(cap, ANCHORS[0]) || n == Min(cap, ANCHORS[1]) || n == Min(cap, ANCHORS[2])
        || n == Min(cap, ANCHORS[3]) || n == Min(cap, ANCHORS[4])
      <==> (n in {512, 1024, 2048, 4096, 8192} && n <= cap) || (n == cap && cap < 8192);
  }

  /** `_independent_full_decode_category_v3` */
  function CategoryOf(h: Hash, seed: Seed, anchorBps: int, tailBps: int): Option<Category> {
    if anchorBps < MIN_ANCHOR_BPS || tailBps < MIN_TAIL_BPS || anchorBps + tailBps >= 10_000 then None
    else
      var draw := Draw(h, seed, CategoryDraw, 10_000);
      Some(if draw < anchorBps then Anchor else if draw < anchorBps + tailBps then Tail else Common)
  }

  // -------------------------------------------------------------------- shares

  /** The same draws but for one. */
  function With(h: Hash, seed: Seed, tag: Tag, value: nat): Hash {
    (s, t) => if s == seed && t == tag then value else h(s, t)
  }

  lemma {:induction false} RangeSize(s: set<nat>, lo: nat, n: nat)
    requires forall x :: x in s <==> lo <= x < lo + n
    ensures |s| == n
    decreases n
  {
    if n > 0 {
      assert lo + n - 1 in s;
      RangeSize(s - {lo + n - 1}, lo, n - 1);
    } else {
      assert s == {};
    }
  }

  /** The values of the category draw that give a category. */
  ghost function DrawsFor(h: Hash, seed: Seed, anchorBps: nat, tailBps: nat, category: Category): set<nat> {
    set d: nat | d < 10_000 && CategoryOf(With(h, seed, CategoryDraw, d), seed, anchorBps, tailBps) == Some(category)
  }

  /** Of the 10,000 values of the category draw the anchor rate gives an anchor, the
      tail rate a tail and the rest a common length. */
  lemma CategoryShares(h: Hash, seed: Seed, anchorBps: nat, tailBps: nat)
    requires anchorBps >= 2500 && tailBps >= 1000 && anchorBps + tailBps < 10_000
    ensures |DrawsFor(h, seed, anchorBps, tailBps, Anchor)| == anchorBps
    ensures |DrawsFor(h, seed, anchorBps, tailBps, Tail)| == tailBps
    ensures |DrawsFor(h, seed, anchorBps, tailBps, Common)| == 10_000 - anchorBps - tailBps
  {
    forall d: nat | d < 10_000
      ensures CategoryOf(With(h, seed, CategoryDraw, d), seed, anchorBps, tailBps)
           == Some(if d < anchorBps then Anchor else if d < anchorBps + tailBps then Tail else Common)
    {
      DrawIs(With(h, seed, CategoryDraw, d), seed, CategoryDraw, 10_000);
    }
    hide CategoryOf, With;
    RangeSize(DrawsFor(h, seed, anchorBps, tailBps, Anchor), 0, anchorBps);
    RangeSize(DrawsFor(h, seed, anchorBps, tailBps, Tail), anchorBps, tailBps);
    RangeSize(DrawsFor(h, seed, anchorBps, tailBps, Common), anchorBps + tailBps, 10_000 - anchorBps - tailBps);
  }

  /** Rates below their minimum, or that leave no common lengths, raise. */
  lemma CategoryRaises(h: Hash, seed: Seed, anchorBps: int, tailBps: int)
    ensures CategoryOf(h, seed, anchorBps, tailBps).None? <==> anchorBps < 2500 || tailBps < 1000 || anchorBps + tailBps >= 10_000
  {
  }

  // ----------------------------------------------------------------- the plan

  datatype Config = Config(
    start: int, blocks: int, smallCount: int, advertisedLightCount: int, fullContextCount: int,
    lowMin: int, lowMax: int, lowMaxDecode: int, decodeReserve: int, fullMaxDecode: int,
    candidateTarget: int, hardBps: int, targetBps: int, anchorBps: int, tailBps: int, lateBps: int,
    hardAudit: bool, due: set<(Text, int)>, probation: set<(Text, int)>,
    contextLimits: map<string, int>, decodeLimits: map<string, int>,
    lowReserve: int, fullReserve: int)

  datatype Miner = Miner(address: Text, modelId: string, modelIndex: int, maxContext: int)

  datatype Kind = Small | FullContext

  datatype Test = Test(
    address: Text, modelIndex: int, kind: Kind, block: int, index: nat, maxNew: int, target: int,
    verifyProof: bool, minimumOutput: int)

  /** `_safe_context_target` */
  function SafeTarget(c: Config, contextLimit: int, decode: int): int {
    var limit := Max(1, contextLimit);
    var byFraction := Max(1, limit * c.targetBps / 10_000);
    var byReserve := Max(1, limit - Max(c.decodeReserve, decode));
    Min(byFraction, byReserve)
  }

  /** A prompt of the safe size and the decode fit the context exactly when the
      decode alone leaves room for one prompt token. */
  lemma SafeTargetFits(c: Config, contextLimit: int, decode: int)
    ensures SafeTarget(c, contextLimit, decode) >= 1
    ensures SafeTarget(c, contextLimit, decode) + decode <= Max(1, contextLimit) <==> decode < Max(1, contextLimit)
  {
  }

  /** It is the largest prompt that keeps the configured fraction of the context and
      leaves both the reserve and the decode, and one token at least. */
  lemma SafeTargetExactly(c: Config, contextLimit: int, decode: int, x: int)
    ensures x <= SafeTarget(c, contextLimit, decode) <==>
            || x <= 1
            || (var limit := Max(1, contextLimit);
                x * 10_000 <= limit * c.targetBps && x <= limit - c.decodeReserve && x <= limit - decode)
  {
    var product := Max(1, contextLimit) * c.targetBps;
    assert product == product / 10_000 * 10_000 + product % 10_000;
  }

  /** `_latest_dispatch_block` */
  function Latest(c: Config, reserve: int): Option<int> {
    if reserve < 1 || reserve >= c.blocks then None else Some(c.start + c.blocks - reserve)
  }

  function BlockFor(c: Config, h: Hash, index: nat, reserve: int): Option<int> {
    var latest :- Latest(c, reserve);
    Some(c.start + Draw(h, TestSeed(index), TargetBlock, latest - c.start + 1))
  }

  lemma BlockInWindow(c: Config, h: Hash, index: nat, reserve: int)
    requires BlockFor(c, h, index, reserve).Some?
    ensures c.start <= BlockFor(c, h, index, reserve).value <= c.start + c.blocks - reserve < c.start + c.blocks
  {
  }

  /** A block is refused exactly when the reserve is not positive or does not fit the
      epoch; every block of the window can be drawn. */
  lemma BlockReaches(c: Config, index: nat, reserve: int, block: int)
    ensures (exists h: Hash :: BlockFor(c, h, index, reserve) == Some(block)) <==>
            1 <= reserve < c.blocks && c.start <= block <= c.start + c.blocks - reserve
  {
    if 1 <= reserve < c.blocks && c.start <= block <= c.start + c.blocks - reserve {
      var h: Hash := (s, t) => block - c.start;
      DrawIs(h, TestSeed(index), TargetBlock, c.blocks - reserve + 1);
      assert BlockFor(c, h, index, reserve) == Some(block);
    }
  }

  function LimitOf(limits: map<string, int>, model: string): int {
    if model in limits then limits[model] else 0
  }

  /** The context limit and decode cap of an endpoint's marked requests; None
      when they leave no prompt capacity. */
  function HardLimits(c: Config, m: Miner): Option<(int, int)> {
    var signedContext, signedDecode := LimitOf(c.contextLimits, m.modelId), LimitOf(c.decodeLimits, m.modelId);
    var unqualified := signedContext <= 1 || signedDecode <= 0;
    var context := if unqualified then Max(2, m.maxContext) else signedContext;
    var decode := if unqualified then Max(1, Min(c.lowMaxDecode, context - 1)) else signedDecode;
    var limit := Min(m.maxContext, context);
    var cap := Min(decode, limit - 1);
    if cap <= 0 then None else Some((limit, cap))
  }

  /** A secret candidate: its block offset and the seed of its draws. */
  datatype Event = Event(offset: nat, seed: Seed)

  predicate IsCandidate(c: Config, h: Hash, offset: nat) {
    Draw(h, Candidate(offset), CandidateEvent, c.blocks) < c.candidateTarget
  }

  function Candidates(c: Config, h: Hash, n: nat): seq<Event> {
    if n == 0 then []
    else Candidates(c, h, n - 1) + if IsCandidate(c, h, n - 1) then [Event(n - 1, Candidate(n - 1))] else []
  }

  predicate IsDue(c: Config, lower: Text -> Text, m: Miner) {
    (lower(m.address), m.modelIndex) in c.due || (lower(m.address), m.modelIndex) in c.probation
  }

  /** The candidates of the epoch, with one forced when the endpoint is due and
      none was drawn. They come out in block order. */
  function Events(c: Config, h: Hash, due: bool): seq<Event>
    requires c.blocks >= 0
  {
    var drawn := Candidates(c, h, c.blocks);
    if due && drawn == [] then [Event(Draw(h, Drought, ForcedBlock, c.blocks), Drought)] else drawn
  }

  /** The block at which a due endpoint's candidate is certainly hard. */
  function ForcedOffset(h: Hash, due: bool, events: seq<Event>): Option<nat>
    requires due ==> |events| > 0
  {
    if due then Some(events[Draw(h, DroughtSelect, ForcedIndex, |events|)].offset) else None
  }

  function MinimumOutput(c: Config, maxNew: int): int {
    if maxNew > c.lowMaxDecode then Max(1, (maxNew * c.lateBps + 9_999) / 10_000) else 0
  }

  function Marked(c: Config, m: Miner, h: Hash, limit: int, cap: int, e: Event, forced: Option<nat>, index: nat): Option<Test> {
    var category :- CategoryOf(h, e.seed, c.anchorBps, c.tailBps);
    var maxNew :- Tokens(h, e.seed, category, cap, c.lowMaxDecode);
    Some(Test(m.address, m.modelIndex, FullContext, c.start + e.offset, index, maxNew, SafeTarget(c, limit, maxNew),
              forced == Some(e.offset) || Draw(h, e.seed, HardMark, 10_000) < c.hardBps, MinimumOutput(c, maxNew)))
  }

  /** The marked tests of the first n events. */
  function MarkedTests(c: Config, m: Miner, h: Hash, limit: int, cap: int, events: seq<Event>, forced: Option<nat>, n: nat)
    : (r: Option<seq<Test>>)
    requires n <= |events|
    ensures r.Some? ==> |r.value| == n
  {
    if n == 0 then Some([])
    else
      var before :- MarkedTests(c, m, h, limit, cap, events, forced, n - 1);
      var test :- Marked(c, m, h, limit, cap, events[n - 1], forced, n);
      Some(before + [test])
  }

  /** The light request at the advertised context of an endpoint. */
  function Advertised(c: Config, m: Miner, h: Hash, index: nat): Option<Test> {
    var block :- BlockFor(c, h, index, c.fullReserve);
    Some(Test(m.address, m.modelIndex, FullContext, block, index, c.fullMaxDecode,
              SafeTarget(c, m.maxContext, c.fullMaxDecode), false, 0))
  }

  predicate HardPolicyOk(c: Config) {
    && c.smallCount == 0 && c.advertisedLightCount == 1 && c.fullContextCount == 0
    && 0 < c.lateBps <= 10_000 && 0 < c.candidateTarget <= c.blocks && 0 < c.hardBps < 10_000
  }

  function HardPlan(c: Config, m: Miner, h: Hash, due: bool): Option<seq<Test>> {
    if !HardPolicyOk(c) then None
    else
      var (limit, cap) :- HardLimits(c, m);
      var light :- Advertised(c, m, h, 0);
      var events := Events(c, h, due);
      var marked :- MarkedTests(c, m, h, limit, cap, events, ForcedOffset(h, due, events), |events|);
      Some([light] + marked)
  }

  function SmallTest(c: Config, m: Miner, h: Hash, index: nat): Option<Test> {
    var block :- BlockFor(c, h, index, c.lowReserve);
    var target := c.lowMin + Draw(h, TestSeed(index), LowTokens, c.lowMax - c.lowMin + 1);
    var maxNew := Max(32, Min(c.lowMaxDecode, 64 + Draw(h, TestSeed(index), LowDecode, 129)));
    Some(Test(m.address, m.modelIndex, Small, block, index, maxNew, target, false, 0))
  }

  /** The fixed schedule outside the hard audit: small tests, then requests at the
      advertised context. */
  function LightPlan(c: Config, m: Miner, h: Hash, n: nat): (r: Option<seq<Test>>)
    ensures r.Some? ==> |r.value| == n
  {
    if n == 0 then Some([])
    else
      var before :- LightPlan(c, m, h, n - 1);
      var test :- if n - 1 < c.smallCount then SmallTest(c, m, h, n - 1) else Advertised(c, m, h, n - 1);
      Some(before + [test])
  }

  function LightCount(c: Config): nat {
    Max(0, c.smallCount) + Max(0, c.advertisedLightCount + c.fullContextCount)
  }

  function MinerPlan(c: Config, m: Miner, h: Hash, lower: Text -> Text): Option<seq<Test>> {
    if c.hardAudit then HardPlan(c, m, h, IsDue(c, lower, m)) else LightPlan(c, m, h, LightCount(c))
  }

  /** The tests of the first n endpoints, in planning order. */
  function Planned(c: Config, miners: seq<Miner>, hs: nat -> Hash, lower: Text -> Text, n: nat): Option<seq<Test>>
    requires n <= |miners|
  {
    if n == 0 then Some([])
    else
      var before :- Planned(c, miners, hs, lower, n - 1);
      var tests :- MinerPlan(c, miners[n - 1], hs(n - 1), lower);
      Some(before + tests)
  }

  /** The whole plan raises exactly when the plan of some endpoint does. */
  lemma {:induction false} PlannedRaises(c: Config, miners: seq<Miner>, hs: nat -> Hash, lower: Text -> Text, n: nat)
    requires n <= |miners|
    ensures Planned(c, miners, hs, lower, n).None? <==> exists i :: 0 <= i < n && MinerPlan(c, miners[i], hs(i), lower).None?
  {
    hide MinerPlan;
    if n > 0 {
      PlannedRaises(c, miners, hs, lower, n - 1);
    }
  }

  /** The queue order: block, then address. */
  predicate Earlier(a: Test, b: Test) {
    a.block < b.block || (a.block == b.block && TextLess(a.address, b.address))
  }

  /** Blocks never go down, and within one block addresses do not either. */
  predicate InQueueOrder(tests: seq<Test>) {
    forall i :: 0 < i < |tests| ==>
      && tests[i - 1].block <= tests[i].block
      && (tests[i - 1].block == tests[i].block ==> !TextLess(tests[i].address, tests[i - 1].address))
  }

  lemma OrderExact(tests: seq<Test>)
    ensures NotDescending(Earlier, tests) <==> InQueueOrder(tests)
  {
    forall i | 0 < i < |tests|
      ensures !Earlier(tests[i], tests[i - 1]) <==>
              tests[i - 1].block <= tests[i].block
              && (tests[i - 1].block == tests[i].block ==> !TextLess(tests[i].address, tests[i - 1].address))
    {
    }
  }

  lemma EarlierAsymmetric()
    ensures Asymmetric(Earlier)
  {
    forall a, b | Earlier(a, b)
      ensures !Earlier(b, a)
    {
      TextTrichotomy(a.address, b.address);
    }
  }

  // -------------------------------------------------------------- the scheduler

  method CandidateEvents(c: Config, h: Hash, due: bool) returns (events: seq<Event>)
    requires c.blocks > 0
    ensures events == Events(c, h, due)
  {
    events := [];
    var offset := 0;
    while offset < c.blocks
      invariant 0 <= offset <= c.blocks
      invariant events == Candidates(c, h, offset)
    {
      if IsCandidate(c, h, offset) {
        events := events + [Event(offset, Candidate(offset))];
      }
      offset := offset + 1;
    }
    if due && events == [] {
      events := [Event(Draw(h, Drought, ForcedBlock, c.blocks), Drought)];
    }
  }

  lemma {:induction false} MarkedFails(c: Config, m: Miner, h: Hash, limit: int, cap: int, events: seq<Event>,
                                       forced: Option<nat>, k: nat, n: nat)
    requires k <= n <= |events| && MarkedTests(c, m, h, limit, cap, events, forced, k).None?
    ensures MarkedTests(c, m, h, limit, cap, events, forced, n).None?
    decreases n
  {
    if k < n {
      MarkedFails(c, m, h, limit, cap, events, forced, k, n - 1);
    }
  }

  method PlanHard(c: Config, m: Miner, h: Hash, due: bool) returns (r: Option<seq<Test>>)
    ensures r == HardPlan(c, m, h, due)
  {
    hide Marked, Advertised, HardLimits, Events, ForcedOffset;
    if !HardPolicyOk(c) {
      return None;
    }
    var limits := HardLimits(c, m);
    if limits.None? {
      return None;
    }
    var (limit, cap) := limits.value;
    var light := Advertised(c, m, h, 0);
    if light.None? {
      return None;
    }
    var tests := [light.value];
    var events := CandidateEvents(c, h, due);
    assert due ==> |events| > 0 by { DueHasEvent(c, h); }
    var forced := ForcedOffset(h, due, events);
    var i := 0;
    while i < |events|
      invariant 0 <= i <= |events|
      invariant MarkedTests(c, m, h, limit, cap, events, forced, i).Some?
      invariant tests == [light.value] + MarkedTests(c, m, h, limit, cap, events, forced, i).value
    {
      var test := Marked(c, m, h, limit, cap, events[i], forced, i + 1);
      if test.None? {
        MarkedFails(c, m, h, limit, cap, events, forced, i + 1, |events|);
        return None;
      }
      tests := tests + [test.value];
      i := i + 1;
    }
    return Some(tests);
  }

  lemma DueHasEvent(c: Config, h: Hash)
    requires c.blocks >= 0
    ensures |Events(c, h, true)| > 0
  {
  }

  lemma {:induction false} LightFails(c: Config, m: Miner, h: Hash, k: nat, n: nat)
    requires k <= n && LightPlan(c, m, h, k).None?
    ensures LightPlan(c, m, h, n).None?
    decreases n
  {
    if k < n {
      LightFails(c, m, h, k, n - 1);
    }
  }

  method PlanLight(c: Config, m: Miner, h: Hash) returns (r: Option<seq<Test>>)
    ensures r == LightPlan(c, m, h, LightCount(c))
  {
    hide SmallTest, Advertised;
    var tests: seq<Test> := [];
    var index := 0;
    while index < c.smallCount
      invariant 0 <= index <= Max(0, c.smallCount)
      invariant LightPlan(c, m, h, index) == Some(tests)
    {
      var test := SmallTest(c, m, h, index);
      index := index + 1;
      if test.None? {
        LightFails(c, m, h, index, LightCount(c));
        return None;
      }
      tests := tests + [test.value];
    }
    var lightFull := c.advertisedLightCount + c.fullContextCount;
    var k := 0;
    while k < lightFull
      invariant 0 <= k <= Max(0, lightFull) && index == Max(0, c.smallCount) + k
      invariant LightPlan(c, m, h, index) == Some(tests)
    {
      var test := Advertised(c, m, h, index);
      index := index + 1;
      k := k + 1;
      if test.None? {
        LightFails(c, m, h, index, LightCount(c));
        return None;
      }
      tests := tests + [test.value];
    }
    return Some(tests);
  }

  class CanaryScheduler {
    const config: Config
    const lower: Text -> Text
    var tests: seq<Test>

    constructor (config: Config, lower: Text -> Text)
      ensures this.config == config && this.lower == lower && tests == []
    {
      this.config := config;
      this.lower := lower;
      tests := [];
    }

    /** `plan_epoch`; after an exception the queue holds what was planned so
        far. */
    method PlanEpoch(miners: seq<Miner>, hs: nat -> Hash) returns (ok: bool)
      modifies this
      ensures ok <==> Planned(config, miners, hs, lower, |miners|).Some?
      ensures ok ==> multiset(tests) == multiset(Planned(config, miners, hs, lower, |miners|).value)
      ensures ok ==> tests == Sort(Earlier, Planned(config, miners, hs, lower, |miners|).value)
      ensures ok ==> InQueueOrder(tests)
    {
      hide HardPlan, LightPlan, Sort, Earlier, IsDue, LightCount;
      tests := [];
      var i := 0;
      while i < |miners|
        invariant 0 <= i <= |miners|
        invariant Planned(config, miners, hs, lower, i) == Some(tests)
      {
        var planned: Option<seq<Test>>;
        if config.hardAudit {
          planned := PlanHard(config, miners[i], hs(i), IsDue(config, lower, miners[i]));
        } else {
          planned := PlanLight(config, miners[i], hs(i));
        }
        if planned.None? {
          PlanFails(config, miners, hs, lower, i + 1, |miners|);
          return false;
        }
        tests := tests + planned.value;
        i := i + 1;
      }
      EarlierAsymmetric();
      SortSorts(Earlier, tests);
      tests := Sort(Earlier, tests);
      OrderExact(tests);
      return true;
    }

    /** `get_pending_tests` */
    method GetPendingTests(currentBlock: int) returns (pending: seq<Test>)
      modifies this
      ensures pending == Due(old(tests), currentBlock)
      ensures tests == Later(old(tests), currentBlock)
    {
      pending := [];
      var rest: seq<Test> := [];
      var i := 0;
      while i < |tests|
        invariant 0 <= i <= |tests| && tests == old(tests)
        invariant pending == Due(tests[..i], currentBlock) && rest == Later(tests[..i], currentBlock)
      {
        assert tests[..i + 1][..i] == tests[..i];
        if tests[i].block <= currentBlock {
          pending := pending + [tests[i]];
        } else {
          rest := rest + [tests[i]];
        }
        i := i + 1;
      }
      assert tests[..|tests|] == tests;
      tests := rest;
    }

    /** `reschedule`, with the retry's draw; None is the exception of a reserve
        that does not fit. */
    method Reschedule(test: Test, currentBlock: int, draw: nat) returns (r: Option<bool>)
      modifies this
      ensures match Retry(config, test, currentBlock, draw)
              case None => r == None && tests == old(tests)
              case Some(None) => r == Some(false) && tests == old(tests)
              case Some(Some(moved)) => r == Some(true) && tests == Sort(Earlier, old(tests) + [moved])
      ensures r == Some(true) ==> InQueueOrder(tests)
    {
      hide Sort, Earlier;
      var reserve := if test.kind.FullContext? then config.fullReserve else config.lowReserve;
      var last := Latest(config, reserve);
      if last.None? {
        return None;
      }
      var first := currentBlock + 1;
      if first > last.value {
        return Some(false);
      }
      var width := last.value - first + 1;
      assert width == last.value - currentBlock;
      tests := tests + [test.(block := first + draw % width)];
      EarlierAsymmetric();
      SortSorts(Earlier, tests);
      tests := Sort(Earlier, tests);
      OrderExact(tests);
      return Some(true);
    }
  }

  lemma {:induction false} PlanFails(c: Config, miners: seq<Miner>, hs: nat -> Hash, lower: Text -> Text, k: nat, n: nat)
    requires k <= n <= |miners| && Planned(c, miners, hs, lower, k).None?
    ensures Planned(c, miners, hs, lower, n).None?
    decreases n
  {
    if k < n {
      PlanFails(c, miners, hs, lower, k, n - 1);
    }
  }

  // ------------------------------------------------------------ plan properties

  predicate InEpoch(c: Config, block: int) {
    c.start <= block < c.start + c.blocks
  }

  /** A marked test keeps the signed limits: its decode is within the cap, prompt
      and decode are within the context, and the output it demands can be
      reached. */
  predicate Fits(limits: (int, int), t: Test) {
    var (limit, cap) := limits;
    t.target >= 1 && 1 <= t.maxNew <= cap && t.target + t.maxNew <= limit && 0 <= t.minimumOutput <= t.maxNew
  }

  /** The limits of an endpoint: never above its own context, and for a model
      with signed limits never above those. */
  lemma LimitsFit(c: Config, m: Miner)
    requires HardLimits(c, m).Some?
    ensures var (limit, cap) := HardLimits(c, m).value;
            && 1 <= cap < limit <= m.maxContext
            && (LimitOf(c.contextLimits, m.modelId) > 1 && LimitOf(c.decodeLimits, m.modelId) > 0 ==>
                  limit <= LimitOf(c.contextLimits, m.modelId) && cap <= LimitOf(c.decodeLimits, m.modelId))
            && (LimitOf(c.contextLimits, m.modelId) <= 1 || LimitOf(c.decodeLimits, m.modelId) <= 0 ==>
                  cap <= Max(1, c.lowMaxDecode))
  {
  }

  /** And they are the largest such numbers: the context is bounded by nothing else,
      and the decode only by the context, the signed cap or, without one, the
      common maximum. */
  lemma LimitsLargest(c: Config, m: Miner, x: int)
    requires HardLimits(c, m).Some? && x >= 1
    ensures var (limit, cap) := HardLimits(c, m).value;
            var signedContext, signedDecode := LimitOf(c.contextLimits, m.modelId), LimitOf(c.decodeLimits, m.modelId);
            var signed := signedContext > 1 && signedDecode > 0;
            && (x <= limit <==> x <= m.maxContext && (signed ==> x <= signedContext))
            && (x <= cap <==> x < limit && (if signed then x <= signedDecode else x <= 1 || x <= c.lowMaxDecode))
  {
  }

  /** A model's signed limit, zero when there is none. */
  lemma LimitSigned(limits: map<string, int>, model: string)
    ensures model in limits ==> LimitOf(limits, model) == limits[model]
    ensures model !in limits ==> LimitOf(limits, model) == 0
  {
  }

  /** There is no plan for an endpoint exactly when its limits leave no room for
      a prompt token and a decode token. */
  lemma LimitsExactly(c: Config, m: Miner)
    ensures HardLimits(c, m).None? <==> m.maxContext <= 1
  {
  }

  lemma MarkedFits(c: Config, m: Miner, h: Hash, limit: int, cap: int, e: Event, forced: Option<nat>, index: nat)
    requires 1 <= cap < limit && 0 < c.lateBps <= 10_000
    requires Marked(c, m, h, limit, cap, e, forced, index).Some?
    ensures var t := Marked(c, m, h, limit, cap, e, forced, index).value;
            && Fits((limit, cap), t) && t.block == c.start + e.offset && t.index == index
            && t.address == m.address && t.modelIndex == m.modelIndex
            && (forced == Some(e.offset) ==> t.verifyProof)
  {
    hide Tokens, CategoryOf;
    var category := CategoryOf(h, e.seed, c.anchorBps, c.tailBps).value;
    TokensInRange(h, e.seed, category, cap, c.lowMaxDecode);
    var maxNew := Tokens(h, e.seed, category, cap, c.lowMaxDecode).value;
    SafeTargetFits(c, limit, maxNew);
    MinimumReachable(c, maxNew);
  }

  /** The output a late decode must show is no more than it may produce. */
  lemma MinimumReachable(c: Config, maxNew: int)
    requires maxNew >= 1 && 0 < c.lateBps <= 10_000
    ensures 0 <= MinimumOutput(c, maxNew) <= maxNew
  {
    assert maxNew * c.lateBps <= maxNew * 10_000;
  }

  /** A decode is late when it is longer than the common maximum; then the demanded
      output is the least number that reaches the late rate of it, otherwise
      none. */
  lemma MinimumExactly(c: Config, maxNew: int)
    requires maxNew >= 1 && 0 < c.lateBps <= 10_000
    ensures maxNew <= c.lowMaxDecode ==> MinimumOutput(c, maxNew) == 0
    ensures maxNew > c.lowMaxDecode ==>
              var least := MinimumOutput(c, maxNew);
              least * 10_000 >= maxNew * c.lateBps && (least - 1) * 10_000 < maxNew * c.lateBps
  {
    assert maxNew * c.lateBps > 0;
  }

  /** A marked test, field by field: the length is drawn in the drawn category, the
      prompt is the safe target for it, and a proof is verified exactly for the
      forced block or by the hard draw. */
  lemma MarkedExactly(c: Config, m: Miner, h: Hash, limit: int, cap: int, e: Event, forced: Option<nat>, index: nat)
    requires Marked(c, m, h, limit, cap, e, forced, index).Some?
    ensures var t := Marked(c, m, h, limit, cap, e, forced, index).value;
            && t.kind == FullContext && t.block == c.start + e.offset && t.index == index
            && t.address == m.address && t.modelIndex == m.modelIndex
            && CategoryOf(h, e.seed, c.anchorBps, c.tailBps).Some?
            && Tokens(h, e.seed, CategoryOf(h, e.seed, c.anchorBps, c.tailBps).value, cap, c.lowMaxDecode) == Some(t.maxNew)
            && t.target == SafeTarget(c, limit, t.maxNew) && t.minimumOutput == MinimumOutput(c, t.maxNew)
            && (t.verifyProof <==> forced == Some(e.offset) || h(e.seed, HardMark) % 10_000 < c.hardBps)
  {
    hide Tokens, CategoryOf, SafeTarget, MinimumOutput;
  }

  /** Of the 10,000 values of the hard draw exactly the hard rate marks a test that
      is not forced. */
  lemma HardShare(c: Config, m: Miner, h: Hash, limit: int, cap: int, e: Event, forced: Option<nat>, index: nat)
    requires Marked(c, m, h, limit, cap, e, forced, index).Some? && forced != Some(e.offset) && 0 <= c.hardBps <= 10_000
    ensures forall d: nat :: Marked(c, m, With(h, e.seed, HardMark, d), limit, cap, e, forced, index).Some?
    ensures |set d: nat | d < 10_000 && Marked(c, m, With(h, e.seed, HardMark, d), limit, cap, e, forced, index).value.verifyProof|
         == c.hardBps
  {
    forall d: nat
      ensures Marked(c, m, With(h, e.seed, HardMark, d), limit, cap, e, forced, index).Some?
    {
      OtherDraws(c, h, e.seed, d, cap);
    }
    forall d: nat | d < 10_000
      ensures Marked(c, m, With(h, e.seed, HardMark, d), limit, cap, e, forced, index).value.verifyProof <==> d < c.hardBps
    {
      MarkedExactly(c, m, With(h, e.seed, HardMark, d), limit, cap, e, forced, index);
    }
    hide Marked;
    RangeSize((set d: nat | d < 10_000 && Marked(c, m, With(h, e.seed, HardMark, d), limit, cap, e, forced, index).value.verifyProof),
              0, c.hardBps);
  }

  /** The hard draw enters no other field. */
  lemma OtherDraws(c: Config, h: Hash, seed: Seed, d: nat, cap: int)
    ensures CategoryOf(With(h, seed, HardMark, d), seed, c.anchorBps, c.tailBps) == CategoryOf(h, seed, c.anchorBps, c.tailBps)
    ensures forall category :: Tokens(With(h, seed, HardMark, d), seed, category, cap, c.lowMaxDecode)
                            == Tokens(h, seed, category, cap, c.lowMaxDecode)
  {
    hide Bands, Anchors;
  }

  /** Of the values of a block's candidate draw, one for each block of the epoch,
      exactly the candidate target makes it a candidate. */
  lemma CandidateShare(c: Config, h: Hash, offset: nat)
    requires 0 <= c.candidateTarget <= c.blocks
    ensures |set d: nat | d < c.blocks && IsCandidate(c, With(h, Candidate(offset), CandidateEvent, d), offset)| == c.candidateTarget
  {
    RangeSize((set d: nat | d < c.blocks && IsCandidate(c, With(h, Candidate(offset), CandidateEvent, d), offset)), 0, c.candidateTarget);
  }

  /** Every candidate of a due endpoint can be the forced one, and without
      candidates every block of the epoch can get one. */
  lemma ForcedReaches(c: Config, h: Hash, k: nat, events: seq<Event>)
    requires c.blocks > 0
    ensures k < |events| ==> ForcedOffset(With(h, DroughtSelect, ForcedIndex, k), true, events) == Some(events[k].offset)
    ensures Candidates(c, h, c.blocks) == [] && k < c.blocks ==>
              Events(c, With(h, Drought, ForcedBlock, k), true) == [Event(k, Drought)]
  {
    CandidatesUnchanged(c, h, k, c.blocks);
    hide Candidates;
    if k < |events| {
      DrawIs(With(h, DroughtSelect, ForcedIndex, k), DroughtSelect, ForcedIndex, |events|);
    }
    if k < c.blocks {
      DrawIs(With(h, Drought, ForcedBlock, k), Drought, ForcedBlock, c.blocks);
    }
    hide Draw;
  }

  lemma {:induction false} CandidatesUnchanged(c: Config, h: Hash, k: nat, n: nat)
    ensures Candidates(c, With(h, Drought, ForcedBlock, k), n) == Candidates(c, h, n)
    decreases n
  {
    if n > 0 {
      CandidatesUnchanged(c, h, k, n - 1);
    }
  }

  lemma {:induction false} MarkedTestsFit(c: Config, m: Miner, h: Hash, limit: int, cap: int, events: seq<Event>,
                                          forced: Option<nat>, n: nat)
    requires 1 <= cap < limit && 0 < c.lateBps <= 10_000 && n <= |events|
    requires MarkedTests(c, m, h, limit, cap, events, forced, n).Some?
    ensures var tests := MarkedTests(c, m, h, limit, cap, events, forced, n).value;
            forall i :: 0 <= i < n ==>
              && Fits((limit, cap), tests[i]) && tests[i].block == c.start + events[i].offset && tests[i].index == i + 1
              && tests[i].address == m.address && tests[i].modelIndex == m.modelIndex
              && (forced == Some(events[i].offset) ==> tests[i].verifyProof)
    decreases n
  {
    hide Marked, Fits;
    if n > 0 {
      MarkedTestsFit(c, m, h, limit, cap, events, forced, n - 1);
      MarkedFits(c, m, h, limit, cap, events[n - 1], forced, n);
    }
  }

  lemma {:induction false} CandidatesOrdered(c: Config, h: Hash, n: nat)
    ensures forall i :: 0 <= i < |Candidates(c, h, n)| ==> Candidates(c, h, n)[i].offset < n
    ensures forall i, j :: 0 <= i < j < |Candidates(c, h, n)| ==> Candidates(c, h, n)[i].offset < Candidates(c, h, n)[j].offset
    ensures forall k: nat :: k < n && IsCandidate(c, h, k) ==> Event(k, Candidate(k)) in Candidates(c, h, n)
    decreases n
  {
    hide IsCandidate;
    if n > 0 {
      CandidatesOrdered(c, h, n - 1);
    }
  }

  lemma EventsOrdered(c: Config, h: Hash, due: bool)
    requires c.blocks > 0
    ensures var events := Events(c, h, due);
            && (due ==> |events| > 0)
            && (forall i :: 0 <= i < |events| ==> events[i].offset < c.blocks)
            && (forall i, j :: 0 <= i < j < |events| ==> events[i].offset < events[j].offset)
  {
    CandidatesOrdered(c, h, c.blocks);
  }

  /** What a hard-audit plan of one endpoint is: a light request first, then
      marked tests at rising blocks, all in the epoch, each within the endpoint's
      limits; one of them verifies a proof when the endpoint is due. */
  ghost predicate Audits(c: Config, m: Miner, due: bool, tests: seq<Test>) {
    && HardLimits(c, m).Some?
    && |tests| >= 1 && !tests[0].verifyProof
    && (forall i :: 0 <= i < |tests| ==>
          InEpoch(c, tests[i].block) && tests[i].index == i && tests[i].address == m.address
          && tests[i].modelIndex == m.modelIndex)
    && (forall i :: 1 <= i < |tests| ==> Fits(HardLimits(c, m).value, tests[i]))
    && (forall i, j :: 1 <= i < j < |tests| ==> tests[i].block < tests[j].block)
    && (due ==> exists i :: 1 <= i < |tests| && tests[i].verifyProof)
  }

  lemma HardPlanAudits(c: Config, m: Miner, h: Hash, due: bool)
    requires HardPlan(c, m, h, due).Some?
    ensures Audits(c, m, due, HardPlan(c, m, h, due).value)
  {
    hide HardLimits, MarkedTests, Events, BlockFor;
    var (limit, cap) := HardLimits(c, m).value;
    LimitsFit(c, m);
    var events := Events(c, h, due);
    EventsOrdered(c, h, due);
    var forced := ForcedOffset(h, due, events);
    MarkedTestsFit(c, m, h, limit, cap, events, forced, |events|);
    var marked := MarkedTests(c, m, h, limit, cap, events, forced, |events|).value;
    BlockInWindow(c, h, 0, c.fullReserve);
    var tests := HardPlan(c, m, h, due).value;
    assert forall i :: 1 <= i < |tests| ==> tests[i] == marked[i - 1];
    if due {
      var k := Draw(h, DroughtSelect, ForcedIndex, |events|);
      assert tests[k + 1].verifyProof;
    }
  }

  // ------------------------------------------------------ marks and the reserve

  /** Every marked test leaves the completion reserve of its kind. */
  ghost predicate LeavesReserve(c: Config, tests: seq<Test>) {
    forall i :: 1 <= i < |tests| ==> tests[i].block <= c.start + c.blocks - c.fullReserve
  }

  /** The rates that the category draw accepts. */
  predicate RatesOk(c: Config) {
    c.anchorBps >= MIN_ANCHOR_BPS && c.tailBps >= MIN_TAIL_BPS && c.anchorBps + c.tailBps < 10_000
  }

  lemma MarkedSome(c: Config, m: Miner, h: Hash, limit: int, cap: int, e: Event, forced: Option<nat>, index: nat)
    requires RatesOk(c) && cap > 0
    ensures Marked(c, m, h, limit, cap, e, forced, index).Some?
    ensures Marked(c, m, h, limit, cap, e, forced, index).value.block == c.start + e.offset
  {
    hide Tokens, SafeTarget, MinimumOutput;
    TokensInRange(h, e.seed, CategoryOf(h, e.seed, c.anchorBps, c.tailBps).value, cap, c.lowMaxDecode);
  }

  lemma {:induction false} MarkedAll(c: Config, m: Miner, h: Hash, limit: int, cap: int, events: seq<Event>,
                                     forced: Option<nat>, n: nat)
    requires RatesOk(c) && cap > 0 && n <= |events|
    ensures var marked := MarkedTests(c, m, h, limit, cap, events, forced, n);
            marked.Some? && forall i :: 0 <= i < n ==> marked.value[i].block == c.start + events[i].offset
    decreases n
  {
    hide Marked;
    if n > 0 {
      MarkedAll(c, m, h, limit, cap, events, forced, n - 1);
      MarkedSome(c, m, h, limit, cap, events[n - 1], forced, n);
      MarkedStep(c, m, h, limit, cap, events, forced, n);
    }
  }

  lemma MarkedStep(c: Config, m: Miner, h: Hash, limit: int, cap: int, events: seq<Event>, forced: Option<nat>, n: nat)
    requires 0 < n <= |events| && MarkedTests(c, m, h, limit, cap, events, forced, n - 1).Some?
    requires Marked(c, m, h, limit, cap, events[n - 1], forced, n).Some?
    ensures MarkedTests(c, m, h, limit, cap, events, forced, n)
         == Some(MarkedTests(c, m, h, limit, cap, events, forced, n - 1).value
                 + [Marked(c, m, h, limit, cap, events[n - 1], forced, n).value])
  {
  }

  /** With every draw zero there is a candidate at the last block. */
  lemma LastBlockMarked(c: Config, m: Miner)
    requires HardPolicyOk(c) && RatesOk(c) && Latest(c, c.fullReserve).Some? && m.maxContext > 1
    ensures var plan := HardPlan(c, m, (_, _) => 0, false);
            plan.Some? && |plan.value| > 1 && plan.value[|plan.value| - 1].block == c.start + c.blocks - 1
  {
    var h: Hash := (_, _) => 0;
    LimitsExactly(c, m);
    LimitsFit(c, m);
    var (limit, cap) := HardLimits(c, m).value;
    var events := Events(c, h, false);
    assert IsCandidate(c, h, c.blocks - 1);
    assert events == Candidates(c, h, c.blocks - 1) + [Event(c.blocks - 1, Candidate(c.blocks - 1))];
    hide HardLimits, Events, Candidates;
    MarkedAll(c, m, h, limit, cap, events, None, |events|);
    hide MarkedTests;
    assert Advertised(c, m, h, 0).Some?;
    hide Advertised;
    assert HardPlan(c, m, h, false)
        == Some([Advertised(c, m, h, 0).value] + MarkedTests(c, m, h, limit, cap, events, None, |events|).value);
  }

  /** The light request and every retry leave the completion reserve; the marked
      tests of every endpoint and every draw do exactly when the reserve is the
      single block it must at least be. */
  lemma ReserveExactly(c: Config)
    requires HardPolicyOk(c) && RatesOk(c) && Latest(c, c.fullReserve).Some?
    ensures (forall m: Miner, h: Hash, due: bool ::
               HardPlan(c, m, h, due).Some? ==> LeavesReserve(c, HardPlan(c, m, h, due).value))
            <==> c.fullReserve == 1
  {
    if c.fullReserve == 1 {
      forall m: Miner, h: Hash, due: bool | HardPlan(c, m, h, due).Some?
        ensures LeavesReserve(c, HardPlan(c, m, h, due).value)
      {
        hide HardPlan;
        HardPlanAudits(c, m, h, due);
      }
    } else {
      var m := Miner([], "", 0, 2);
      LastBlockMarked(c, m);
      assert !LeavesReserve(c, HardPlan(c, m, (_, _) => 0, false).value);
    }
  }

  /** Planning one endpoint for the hard audit raises exactly for a policy, a context,
      a reserve or, when there is a candidate, rates that are out of range. */
  lemma HardPlanRaises(c: Config, m: Miner, h: Hash, due: bool)
    ensures HardPlan(c, m, h, due).None? <==>
            || c.smallCount != 0 || c.advertisedLightCount != 1 || c.fullContextCount != 0
            || c.lateBps < 1 || c.lateBps > 10_000 || c.candidateTarget < 1 || c.candidateTarget > c.blocks
            || c.hardBps < 1 || c.hardBps > 9_999
            || m.maxContext <= 1 || c.fullReserve < 1 || c.fullReserve >= c.blocks
            || (Events(c, h, due) != [] && (c.anchorBps < 2500 || c.tailBps < 1000 || c.anchorBps + c.tailBps >= 10_000))
  {
    if HardPolicyOk(c) && HardLimits(c, m).Some? {
      LimitsExactly(c, m);
      LimitsFit(c, m);
      var (limit, cap) := HardLimits(c, m).value;
      var events := Events(c, h, due);
      var forced := ForcedOffset(h, due, events);
      hide HardLimits, Events, ForcedOffset, MarkedTests;
      if RatesOk(c) {
        MarkedAll(c, m, h, limit, cap, events, forced, |events|);
      } else if |events| > 0 {
        FirstRaises(c, m, h, limit, cap, events, forced);
      } else {
        NoneMarked(c, m, h, limit, cap, forced);
        assert events == [];
      }
    } else {
      LimitsExactly(c, m);
    }
  }

  lemma FirstRaises(c: Config, m: Miner, h: Hash, limit: int, cap: int, events: seq<Event>, forced: Option<nat>)
    requires !RatesOk(c) && |events| > 0
    ensures MarkedTests(c, m, h, limit, cap, events, forced, |events|).None?
  {
    hide Tokens;
    assert Marked(c, m, h, limit, cap, events[0], forced, 1).None?;
    hide Marked;
    MarkedFails(c, m, h, limit, cap, events, forced, 1, |events|);
  }

  lemma NoneMarked(c: Config, m: Miner, h: Hash, limit: int, cap: int, forced: Option<nat>)
    ensures MarkedTests(c, m, h, limit, cap, [], forced, 0) == Some([])
  {
  }

  /** The plan of one endpoint is part of the plan of all. */
  lemma {:induction false} PlanHolds(c: Config, miners: seq<Miner>, hs: nat -> Hash, lower: Text -> Text, n: nat, i: nat)
    requires i < n <= |miners| && Planned(c, miners, hs, lower, n).Some?
    ensures MinerPlan(c, miners[i], hs(i), lower).Some?
    ensures forall t :: t in MinerPlan(c, miners[i], hs(i), lower).value ==> t in Planned(c, miners, hs, lower, n).value
    decreases n
  {
    hide MinerPlan;
    if i < n - 1 {
      PlanHolds(c, miners, hs, lower, n - 1, i);
    }
  }

  /** And nothing else is. */
  lemma {:induction false} PlanOnly(c: Config, miners: seq<Miner>, hs: nat -> Hash, lower: Text -> Text, n: nat, t: Test)
    returns (i: nat)
    requires n <= |miners| && Planned(c, miners, hs, lower, n).Some? && t in Planned(c, miners, hs, lower, n).value
    ensures i < n && MinerPlan(c, miners[i], hs(i), lower).Some? && t in MinerPlan(c, miners[i], hs(i), lower).value
    decreases n
  {
    hide MinerPlan;
    var tests := MinerPlan(c, miners[n - 1], hs(n - 1), lower).value;
    if t in tests {
      i := n - 1;
    } else {
      i := PlanOnly(c, miners, hs, lower, n - 1, t);
    }
  }

  /** In every planned hard-audit epoch, every test lies in the epoch and belongs
      to an endpoint whose limits it keeps unless it is that endpoint's light
      request. */
  lemma EveryTestFits(c: Config, miners: seq<Miner>, hs: nat -> Hash, lower: Text -> Text, t: Test) returns (i: nat)
    requires c.hardAudit && Planned(c, miners, hs, lower, |miners|).Some?
    requires t in Sort(Earlier, Planned(c, miners, hs, lower, |miners|).value)
    ensures InEpoch(c, t.block)
    ensures i < |miners| && t.address == miners[i].address && t.modelIndex == miners[i].modelIndex
    ensures HardLimits(c, miners[i]).Some?
    ensures t.index > 0 || t.verifyProof ==> Fits(HardLimits(c, miners[i]).value, t)
  {
    hide HardPlan, InEpoch, Fits, HardLimits;
    var plan := Planned(c, miners, hs, lower, |miners|).value;
    assert t in multiset(Sort(Earlier, plan)) && t in multiset(plan);
    i := PlanOnly(c, miners, hs, lower, |miners|, t);
    HardPlanAudits(c, miners[i], hs(i), IsDue(c, lower, miners[i]));
  }

  /** And every endpoint that is due or on probation has a proof-verified test
      within its limits. */
  lemma EveryDueAudited(c: Config, miners: seq<Miner>, hs: nat -> Hash, lower: Text -> Text, i: nat) returns (t: Test)
    requires c.hardAudit && Planned(c, miners, hs, lower, |miners|).Some?
    requires i < |miners|
    requires (lower(miners[i].address), miners[i].modelIndex) in c.due
          || (lower(miners[i].address), miners[i].modelIndex) in c.probation
    ensures t in Sort(Earlier, Planned(c, miners, hs, lower, |miners|).value)
    ensures HardLimits(c, miners[i]).Some?
    ensures t.verifyProof && InEpoch(c, t.block) && Fits(HardLimits(c, miners[i]).value, t)
    ensures t.address == miners[i].address && t.modelIndex == miners[i].modelIndex
  {
    assert IsDue(c, lower, miners[i]);
    hide HardPlan, InEpoch, Fits, IsDue, HardLimits;
    PlanHolds(c, miners, hs, lower, |miners|, i);
    HardPlanAudits(c, miners[i], hs(i), IsDue(c, lower, miners[i]));
    var tests := MinerPlan(c, miners[i], hs(i), lower).value;
    var k :| 1 <= k < |tests| && tests[k].verifyProof;
    t := tests[k];
    assert t in tests;
    var plan := Planned(c, miners, hs, lower, |miners|).value;
    assert t in plan;
    assert t in multiset(plan) && t in multiset(Sort(Earlier, plan));
  }

  /** For every other endpoint nothing is forced: it has the light request and one
      marked test for each drawn candidate, which verifies a proof by its own hard
      draw only. */
  lemma OthersByDraw(c: Config, m: Miner, h: Hash, lower: Text -> Text)
    requires c.hardAudit && MinerPlan(c, m, h, lower).Some?
    requires (lower(m.address), m.modelIndex) !in c.due && (lower(m.address), m.modelIndex) !in c.probation
    ensures var tests, drawn := MinerPlan(c, m, h, lower).value, Candidates(c, h, c.blocks);
            && |tests| == 1 + |drawn|
            && forall i :: 1 <= i < |tests| ==>
                 && tests[i].block == c.start + drawn[i - 1].offset
                 && (tests[i].verifyProof <==> h(Candidate(drawn[i - 1].offset), HardMark) % 10_000 < c.hardBps)
  {
    assert !IsDue(c, lower, m);
    var (limit, cap) := HardLimits(c, m).value;
    var events := Events(c, h, false);
    assert events == Candidates(c, h, c.blocks);
    hide HardLimits, Events, Advertised;
    MarkedEach(c, m, h, limit, cap, events, None, |events|);
    CandidateSeeds(c, h, c.blocks);
    hide MarkedTests, Candidates;
  }

  lemma {:induction false} CandidateSeeds(c: Config, h: Hash, n: nat)
    ensures forall i :: 0 <= i < |Candidates(c, h, n)| ==> Candidates(c, h, n)[i].seed == Candidate(Candidates(c, h, n)[i].offset)
    decreases n
  {
    if n > 0 {
      CandidateSeeds(c, h, n - 1);
    }
  }

  lemma {:induction false} MarkedEach(c: Config, m: Miner, h: Hash, limit: int, cap: int, events: seq<Event>,
                                      forced: Option<nat>, n: nat)
    requires n <= |events| && MarkedTests(c, m, h, limit, cap, events, forced, n).Some?
    ensures forall i :: 0 <= i < n ==>
              && MarkedTests(c, m, h, limit, cap, events, forced, n).value[i].block == c.start + events[i].offset
              && (MarkedTests(c, m, h, limit, cap, events, forced, n).value[i].verifyProof
                  <==> forced == Some(events[i].offset) || h(events[i].seed, HardMark) % 10_000 < c.hardBps)
    decreases n
  {
    if n > 0 {
      MarkedEach(c, m, h, limit, cap, events, forced, n - 1);
      MarkedExactly(c, m, h, limit, cap, events[n - 1], forced, n);
      hide Marked;
    }
  }

  /** The light request at the advertised context is not held to it: it fits
      exactly when its decode leaves room for one prompt token. */
  lemma AdvertisedFitsExactly(c: Config, m: Miner, h: Hash, index: nat)
    requires Advertised(c, m, h, index).Some? && m.maxContext >= 1
    ensures var t := Advertised(c, m, h, index).value;
            t.target + t.maxNew <= m.maxContext <==> c.fullMaxDecode < m.maxContext
  {
    SafeTargetFits(c, m.maxContext, c.fullMaxDecode);
  }

  /** The sizes of a small test: a prompt of the low range and a decode of 64 to 192
      tokens, within the common maximum but never below 32. */
  predicate SmallSizes(c: Config, t: Test) {
    && (if c.lowMin <= c.lowMax then c.lowMin <= t.target <= c.lowMax else t.target == c.lowMin)
    && 32 <= t.maxNew <= 192 && (t.maxNew <= c.lowMaxDecode || t.maxNew == 32)
    && (t.maxNew >= 64 || t.maxNew == c.lowMaxDecode || t.maxNew == 32)
  }

  /** Outside the hard audit nothing verifies a proof, and every block leaves the
      completion reserve of its kind. */
  lemma {:induction false} LightPlanOk(c: Config, m: Miner, h: Hash, n: nat)
    requires LightPlan(c, m, h, n).Some?
    ensures forall i :: 0 <= i < n ==>
              var t := LightPlan(c, m, h, n).value[i];
              && !t.verifyProof && t.index == i && t.kind == (if i < c.smallCount then Small else FullContext)
              && c.start <= t.block <= c.start + c.blocks - (if i < c.smallCount then c.lowReserve else c.fullReserve)
              && InEpoch(c, t.block) && t.address == m.address && t.modelIndex == m.modelIndex && t.minimumOutput == 0
              && (if i < c.smallCount then SmallSizes(c, t)
                  else t.maxNew == c.fullMaxDecode && t.target == SafeTarget(c, m.maxContext, c.fullMaxDecode))
    decreases n
  {
    hide Draw, SafeTarget;
    if n > 0 {
      LightPlanOk(c, m, h, n - 1);
      BlockInWindow(c, h, n - 1, if n - 1 < c.smallCount then c.lowReserve else c.fullReserve);
    }
  }

  /** Outside the hard audit an endpoint gets its small tests, then those at the
      advertised context; a negative count is none. */
  lemma LightPlanSize(c: Config, m: Miner, h: Hash, lower: Text -> Text)
    requires !c.hardAudit && MinerPlan(c, m, h, lower).Some?
    ensures var tests, full := MinerPlan(c, m, h, lower).value, c.advertisedLightCount + c.fullContextCount;
            && |tests| == (if c.smallCount > 0 then c.smallCount else 0) + (if full > 0 then full else 0)
            && forall i :: 0 <= i < |tests| ==> tests[i].kind == (if i < c.smallCount then Small else FullContext)
  {
    LightPlanOk(c, m, h, LightCount(c));
  }

  /** Such a plan raises exactly when a test is wanted whose reserve is not positive or
      does not fit the epoch. */
  lemma LightPlanRaises(c: Config, m: Miner, h: Hash, lower: Text -> Text)
    requires !c.hardAudit
    ensures MinerPlan(c, m, h, lower).None? <==>
            || (c.smallCount > 0 && !(1 <= c.lowReserve < c.blocks))
            || (c.advertisedLightCount + c.fullContextCount > 0 && !(1 <= c.fullReserve < c.blocks))
  {
    LightRaises(c, m, h, LightCount(c));
  }

  lemma {:induction false} LightRaises(c: Config, m: Miner, h: Hash, n: nat)
    ensures LightPlan(c, m, h, n).None? <==>
            || (c.smallCount > 0 && n > 0 && !(1 <= c.lowReserve < c.blocks))
            || (n > c.smallCount && n > 0 && !(1 <= c.fullReserve < c.blocks))
    decreases n
  {
    hide Draw, SafeTarget;
    if n > 0 {
      LightRaises(c, m, h, n - 1);
    }
  }

  // ------------------------------------------------------------------ the queue

  function Due(tests: seq<Test>, block: int): seq<Test> {
    if |tests| == 0 then []
    else
      var t := tests[|tests| - 1];
      Due(tests[..|tests| - 1], block) + if t.block <= block then [t] else []
  }

  function Later(tests: seq<Test>, block: int): seq<Test> {
    if |tests| == 0 then []
    else
      var t := tests[|tests| - 1];
      Later(tests[..|tests| - 1], block) + if t.block > block then [t] else []
  }

  /** A fresh attempt of a test later in the epoch: None is the exception, and
      Some(None) that no block is left. */
  function Retry(c: Config, t: Test, currentBlock: int, draw: nat): Option<Option<Test>> {
    var last :- Latest(c, if t.kind.FullContext? then c.fullReserve else c.lowReserve);
    if currentBlock + 1 > last then Some(None)
    else Some(Some(t.(block := currentBlock + 1 + draw % (last - currentBlock))))
  }

  /** A retry is the same test at a block after the current one that still leaves
      its completion reserve. */
  lemma RetryInWindow(c: Config, t: Test, currentBlock: int, draw: nat)
    requires Retry(c, t, currentBlock, draw).Some? && Retry(c, t, currentBlock, draw).value.Some?
    ensures var moved := Retry(c, t, currentBlock, draw).value.value;
            && moved == t.(block := moved.block)
            && currentBlock < moved.block <= c.start + c.blocks - (if t.kind.FullContext? then c.fullReserve else c.lowReserve)
            && moved.block < c.start + c.blocks
  {
  }

  /** A retry is refused for a reserve that is not positive or does not fit the epoch,
      impossible once the last block is reached, and otherwise can land on every later
      block of the window. */
  lemma RetryExactly(c: Config, t: Test, currentBlock: int, block: int)
    ensures var reserve := if t.kind.FullContext? then c.fullReserve else c.lowReserve;
            var last := c.start + c.blocks - reserve;
            && (forall draw :: Retry(c, t, currentBlock, draw).None? <==> reserve < 1 || reserve >= c.blocks)
            && (forall draw :: Retry(c, t, currentBlock, draw) == Some(None) <==> 1 <= reserve < c.blocks && currentBlock >= last)
            && ((exists draw :: Retry(c, t, currentBlock, draw) == Some(Some(t.(block := block)))) <==>
                1 <= reserve < c.blocks && currentBlock < block <= last)
  {
    var reserve := if t.kind.FullContext? then c.fullReserve else c.lowReserve;
    if 1 <= reserve < c.blocks && currentBlock < block <= c.start + c.blocks - reserve {
      var draw: nat := block - currentBlock - 1;
      assert Retry(c, t, currentBlock, draw) == Some(Some(t.(block := block)));
    }
  }

  /** A test apart from the block it currently waits for. */
  function Obligation(t: Test): Test {
    t.(block := 0)
  }

  function Obligations(tests: seq<Test>): (r: seq<Test>) {
    Mapped(Obligation, tests)
  }

  /** The queue and the tests that have been handed out. */
  datatype Flow = Flow(queue: seq<Test>, out: seq<Test>)

  datatype Move =
    | Collect(block: int)
    | Return(index: nat, block: int, draw: nat) // the handed-out test at that place

  function Moved(c: Config, f: Flow, m: Move): Flow {
    match m
    case Collect(block) => Flow(Later(f.queue, block), f.out + Due(f.queue, block))
    case Return(i, block, draw) =>
      if i >= |f.out| then f
      else match Retry(c, f.out[i], block, draw)
        case Some(Some(t)) => Flow(Sort(Earlier, f.queue + [t]), f.out[..i] + f.out[i + 1..])
        case _ => f
  }

  function Run(c: Config, f: Flow, moves: seq<Move>): Flow
    decreases |moves|
  {
    if |moves| == 0 then f else Run(c, Moved(c, f, moves[0]), moves[1..])
  }

  ghost function Held(f: Flow): multiset<Test> {
    multiset(Obligations(f.queue)) + multiset(Obligations(f.out))
  }

  lemma ObligationsConcat(a: seq<Test>, b: seq<Test>)
    ensures multiset(Obligations(a + b)) == multiset(Obligations(a)) + multiset(Obligations(b))
  {
    assert Obligations(a + b) == Obligations(a) + Obligations(b);
  }

  lemma {:induction false} DueAndLater(tests: seq<Test>, block: int)
    ensures forall t :: t in Due(tests, block) ==> t in tests && t.block <= block
    ensures forall t :: t in Later(tests, block) ==> t in tests && t.block > block
    decreases |tests|
  {
    if |tests| > 0 {
      DueAndLater(tests[..|tests| - 1], block);
    }
  }

  lemma {:induction false} SplitByBlock(tests: seq<Test>, block: int)
    ensures multiset(Obligations(Due(tests, block))) + multiset(Obligations(Later(tests, block))) == multiset(Obligations(tests))
    decreases |tests|
  {
    hide Obligations;
    if |tests| == 0 {
      assert Due(tests, block) == Later(tests, block) == tests;
      assert |Obligations(tests)| == 0 by { NoObligations(); }
    } else {
      var rest, t := tests[..|tests| - 1], tests[|tests| - 1];
      SplitByBlock(rest, block);
      assert tests == rest + [t];
      ObligationsConcat(rest, [t]);
      if t.block <= block {
        ObligationsConcat(Due(rest, block), [t]);
        assert Later(tests, block) == Later(rest, block);
      } else {
        ObligationsConcat(Later(rest, block), [t]);
        assert Due(tests, block) == Due(rest, block);
      }
    }
  }

  lemma NoObligations()
    ensures Obligations([]) == []
  {
  }

  lemma MoveConserves(c: Config, f: Flow, m: Move)
    ensures Held(Moved(c, f, m)) == Held(f)
  {
    match m
    case Collect(block) =>
      hide Obligations;
      SplitByBlock(f.queue, block);
      ObligationsConcat(f.out, Due(f.queue, block));
    case Return(i, block, draw) =>
      if i < |f.out| && Retry(c, f.out[i], block, draw).Some? && Retry(c, f.out[i], block, draw).value.Some? {
        var t := Retry(c, f.out[i], block, draw).value.value;
        RetryInWindow(c, f.out[i], block, draw);
        MappedMultiset(Obligation, Sort(Earlier, f.queue + [t]), f.queue + [t]);
        ObligationsConcat(f.queue, [t]);
        assert Obligations([t]) == [Obligation(t)];
        MappedRemoval(Obligation, f.out, i);
      }
  }

  /** Over any run of collections and retries no obligation is lost or doubled. */
  lemma {:induction false} RunConserves(c: Config, f: Flow, moves: seq<Move>)
    ensures Held(Run(c, f, moves)) == Held(f)
    decreases |moves|
  {
    hide Held, Moved;
    if |moves| > 0 {
      MoveConserves(c, f, moves[0]);
      RunConserves(c, Moved(c, f, moves[0]), moves[1..]);
    }
  }

  /** Over any run from a plan inside the epoch, everything still queued waits for
      a block of the epoch. */
  lemma {:induction false} RunStaysInEpoch(c: Config, f: Flow, moves: seq<Move>)
    requires forall t :: t in f.queue ==> InEpoch(c, t.block)
    requires forall i :: 0 <= i < |moves| ==> moves[i].block >= c.start - 1
    ensures forall t :: t in Run(c, f, moves).queue ==> InEpoch(c, t.block)
    decreases |moves|
  {
    if |moves| > 0 {
      MoveStaysInEpoch(c, f, moves[0]);
      hide Moved;
      RunStaysInEpoch(c, Moved(c, f, moves[0]), moves[1..]);
    }
  }

  lemma SortedMembers(tests: seq<Test>, t: Test)
    requires t in Sort(Earlier, tests)
    ensures t in tests
  {
    assert t in multiset(Sort(Earlier, tests)) && t in multiset(tests);
  }

  lemma MoveStaysInEpoch(c: Config, f: Flow, m: Move)
    requires forall t :: t in f.queue ==> InEpoch(c, t.block)
    requires m.block >= c.start - 1
    ensures forall t :: t in Moved(c, f, m).queue ==> InEpoch(c, t.block)
  {
    hide Sort, Earlier;
    if m.Collect? {
      DueAndLater(f.queue, m.block);
    } else if m.index < |f.out| && Moved(c, f, m) != f {
      RetryInWindow(c, f.out[m.index], m.block, m.draw);
      var t := Retry(c, f.out[m.index], m.block, m.draw).value.value;
      hide Retry;
      forall x | x in Sort(Earlier, f.queue + [t])
        ensures InEpoch(c, x.block)
      {
        SortedMembers(f.queue + [t], x);
      }
    }
  }

  /** Once a test stays, every test behind it stays. */
  lemma LaterStays(tests: seq<Test>, block: int)
    requires NotDescending(Earlier, tests) && |tests| > 1
    requires tests[|tests| - 2].block > block
    ensures tests[|tests| - 1].block > block
  {
    assert !Earlier(tests[|tests| - 1], tests[|tests| - 2]);
  }

  /** In an ordered queue what is due is its front, and the rest stays. */
  lemma {:induction false} CollectSplits(tests: seq<Test>, block: int) returns (k: nat)
    requires NotDescending(Earlier, tests)
    ensures k <= |tests| && Due(tests, block) == tests[..k] && Later(tests, block) == tests[k..]
    decreases |tests|
  {
    if |tests| == 0 {
      k := 0;
    } else {
      var rest, t := tests[..|tests| - 1], tests[|tests| - 1];
      assert NotDescending(Earlier, rest);
      k := CollectSplits(rest, block);
      if k < |rest| {
        DueAndLater(rest, block);
        assert rest[|rest| - 1] == Later(rest, block)[|rest| - 1 - k];
        LaterStays(tests, block);
      }
      SplitOneMore(tests, block, k);
      k := if t.block <= block then |tests| else k;
    }
  }

  lemma SplitOneMore(tests: seq<Test>, block: int, k: nat)
    requires k < |tests|
    requires tests[|tests| - 1].block <= block ==> k == |tests| - 1
    requires Due(tests[..|tests| - 1], block) == tests[..|tests| - 1][..k]
    requires Later(tests[..|tests| - 1], block) == tests[..|tests| - 1][k..]
    ensures var split := if tests[|tests| - 1].block <= block then |tests| else k;
            Due(tests, block) == tests[..split] && Later(tests, block) == tests[split..]
  {
    var rest, t := tests[..|tests| - 1], tests[|tests| - 1];
    assert Due(tests, block) == Due(rest, block) + if t.block <= block then [t] else [];
    assert Later(tests, block) == Later(rest, block) + if t.block > block then [t] else [];
    hide Due, Later;
    SliceFront(tests, k);
  }

  lemma SliceFront(tests: seq<Test>, k: nat)
    requires k < |tests|
    ensures tests[..|tests| - 1][..k] + [] == tests[..k]
    ensures tests[..|tests| - 1][k..] + [tests[|tests| - 1]] == tests[k..]
    ensures k == |tests| - 1 ==> tests[..|tests| - 1][..k] + [tests[k]] == tests[..|tests|]
    ensures k == |tests| - 1 ==> tests[..|tests| - 1][k..] + [] == tests[|tests|..]
  {
  }

  lemma CollectOrdered(tests: seq<Test>, block: int)
    requires NotDescending(Earlier, tests)
    ensures NotDescending(Earlier, Later(tests, block)) && Due(tests, block) <= tests
  {
    var k := CollectSplits(tests, block);
    hide Earlier, Due, Later;
  }

  /** What is collected is due and what stays is not. */
  lemma CollectExact(c: Config, f: Flow, block: int)
    ensures forall t :: t in Moved(c, f, Collect(block)).queue ==> t.block > block
    ensures forall t :: t in f.queue && t.block <= block ==> t in Moved(c, f, Collect(block)).out
  {
    DueAndLater(f.queue, block);
    forall t | t in f.queue && t.block <= block
      ensures t in Due(f.queue, block)
    {
      DueComplete(f.queue, block, t);
    }
  }

  lemma MoveKeepsOrder(c: Config, f: Flow, m: Move)
    requires NotDescending(Earlier, f.queue)
    ensures NotDescending(Earlier, Moved(c, f, m).queue)
  {
    hide Earlier, Sort, Due, Later, NotDescending;
    match m
    case Collect(block) =>
      CollectOrdered(f.queue, block);
    case Return(i, block, draw) =>
      if i < |f.out| && Retry(c, f.out[i], block, draw).Some? && Retry(c, f.out[i], block, draw).value.Some? {
        EarlierAsymmetric();
        SortSorts(Earlier, f.queue + [Retry(c, f.out[i], block, draw).value.value]);
      }
  }

  /** Over any run from an ordered queue the queue stays in order, so each
      collection takes the tests at its front. */
  lemma {:induction false} RunKeepsOrder(c: Config, f: Flow, moves: seq<Move>)
    requires NotDescending(Earlier, f.queue)
    ensures NotDescending(Earlier, Run(c, f, moves).queue)
    ensures forall block :: Due(Run(c, f, moves).queue, block) <= Run(c, f, moves).queue
    decreases |moves|
  {
    hide Earlier, Moved;
    if |moves| > 0 {
      MoveKeepsOrder(c, f, moves[0]);
      RunKeepsOrder(c, Moved(c, f, moves[0]), moves[1..]);
    } else {
      forall block
        ensures Due(f.queue, block) <= f.queue
      {
        CollectOrdered(f.queue, block);
      }
    }
  }

  lemma {:induction false} DueComplete(tests: seq<Test>, block: int, t: Test)
    requires t in tests && t.block <= block
    ensures t in Due(tests, block)
    decreases |tests|
  {
    if tests[|tests| - 1] != t {
      DueComplete(tests[..|tests| - 1], block, t);
    }
  }
}
