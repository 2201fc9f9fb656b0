/** The memory transition of the A/B state and its sampled opening. */
module WorkspaceTransition {
  import opened Arithmetic
  import opened Bits
  import opened ByteStrings
  import opened MerkleTree
  import opened WorkspaceState
  import opened Wrappers
  import Fill = WorkspaceFill

  // ------------------------------------------------------------------- update

  const LANE_MIX: nat := 0xD6E8FEB86659FD93
  const A_READ: nat := 0xBF58476D1CE4E5B9
  const B_READ: nat := 0x94D049BB133111EB
  const A_OFFSET: nat := 0xA5A5A5A5A5A5A5A5
  const B_OFFSET: nat := 0x5A5A5A5A5A5A5A5A

  /** One transition step: the fill key, the mix index, the lanes per element
      and the grid of the state matrices. */
  datatype Rule = Rule(key: Fill.Key, mixIndex: nat, fanout: nat, g: Grid) {
    function Dim(): nat {
      g.Dim()
    }

    function Total(): nat {
      Dim() * Dim()
    }

    /** `transition_basis` */
    function Basis(): nat {
      Fill.Mask64(Xor(Fill.KeyBasis(key), Fill.Mask64(mixIndex * Fill.MIX_ROUND_MIX)))
    }

    function LaneBasis(lane: nat): nat {
      Fill.Mask64(Xor(Basis(), (lane + 1) * LANE_MIX))
    }

    /** The element whose A value lane `lane` of element e reads. */
    function SourceA(e: nat, lane: nat): (j: nat)
      requires Total() > 0
      ensures j < Total()
    {
      Fill.SplitMix(Xor(LaneBasis(lane), Fill.Mask64(e * A_READ))) % Total()
    }

    /** The element whose B value it reads. */
    function SourceB(e: nat, lane: nat): (k: nat)
      requires Total() > 0
      ensures k < Total()
    {
      Fill.SplitMix(Xor(LaneBasis(lane), Fill.Mask64(e * B_READ))) % Total()
    }

    function MaskA(e: nat, lane: nat): byte {
      Fill.SplitMix(Xor(Xor(LaneBasis(lane), Fill.Mask64(2 * e)), A_OFFSET)) % 256
    }

    function MaskB(e: nat, lane: nat): byte {
      Fill.SplitMix(Xor(Xor(LaneBasis(lane), Fill.Mask64(4 * e)), B_OFFSET)) % 256
    }

    /** A's byte after the first n lanes; the lanes add B values. */
    function OutA(e: nat, ai: int, bs: seq<int>, n: nat): byte
      requires n <= |bs|
    {
      if n == 0 then U8(ai) else U8(OutA(e, ai, bs, n - 1) as int + Fill.ByteXor(U8(bs[n - 1]), MaskA(e, n - 1)) as int)
    }

    /** B's byte after the first n lanes; the lanes add A values. */
    function OutB(e: nat, bi: int, aj: seq<int>, n: nat): byte
      requires n <= |aj|
    {
      if n == 0 then U8(bi) else U8(OutB(e, bi, aj, n - 1) as int + Fill.ByteXor(U8(aj[n - 1]), MaskB(e, n - 1)) as int)
    }
  }

  /** What element e and its sources hold: its own pair and per lane the read
      A and B values. */
  datatype Reads = Reads(ai: int, bi: int, aj: seq<int>, bk: seq<int>)

  /** `transition_expected_values` */
  function Expected(rule: Rule, e: nat, r: Reads): (int, int)
    requires |r.aj| == |r.bk| == rule.fanout
  {
    (I8(rule.OutA(e, r.ai, r.bk, rule.fanout)), I8(rule.OutB(e, r.bi, r.aj, rule.fanout)))
  }

  method ExpectedValues(rule: Rule, e: nat, r: Reads) returns (a: int, b: int)
    requires |r.aj| == |r.bk| == rule.fanout
    ensures (a, b) == Expected(rule, e, r)
  {
    hide Fill.SplitMix, Xor, Fill.KeyBasis, Fill.Mask64, U8;
    var outA, outB := U8(r.ai), U8(r.bi);
    for lane := 0 to rule.fanout
      invariant outA == rule.OutA(e, r.ai, r.bk, lane)
      invariant outB == rule.OutB(e, r.bi, r.aj, lane)
    {
      outA := U8(outA as int + Fill.ByteXor(U8(r.bk[lane]), rule.MaskA(e, lane)) as int);
      outB := U8(outB as int + Fill.ByteXor(U8(r.aj[lane]), rule.MaskB(e, lane)) as int);
    }
    return I8(outA), I8(outB);
  }

  /** The value depends on the reads through their bytes only. */
  ghost predicate SameReads(r: Reads, s: Reads) {
    && |r.aj| == |s.aj| && |r.bk| == |s.bk|
    && U8(r.ai) == U8(s.ai) && U8(r.bi) == U8(s.bi)
    && (forall i :: 0 <= i < |r.aj| ==> U8(r.aj[i]) == U8(s.aj[i]))
    && (forall i :: 0 <= i < |r.bk| ==> U8(r.bk[i]) == U8(s.bk[i]))
  }

  lemma {:induction false} SameOut(rule: Rule, e: nat, r: Reads, s: Reads, n: nat)
    requires SameReads(r, s) && n <= |r.aj| == |r.bk|
    ensures rule.OutA(e, r.ai, r.bk, n) == rule.OutA(e, s.ai, s.bk, n)
    ensures rule.OutB(e, r.bi, r.aj, n) == rule.OutB(e, s.bi, s.aj, n)
  {
    hide Fill.SplitMix, Xor, Fill.KeyBasis, U8;
    if n > 0 {
      SameOut(rule, e, r, s, n - 1);
    }
  }

  /** What every word of a lane is mixed from, modulo 2^64. */
  function LaneTerms(rule: Rule, lane: nat): seq<nat> {
    Fill.KeyTerms(rule.key) + [rule.mixIndex * 0x9E3779B97F4A7C15 % 0x1_0000_0000_0000_0000,
                               (lane + 1) * 0xD6E8FEB86659FD93 % 0x1_0000_0000_0000_0000]
  }

  lemma LaneParity(rule: Rule, lane: nat)
    ensures Parity(rule.LaneBasis(lane), LaneTerms(rule, lane))
  {
    hide Xor, Parity, Fill.KeyBasis, Fill.KeyTerms;
    var key, step, lanes := Fill.KeyBasis(rule.key), Fill.Mask64(rule.mixIndex * Fill.MIX_ROUND_MIX), (lane + 1) * LANE_MIX;
    Fill.KeyParity(rule.key);
    Fill.ParityOfTwoMore(key, Fill.KeyTerms(rule.key), step, Fill.Mask64(lanes));
    Fill.WordXor(key, step);
    MaskedTwice(Xor(key, step), lanes);
    assert rule.Basis() == Xor(key, step);
  }

  lemma MaskedTwice(a: nat, b: nat)
    ensures Fill.Mask64(Xor(Fill.Mask64(a), b)) == Xor(Fill.Mask64(a), Fill.Mask64(b))
  {
    hide Xor;
    Pow2Word();
    XorLow(Fill.Mask64(a), b, 64);
  }

  /** The two elements a lane reads are hashed words modulo the number of elements;
      each word is the sum without carries of the lane's terms and of the element's
      index times a constant of the matrix. */
  lemma SourcesDrawn(rule: Rule, e: nat, lane: nat) returns (a: nat, b: nat)
    requires rule.Total() > 0
    ensures Parity(a, LaneTerms(rule, lane) + [e * 0xBF58476D1CE4E5B9 % 0x1_0000_0000_0000_0000])
    ensures Parity(b, LaneTerms(rule, lane) + [e * 0x94D049BB133111EB % 0x1_0000_0000_0000_0000])
    ensures rule.SourceA(e, lane) == Fill.SplitMix(a) % rule.Total()
    ensures rule.SourceB(e, lane) == Fill.SplitMix(b) % rule.Total()
  {
    hide Xor, Parity, Fill.SplitMix, Rule.LaneBasis, LaneTerms, Rule.Total;
    var basis := rule.LaneBasis(lane);
    a, b := Xor(basis, Fill.Mask64(e * A_READ)), Xor(basis, Fill.Mask64(e * B_READ));
    LaneParity(rule, lane);
    ParityGrows(basis, LaneTerms(rule, lane), Fill.Mask64(e * A_READ));
    ParityGrows(basis, LaneTerms(rule, lane), Fill.Mask64(e * B_READ));
  }

  /** The masks of a lane are last bytes of hashed words of the same kind. */
  lemma MasksDrawn(rule: Rule, e: nat, lane: nat) returns (a: nat, b: nat)
    ensures Parity(a, LaneTerms(rule, lane) + [2 * e % 0x1_0000_0000_0000_0000, 0xA5A5A5A5A5A5A5A5])
    ensures Parity(b, LaneTerms(rule, lane) + [4 * e % 0x1_0000_0000_0000_0000, 0x5A5A5A5A5A5A5A5A])
    ensures rule.MaskA(e, lane) == Fill.SplitMix(a) % 256 && rule.MaskB(e, lane) == Fill.SplitMix(b) % 256
  {
    hide Xor, Parity, Fill.SplitMix, Rule.LaneBasis, LaneTerms;
    var basis := rule.LaneBasis(lane);
    a := Xor(Xor(basis, Fill.Mask64(2 * e)), A_OFFSET);
    b := Xor(Xor(basis, Fill.Mask64(4 * e)), B_OFFSET);
    LaneParity(rule, lane);
    Fill.ParityOfTwoMore(basis, LaneTerms(rule, lane), Fill.Mask64(2 * e), A_OFFSET);
    Fill.ParityOfTwoMore(basis, LaneTerms(rule, lane), Fill.Mask64(4 * e), B_OFFSET);
  }

  /** The first n of the masked lane bytes added up. */
  function LaneSum(xs: seq<int>, mask: nat -> byte, n: nat): nat
    requires n <= |xs|
  {
    if n == 0 then 0 else LaneSum(xs, mask, n - 1) + Xor(xs[n - 1] % 256, mask(n - 1))
  }

  /** The byte masks of an element, by lane. */
  function MasksA(rule: Rule, e: nat): nat -> byte {
    lane => rule.MaskA(e, lane)
  }

  function MasksB(rule: Rule, e: nat): nat -> byte {
    lane => rule.MaskB(e, lane)
  }

  /** The update is the element's own byte plus the masked bytes of the other
      matrix, lane by lane, modulo 256. */
  lemma {:induction false} OutIsSum(rule: Rule, e: nat, x: int, lanes: seq<int>, n: nat)
    requires n <= |lanes|
    ensures rule.OutA(e, x, lanes, n) == (x + LaneSum(lanes, MasksA(rule, e), n)) % 256
    ensures rule.OutB(e, x, lanes, n) == (x + LaneSum(lanes, MasksB(rule, e), n)) % 256
    decreases n
  {
    hide Xor, Rule.MaskA, Rule.MaskB;
    if n > 0 {
      OutIsSum(rule, e, x, lanes, n - 1);
      AddLane(x + LaneSum(lanes, MasksA(rule, e), n - 1), Fill.ByteXor(U8(lanes[n - 1]), rule.MaskA(e, n - 1)));
      AddLane(x + LaneSum(lanes, MasksB(rule, e), n - 1), Fill.ByteXor(U8(lanes[n - 1]), rule.MaskB(e, n - 1)));
    }
  }

  lemma AddLane(sum: int, lane: byte)
    ensures (sum % 256 + lane) % 256 == (sum + lane) % 256
  {
  }

  /** Equal modulo 256. */
  predicate SameByte(x: int, y: int) {
    x % 256 == y % 256
  }

  /** What the two expected values are, as bytes. */
  lemma ExpectedIsSum(rule: Rule, e: nat, r: Reads)
    requires |r.aj| == |r.bk| == rule.fanout
    ensures var (a, b) := Expected(rule, e, r);
            && -128 <= a <= 127 && SameByte(a, r.ai + LaneSum(r.bk, MasksA(rule, e), rule.fanout))
            && -128 <= b <= 127 && SameByte(b, r.bi + LaneSum(r.aj, MasksB(rule, e), rule.fanout))
  {
    hide Xor, Rule.MaskA, Rule.MaskB, Rule.OutA, Rule.OutB, LaneSum;
    OutIsSum(rule, e, r.ai, r.bk, rule.fanout);
    OutIsSum(rule, e, r.bi, r.aj, rule.fanout);
  }

  /** Changing one lane to another byte changes the sum, by less than 256. */
  lemma {:induction false} LaneSumChanges(xs: seq<int>, ys: seq<int>, mask: nat -> byte, lane: nat, n: nat)
    requires |xs| == |ys| && lane < |xs| && n <= |xs| && !SameByte(xs[lane], ys[lane])
    requires forall i :: 0 <= i < |xs| && i != lane ==> xs[i] == ys[i]
    ensures if lane < n then !SameByte(LaneSum(xs, mask, n), LaneSum(ys, mask, n))
            else LaneSum(xs, mask, n) == LaneSum(ys, mask, n)
    ensures lane < n ==> -255 <= LaneSum(xs, mask, n) - LaneSum(ys, mask, n) <= 255
    decreases n
  {
    hide Xor;
    if n > 0 {
      LaneSumChanges(xs, ys, mask, lane, n - 1);
      if lane == n - 1 {
        var x, y, m := xs[lane] % 256, ys[lane] % 256, mask(lane);
        XorCancels(x, y, m);
        assert Fill.ByteXor(x, m) == Xor(x, m) && Fill.ByteXor(y, m) == Xor(y, m);
      }
    }
  }

  /** The first value depends on every byte of B it reads and on the element's own
      byte of A: changing one of them to another byte changes it. Nothing of A's
      other bytes enters it. For the second value the same with A and B
      exchanged. */
  lemma EveryReadCounts(rule: Rule, e: nat, r: Reads, lane: nat, v: int)
    requires |r.aj| == |r.bk| == rule.fanout && lane < rule.fanout
    ensures !SameByte(v, r.bk[lane]) ==> Expected(rule, e, r.(bk := r.bk[lane := v])).0 != Expected(rule, e, r).0
    ensures !SameByte(v, r.aj[lane]) ==> Expected(rule, e, r.(aj := r.aj[lane := v])).1 != Expected(rule, e, r).1
    ensures !SameByte(v, r.ai) ==> Expected(rule, e, r.(ai := v)).0 != Expected(rule, e, r).0
    ensures !SameByte(v, r.bi) ==> Expected(rule, e, r.(bi := v)).1 != Expected(rule, e, r).1
    ensures Expected(rule, e, r.(aj := r.aj[lane := v], bi := v)).0 == Expected(rule, e, r).0
    ensures Expected(rule, e, r.(bk := r.bk[lane := v], ai := v)).1 == Expected(rule, e, r).1
  {
    FirstCounts(rule, e, r, lane, v);
    SecondCounts(rule, e, r, lane, v);
    hide Xor, Rule.MaskA, Rule.MaskB;
  }

  lemma FirstCounts(rule: Rule, e: nat, r: Reads, lane: nat, v: int)
    requires |r.aj| == |r.bk| == rule.fanout && lane < rule.fanout
    ensures !SameByte(v, r.bk[lane]) ==> Expected(rule, e, r.(bk := r.bk[lane := v])).0 != Expected(rule, e, r).0
    ensures !SameByte(v, r.ai) ==> Expected(rule, e, r.(ai := v)).0 != Expected(rule, e, r).0
  {
    hide Expected, LaneSum, MasksA, MasksB, SameByte, Xor;
    var n, mask, changed := rule.fanout, MasksA(rule, e), r.bk[lane := v];
    ExpectedIsSum(rule, e, r);
    ExpectedIsSum(rule, e, r.(bk := changed));
    ExpectedIsSum(rule, e, r.(ai := v));
    if !SameByte(v, r.bk[lane]) {
      LaneSumChanges(changed, r.bk, mask, lane, n);
      SumsApart(Expected(rule, e, r.(bk := changed)).0, Expected(rule, e, r).0,
                r.ai, LaneSum(changed, mask, n), r.ai, LaneSum(r.bk, mask, n));
    }
    SumsApart(Expected(rule, e, r.(ai := v)).0, Expected(rule, e, r).0, v, LaneSum(r.bk, mask, n), r.ai, LaneSum(r.bk, mask, n));
  }

  lemma SecondCounts(rule: Rule, e: nat, r: Reads, lane: nat, v: int)
    requires |r.aj| == |r.bk| == rule.fanout && lane < rule.fanout
    ensures !SameByte(v, r.aj[lane]) ==> Expected(rule, e, r.(aj := r.aj[lane := v])).1 != Expected(rule, e, r).1
    ensures !SameByte(v, r.bi) ==> Expected(rule, e, r.(bi := v)).1 != Expected(rule, e, r).1
  {
    hide Expected, LaneSum, MasksA, MasksB, SameByte, Xor;
    var n, mask, changed := rule.fanout, MasksB(rule, e), r.aj[lane := v];
    ExpectedIsSum(rule, e, r);
    ExpectedIsSum(rule, e, r.(aj := changed));
    ExpectedIsSum(rule, e, r.(bi := v));
    if !SameByte(v, r.aj[lane]) {
      LaneSumChanges(changed, r.aj, mask, lane, n);
      SumsApart(Expected(rule, e, r.(aj := changed)).1, Expected(rule, e, r).1,
                r.bi, LaneSum(changed, mask, n), r.bi, LaneSum(r.aj, mask, n));
    }
    SumsApart(Expected(rule, e, r.(bi := v)).1, Expected(rule, e, r).1, v, LaneSum(r.aj, mask, n), r.bi, LaneSum(r.aj, mask, n));
  }

  lemma SumsApart(x: int, y: int, a: int, b: int, c: int, d: int)
    requires SameByte(x, a + b) && SameByte(y, c + d)
    ensures a == c && !SameByte(b, d) ==> x != y
    ensures b == d && !SameByte(a, c) ==> x != y
  {
  }

  // ----------------------------------------------------------------- elements

  function Entry(m: Matrix, n: nat, e: nat): int
    requires Rect(m, n, n) && e < n * n
  {
    DivBound(e, n, n);
    m[e / n][e % n]
  }

  /** Block row and block column of an element. */
  function BlockRow(g: Grid, e: nat): (i: nat)
    requires g.size > 0 && e < g.Dim() * g.Dim()
    ensures i < g.per
  {
    DivBound(e, g.Dim(), g.Dim());
    DivBound(e / g.Dim(), g.per, g.size);
    e / g.Dim() / g.size
  }

  function BlockColumn(g: Grid, e: nat): (j: nat)
    requires g.size > 0 && e < g.Dim() * g.Dim()
    ensures j < g.per
  {
    DivBound(e, g.Dim(), g.Dim());
    DivBound(e % g.Dim(), g.per, g.size);
    e % g.Dim() / g.size
  }

  /** `_state_block_index_for_element` */
  function BlockOf(g: Grid, e: nat): (k: nat)
    requires g.size > 0 && e < g.Dim() * g.Dim()
    ensures k < g.Count()
  {
    AtCoordinates(g, BlockRow(g, e), BlockColumn(g, e));
    g.At(BlockRow(g, e), BlockColumn(g, e))
  }

  /** `_state_block_value` */
  function EntryIn(block: Matrix, g: Grid, e: nat): int
    requires g.size > 0 && g.Dim() > 0 && Rect(block, g.size, g.size)
  {
    block[e / g.Dim() % g.size][e % g.Dim() % g.size]
  }

  lemma SubBlockEntry(m: Matrix, g: Grid, i: nat, j: nat, r: nat, c: nat)
    requires Rect(m, g.Dim(), g.Dim()) && i < g.per && j < g.per && r < g.size && c < g.size
    ensures i * g.size + r < g.Dim() && j * g.size + c < g.Dim()
    ensures SubBlock(m, g, i, j)[r][c] == m[i * g.size + r][j * g.size + c]
  {
    BlockFits(g, i);
    BlockFits(g, j);
  }

  lemma Recompose(x: nat, d: nat)
    requires d > 0
    ensures x / d * d + x % d == x && x % d < d
  {
  }

  lemma EntryAt(m: Matrix, g: Grid, r: nat, c: nat)
    requires g.size > 0 && Rect(m, g.Dim(), g.Dim()) && r < g.Dim() && c < g.Dim()
    ensures r / g.size < g.per && c / g.size < g.per
    ensures SubBlock(m, g, r / g.size, c / g.size)[r % g.size][c % g.size] == m[r][c]
  {
    hide SubBlock;
    DivBound(r, g.per, g.size);
    DivBound(c, g.per, g.size);
    Recompose(r, g.size);
    Recompose(c, g.size);
    SubBlockEntry(m, g, r / g.size, c / g.size, r % g.size, c % g.size);
  }

  lemma EntryOfBlock(m: Matrix, g: Grid, e: nat)
    requires g.size > 0 && Rect(m, g.Dim(), g.Dim()) && e < g.Dim() * g.Dim()
    ensures g.Dim() > 0
    ensures EntryIn(SubBlock(m, g, BlockRow(g, e), BlockColumn(g, e)), g, e) == Entry(m, g.Dim(), e)
  {
    hide SubBlock;
    DivBound(e, g.Dim(), g.Dim());
    EntryAt(m, g, e / g.Dim(), e % g.Dim());
  }

  /** What element e and its sources hold in the state (a, b). */
  function StateReads(rule: Rule, a: Matrix, b: Matrix, e: nat): (r: Reads)
    requires Squares(a, b, rule.g) && e < rule.Total()
    ensures |r.aj| == |r.bk| == rule.fanout
  {
    var n := rule.Dim();
    Reads(Entry(a, n, e), Entry(b, n, e),
      seq(rule.fanout, lane requires 0 <= lane => Entry(a, n, rule.SourceA(e, lane))),
      seq(rule.fanout, lane requires 0 <= lane => Entry(b, n, rule.SourceB(e, lane))))
  }

  /** The state (a2, b2) holds at e what the rule makes of (a, b). */
  ghost predicate StepsAt(rule: Rule, a: Matrix, b: Matrix, a2: Matrix, b2: Matrix, e: nat)
    requires Squares(a, b, rule.g) && Squares(a2, b2, rule.g) && e < rule.Total()
  {
    (Entry(a2, rule.Dim(), e), Entry(b2, rule.Dim(), e)) == Expected(rule, e, StateReads(rule, a, b, e))
  }

  /** The filled state before the first transition. */
  ghost predicate FilledAt(rule: Rule, a: Matrix, b: Matrix, e: nat)
    requires Squares(a, b, rule.g) && e < rule.Total()
  {
    && Entry(a, rule.Dim(), e) == Fill.FillValue(rule.key, 0, e)
    && Entry(b, rule.Dim(), e) == Fill.FillValue(rule.key, 1, e)
  }

  /** There is a filled state for every key. */
  lemma FilledState(rule: Rule) returns (a: Matrix, b: Matrix)
    requires rule.g.size > 0 && rule.g.per > 0
    ensures Squares(a, b, rule.g) && forall e :: 0 <= e < rule.Total() ==> FilledAt(rule, a, b, e)
  {
    hide Fill.FillValue;
    var n, key := rule.Dim(), rule.key;
    a := seq(n, r requires 0 <= r => seq(n, c requires 0 <= c => Fill.FillValue(key, 0, r * n + c)));
    b := seq(n, r requires 0 <= r => seq(n, c requires 0 <= c => Fill.FillValue(key, 1, r * n + c)));
    forall e | 0 <= e < rule.Total()
      ensures FilledAt(rule, a, b, e)
    {
      DivBound(e, n, n);
      assert e / n * n + e % n == e;
    }
  }

  // ----------------------------------------------------------------- openings

  /** One opened state block, its values not yet reduced to bytes. */
  datatype BlockOpening = BlockOpening(blockIndex: int, a: Matrix, b: Matrix, path: PathData)

  datatype Reason =
    | InvalidOpening | InvalidShape | IndexOutOfRange | LeafIndexMismatch | PathInvalid
    | InvalidParameters | ElementMismatch | InvalidFanout
    | BlockCount | MissingBlocks | InitialMismatch | ValueMismatch

  predicate Int16(m: Matrix) {
    Within(m, -0x8000, 0x7FFF)
  }

  /** `_verify_state_block_opening`. The directions are taken from the path. */
  function CheckBlock(h: HashFn, g: Grid, root: Bytes, o: BlockOpening): (r: Option<Reason>)
    ensures r.None? ==> Rect(o.a, g.size, g.size) && Rect(o.b, g.size, g.size) && 0 <= o.blockIndex < g.Count()
  {
    if !Int16(o.a) || !Int16(o.b) then Some(InvalidOpening)
    else if !Rect(o.a, g.size, g.size) || !Rect(o.b, g.size, g.size) then Some(InvalidShape)
    else if o.blockIndex < 0 || o.blockIndex >= g.Count() then Some(IndexOutOfRange)
    else if o.path.leafIndex != o.blockIndex then Some(Reason.LeafIndexMismatch)
    else if Fold(h, STATE_KIND.nodeTag, LeafHash(h, STATE_KIND, Interleave(o.a, o.b)), o.path.siblings) != root
    then Some(PathInvalid)
    else None
  }

  /** One block passes exactly when its values are 16-bit numbers in a square of the
      block size, its index is in range and is the path's own, and the path leads
      from its bytes to the root. */
  lemma BlockPassesExactly(h: HashFn, g: Grid, root: Bytes, o: BlockOpening)
    ensures CheckBlock(h, g, root, o).None? <==>
            && (forall r, c :: 0 <= r < |o.a| && 0 <= c < |o.a[r]| ==> -0x8000 <= o.a[r][c] < 0x8000)
            && (forall r, c :: 0 <= r < |o.b| && 0 <= c < |o.b[r]| ==> -0x8000 <= o.b[r][c] < 0x8000)
            && |o.a| == |o.b| == g.size
            && (forall r :: 0 <= r < g.size ==> |o.a[r]| == |o.b[r]| == g.size)
            && 0 <= o.blockIndex < g.per * g.per && o.path.leafIndex == o.blockIndex
            && Fold(h, STATE_KIND.nodeTag, LeafHash(h, STATE_KIND, Interleave(o.a, o.b)), o.path.siblings) == root
  {
    hide Fold, LeafHash, Interleave;
  }

  function FirstBad(h: HashFn, g: Grid, root: Bytes, openings: seq<BlockOpening>): Option<Reason> {
    if |openings| == 0 then None
    else match CheckBlock(h, g, root, openings[0])
      case Some(e) => Some(e)
      case None => FirstBad(h, g, root, openings[1..])
  }

  lemma {:induction false} FirstBadNone(h: HashFn, g: Grid, root: Bytes, openings: seq<BlockOpening>)
    ensures FirstBad(h, g, root, openings).None?
       <==> (forall k :: 0 <= k < |openings| ==> CheckBlock(h, g, root, openings[k]).None?)
    decreases |openings|
  {
    hide CheckBlock;
    if |openings| > 0 {
      var rest := openings[1..];
      FirstBadNone(h, g, root, rest);
      if CheckBlock(h, g, root, openings[0]).None? && FirstBad(h, g, root, rest).None? {
        forall k | 0 <= k < |openings|
          ensures CheckBlock(h, g, root, openings[k]).None?
        {
          assert k > 0 ==> openings[k] == rest[k - 1];
        }
      } else if FirstBad(h, g, root, rest).Some? {
        var k :| 0 <= k < |rest| && CheckBlock(h, g, root, rest[k]).Some?;
        assert openings[k + 1] == rest[k];
      }
    }
  }

  type Blocks = map<int, (Matrix, Matrix)>

  function Collect(openings: seq<BlockOpening>, k: nat): Blocks
    requires k <= |openings|
  {
    if k == 0 then map[]
    else Collect(openings, k - 1)[openings[k - 1].blockIndex := (openings[k - 1].a, openings[k - 1].b)]
  }

  datatype OpenResult = Open(blocks: Blocks) | Refused(reason: Reason)

  /** The block list against a required set: count, each block, subset. */
  function OpenBlocks(h: HashFn, g: Grid, root: Bytes, openings: seq<BlockOpening>, required: set<int>): OpenResult {
    if |openings| != |required| then Refused(BlockCount)
    else match FirstBad(h, g, root, openings)
      case Some(e) => Refused(e)
      case None =>
        var blocks := Collect(openings, |openings|);
        if !(required <= blocks.Keys) then Refused(MissingBlocks) else Open(blocks)
  }

  /** The k-th opening is the one found under its index. */
  ghost predicate Found(openings: seq<BlockOpening>, blocks: Blocks, k: nat)
    requires k < |openings|
  {
    && openings[k].blockIndex in blocks
    && blocks[openings[k].blockIndex] == (openings[k].a, openings[k].b)
  }

  ghost predicate DistinctIndices(openings: seq<BlockOpening>, n: nat)
    requires n <= |openings|
  {
    forall i, j :: 0 <= i < j < n ==> openings[i].blockIndex != openings[j].blockIndex
  }

  lemma {:induction false} CollectKeys(openings: seq<BlockOpening>, k: nat)
    requires k <= |openings|
    ensures forall x :: x in Collect(openings, k) ==> exists j :: 0 <= j < k && openings[j].blockIndex == x
    ensures |Collect(openings, k).Keys| <= k
  {
    if k > 0 {
      CollectKeys(openings, k - 1);
      var before, x := Collect(openings, k - 1), openings[k - 1].blockIndex;
      assert Collect(openings, k).Keys == before.Keys + {x};
    }
  }

  lemma {:induction false} FullMeansDistinct(openings: seq<BlockOpening>, k: nat)
    requires k <= |openings| && |Collect(openings, k).Keys| == k
    ensures DistinctIndices(openings, k)
  {
    if k > 0 {
      var before, x := Collect(openings, k - 1), openings[k - 1].blockIndex;
      assert Collect(openings, k).Keys == before.Keys + {x};
      CollectKeys(openings, k - 1);
      CollectFinds(openings, k - 1);
      assert x in before ==> before.Keys + {x} == before.Keys;
      hide Collect;
      FullMeansDistinct(openings, k - 1);
      forall i, j | 0 <= i < j < k
        ensures openings[i].blockIndex != openings[j].blockIndex
      {
        if j == k - 1 {
          assert openings[i].blockIndex in before;
        }
      }
    }
  }

  lemma {:induction false} CollectFinds(openings: seq<BlockOpening>, k: nat)
    requires k <= |openings|
    ensures forall j :: 0 <= j < k ==> openings[j].blockIndex in Collect(openings, k)
    ensures DistinctIndices(openings, k) ==> forall j :: 0 <= j < k ==> Found(openings, Collect(openings, k), j)
  {
    if k > 0 {
      CollectFinds(openings, k - 1);
      if DistinctIndices(openings, k) {
        forall j | 0 <= j < k
          ensures Found(openings, Collect(openings, k), j)
        {
          assert j < k - 1 ==> Found(openings, Collect(openings, k - 1), j);
        }
      }
    }
  }

  lemma SubsetOfSameSize(s: set<int>, t: set<int>)
    requires s <= t && |t| <= |s|
    ensures s == t
  {
    assert t == s + (t - s);
  }

  /** Exactly the required indices, each opened once. */
  ghost predicate Covers(openings: seq<BlockOpening>, required: set<int>) {
    && |openings| == |required|
    && DistinctIndices(openings, |openings|)
    && (forall j :: 0 <= j < |openings| ==> openings[j].blockIndex in required)
    && (forall k :: k in required ==> exists j :: 0 <= j < |openings| && openings[j].blockIndex == k)
  }

  /** Pigeonhole: count plus subset make the opened indices exactly the required
      ones, each opened once. */
  lemma OpenedExactly(h: HashFn, g: Grid, root: Bytes, openings: seq<BlockOpening>, required: set<int>)
    requires OpenBlocks(h, g, root, openings, required).Open?
    ensures Covers(openings, required)
    ensures forall j :: 0 <= j < |openings| ==> Found(openings, OpenBlocks(h, g, root, openings, required).blocks, j)
    ensures forall j :: 0 <= j < |openings| ==> CheckBlock(h, g, root, openings[j]).None?
  {
    FirstBadNone(h, g, root, openings);
    hide FirstBad, CheckBlock;
    hide Collect;
    CollectKeys(openings, |openings|);
    SubsetOfSameSize(required, Collect(openings, |openings|).Keys);
    FullMeansDistinct(openings, |openings|);
    CollectFinds(openings, |openings|);
  }

  // ------------------------------------------------------------- verification

  /** The public statement of one transition: the rule, the two state roots and
      the bytes the sampled element is derived from. */
  datatype Statement = Statement(rule: Rule, beforeRoot: Bytes, afterRoot: Bytes, challenge: Bytes, lease: Bytes, indices: Bytes)
  {
    /** The dimension and block size checks. */
    predicate Sized() {
      rule.g.size > 0 && rule.g.per > 0
    }

    /** With the fanout check. */
    predicate Valid() {
      Sized() && rule.fanout > 0
    }
  }

  const TRANSITION_TAG := "VERATHOS_AB_TRANSITION_PROOF_V1"

  lemma PositiveDim(g: Grid)
    requires g.size > 0 && g.per > 0
    ensures g.Dim() > 0 && g.Dim() * g.Dim() > 0
  {
    MulOrder(1, g.per, g.size);
    MulOrder(1, g.Dim(), g.Dim());
  }

  /** `derive_transition_element_index`; `indices` are the four packed lane
      coordinates. */
  function ElementIndex(h: HashFn, s: Statement): (e: nat)
    requires s.Sized()
    ensures e < s.rule.Total()
  {
    PositiveDim(s.rule.g);
    var digest := h(Ascii(TRANSITION_TAG) + s.challenge + s.beforeRoot + s.afterRoot + s.lease + s.indices);
    FromBigEndian(if |digest| >= 8 then digest[..8] else digest) % s.rule.Total()
  }

  /** Two statements about one rule whose fields are as long as each other's. */
  ghost predicate SameShape(s: Statement, t: Statement) {
    && s.rule == t.rule && |s.beforeRoot| == |t.beforeRoot| && |s.afterRoot| == |t.afterRoot|
    && |s.challenge| == |t.challenge| && |s.lease| == |t.lease| && |s.indices| == |t.indices|
  }

  /** The drawn element depends on both roots, the challenge, the lease and the lane
      coordinates: for statements that differ in any of them some hash draws
      different elements, so none can be chosen after the element is known. */
  lemma ElementBound(s: Statement, t: Statement) returns (h: HashFn)
    requires s.Sized() && SameShape(s, t) && s.rule.Total() > 1
    requires s.beforeRoot != t.beforeRoot || s.afterRoot != t.afterRoot || s.challenge != t.challenge
          || s.lease != t.lease || s.indices != t.indices
    ensures Digests(h) && ElementIndex(h, s) != ElementIndex(h, t)
  {
    var x := Ascii(TRANSITION_TAG) + s.challenge + s.beforeRoot + s.afterRoot + s.lease + s.indices;
    var y := Ascii(TRANSITION_TAG) + t.challenge + t.beforeRoot + t.afterRoot + t.lease + t.indices;
    if x == y {
      SamePreimage(s, t);
    }
    var one: Bytes := Zeros(7) + [1] + Zeros(24);
    h := z => if z == x then Zeros(32) else one;
    assert Zeros(32)[..8] == Zeros(8) && one[..8] == Zeros(7) + [1];
    ZeroValue(8);
    ZeroValue(7);
    assert (Zeros(7) + [1])[..7] == Zeros(7);
    assert FromBigEndian(Zeros(7) + [1]) == 1;
    assert ElementIndex(h, s) == 0 && ElementIndex(h, t) == 1 % s.rule.Total();
  }

  lemma {:induction false} ZeroValue(n: nat)
    ensures FromBigEndian(Zeros(n)) == 0
    decreases n
  {
    if n > 0 {
      assert Zeros(n)[..n - 1] == Zeros(n - 1);
      ZeroValue(n - 1);
    }
  }

  lemma SamePreimage(s: Statement, t: Statement)
    requires SameShape(s, t)
    requires Ascii(TRANSITION_TAG) + s.challenge + s.beforeRoot + s.afterRoot + s.lease + s.indices
          == Ascii(TRANSITION_TAG) + t.challenge + t.beforeRoot + t.afterRoot + t.lease + t.indices
    ensures s.beforeRoot == t.beforeRoot && s.afterRoot == t.afterRoot && s.challenge == t.challenge
         && s.lease == t.lease && s.indices == t.indices
  {
    var tag := Ascii(TRANSITION_TAG);
    var s1, t1 := tag + s.challenge, tag + t.challenge;
    var s2, t2 := s1 + s.beforeRoot, t1 + t.beforeRoot;
    var s3, t3 := s2 + s.afterRoot, t2 + t.afterRoot;
    CancelPrefix(s3 + s.lease, s.indices, t3 + t.lease, t.indices);
    CancelPrefix(s3, s.lease, t3, t.lease);
    CancelPrefix(s2, s.afterRoot, t2, t.afterRoot);
    CancelPrefix(s1, s.beforeRoot, t1, t.beforeRoot);
    CancelPrefix(tag, s.challenge, tag, t.challenge);
  }

  datatype TransitionOpening = TransitionOpening(elementIndex: int, before: seq<BlockOpening>, after: seq<BlockOpening>)

  /** The elements whose before-values the relation reads. */
  function ReadElements(rule: Rule, e: nat): (s: set<nat>)
    requires e < rule.Total()
    ensures forall x :: x in s ==> x < rule.Total()
  {
    {e} + (set lane | 0 <= lane < rule.fanout :: rule.SourceA(e, lane))
        + (set lane | 0 <= lane < rule.fanout :: rule.SourceB(e, lane))
  }

  function BlockIndices(g: Grid, elements: set<nat>): set<int>
    requires g.size > 0 && forall x :: x in elements ==> x < g.Dim() * g.Dim()
  {
    set x | x in elements :: BlockOf(g, x) as int
  }

  /** The blocks required before the step: the element's own and those of the
      elements its lanes read. */
  lemma RequiredReads(rule: Rule, e: nat, block: int)
    requires rule.g.size > 0 && e < rule.Total()
    ensures block in BlockIndices(rule.g, ReadElements(rule, e)) <==>
            || block == BlockOf(rule.g, e)
            || exists lane: nat :: lane < rule.fanout &&
                 (block == BlockOf(rule.g, rule.SourceA(e, lane)) || block == BlockOf(rule.g, rule.SourceB(e, lane)))
  {
    hide Rule.SourceA, Rule.SourceB, BlockOf;
    var g, seen := rule.g, ReadElements(rule, e);
    assert e in seen;
    forall lane: nat | lane < rule.fanout
      ensures rule.SourceA(e, lane) in seen && rule.SourceB(e, lane) in seen
    {
    }
    if block in BlockIndices(g, seen) {
      var x :| x in seen && block == BlockOf(g, x);
      if x != e {
        var lane: nat :| lane < rule.fanout && (x == rule.SourceA(e, lane) || x == rule.SourceB(e, lane));
      }
    }
  }

  /** What the opened blocks hold at e and its sources. */
  function OpenedReads(rule: Rule, blocks: Blocks, e: nat): (r: Reads)
    requires rule.g.size > 0 && e < rule.Total()
    requires Readable(rule, blocks, e)
    ensures |r.aj| == |r.bk| == rule.fanout
  {
    var g := rule.g;
    Reads(OpenedA(g, blocks, e), OpenedB(g, blocks, e),
      seq(rule.fanout, lane requires 0 <= lane < rule.fanout => OpenedA(g, blocks, rule.SourceA(e, lane))),
      seq(rule.fanout, lane requires 0 <= lane < rule.fanout => OpenedB(g, blocks, rule.SourceB(e, lane))))
  }

  ghost predicate OpenAt(g: Grid, blocks: Blocks, e: nat)
    requires g.size > 0 && e < g.Dim() * g.Dim()
  {
    && BlockOf(g, e) in blocks
    && Rect(blocks[BlockOf(g, e)].0, g.size, g.size) && Rect(blocks[BlockOf(g, e)].1, g.size, g.size)
  }

  ghost predicate Readable(rule: Rule, blocks: Blocks, e: nat)
    requires rule.g.size > 0 && e < rule.Total()
  {
    && OpenAt(rule.g, blocks, e)
    && forall lane :: 0 <= lane < rule.fanout ==>
         OpenAt(rule.g, blocks, rule.SourceA(e, lane)) && OpenAt(rule.g, blocks, rule.SourceB(e, lane))
  }

  function OpenedA(g: Grid, blocks: Blocks, e: nat): int
    requires g.size > 0 && e < g.Dim() * g.Dim() && OpenAt(g, blocks, e)
  {
    DivBound(e, g.Dim(), g.Dim());
    EntryIn(blocks[BlockOf(g, e)].0, g, e)
  }

  function OpenedB(g: Grid, blocks: Blocks, e: nat): int
    requires g.size > 0 && e < g.Dim() * g.Dim() && OpenAt(g, blocks, e)
  {
    DivBound(e, g.Dim(), g.Dim());
    EntryIn(blocks[BlockOf(g, e)].1, g, e)
  }

  /** The initial-state check of mix index 0. */
  function InitialValues(rule: Rule, e: nat): (r: Reads)
    requires e < rule.Total()
    ensures |r.aj| == |r.bk| == rule.fanout
  {
    Reads(Fill.FillValue(rule.key, 0, e), Fill.FillValue(rule.key, 1, e),
      seq(rule.fanout, lane requires 0 <= lane => Fill.FillValue(rule.key, 0, rule.SourceA(e, lane))),
      seq(rule.fanout, lane requires 0 <= lane => Fill.FillValue(rule.key, 1, rule.SourceB(e, lane))))
  }

  lemma OpenCoversAll(h: HashFn, g: Grid, root: Bytes, openings: seq<BlockOpening>, elements: set<nat>)
    requires g.size > 0 && forall x :: x in elements ==> x < g.Dim() * g.Dim()
    requires OpenBlocks(h, g, root, openings, BlockIndices(g, elements)).Open?
    ensures forall x :: x in elements ==> OpenAt(g, OpenBlocks(h, g, root, openings, BlockIndices(g, elements)).blocks, x)
  {
    var required := BlockIndices(g, elements);
    var blocks := OpenBlocks(h, g, root, openings, required).blocks;
    OpenedExactly(h, g, root, openings, required);
    forall x | x in elements
      ensures OpenAt(g, blocks, x)
    {
      assert BlockOf(g, x) as int in required;
      var j :| 0 <= j < |openings| && openings[j].blockIndex == BlockOf(g, x);
      assert Found(openings, blocks, j);
      assert CheckBlock(h, g, root, openings[j]).None?;
    }
  }

  /** `verify_workspace_transition_opening`; None is acceptance. */
  function Verify(h: HashFn, s: Statement, o: TransitionOpening): Option<Reason> {
    if !s.Sized() then Some(InvalidParameters)
    else
      var rule, g, e := s.rule, s.rule.g, ElementIndex(h, s);
      if o.elementIndex != e then Some(ElementMismatch)
      else if rule.fanout == 0 then Some(InvalidFanout)
      else match OpenBlocks(h, g, s.beforeRoot, o.before, BlockIndices(g, ReadElements(rule, e)))
        case Refused(reason) => Some(reason)
        case Open(before) =>
          match OpenBlocks(h, g, s.afterRoot, o.after, BlockIndices(g, {e}))
          case Refused(reason) => Some(reason)
          case Open(after) =>
            OpenCoversAll(h, g, s.beforeRoot, o.before, ReadElements(rule, e));
            OpenCoversAll(h, g, s.afterRoot, o.after, {e});
            assert Readable(rule, before, e);
            var seen := OpenedReads(rule, before, e);
            if rule.mixIndex == 0 && seen != InitialValues(rule, e) then Some(InitialMismatch)
            else if (OpenedA(g, after, e), OpenedB(g, after, e)) != Expected(rule, e, seen) then Some(ValueMismatch)
            else None
  }

  /** What acceptance means for the opened blocks: exactly the required blocks,
      each once, on both sides. */
  lemma AcceptedCovers(h: HashFn, s: Statement, o: TransitionOpening)
    requires Verify(h, s, o).None?
    ensures s.rule.g.size > 0 && s.rule.g.per > 0 && s.rule.fanout > 0 && s.Valid()
    ensures o.elementIndex == ElementIndex(h, s)
    ensures Covers(o.before, BlockIndices(s.rule.g, ReadElements(s.rule, ElementIndex(h, s))))
    ensures Covers(o.after, {BlockOf(s.rule.g, ElementIndex(h, s))})
  {
    hide OpenBlocks, CheckBlock, Expected, OpenedReads, Covers, InitialValues;
    var g, e := s.rule.g, ElementIndex(h, s);
    OpenedExactly(h, g, s.beforeRoot, o.before, BlockIndices(g, ReadElements(s.rule, e)));
    OpenedExactly(h, g, s.afterRoot, o.after, BlockIndices(g, {e}));
    assert BlockIndices(g, {e}) == {BlockOf(g, e)};
  }

  /** The loop over one block list. */
  method OpenStateBlocks(h: HashFn, g: Grid, root: Bytes, openings: seq<BlockOpening>, required: set<int>) returns (r: OpenResult)
    ensures r == OpenBlocks(h, g, root, openings, required)
  {
    hide CheckBlock;
    if |openings| != |required| {
      return Refused(BlockCount);
    }
    var blocks: Blocks := map[];
    for k := 0 to |openings|
      invariant blocks == Collect(openings, k)
      invariant FirstBad(h, g, root, openings[k..]) == FirstBad(h, g, root, openings)
    {
      assert openings[k..][1..] == openings[k + 1..];
      var failed := CheckBlock(h, g, root, openings[k]);
      if failed.Some? {
        return Refused(failed.value);
      }
      blocks := blocks[openings[k].blockIndex := (openings[k].a, openings[k].b)];
    }
    if !(required <= blocks.Keys) {
      return Refused(MissingBlocks);
    }
    r := Open(blocks);
  }

  // ---------------------------------------------------------------- soundness

  ghost predicate State(a: Matrix, b: Matrix, g: Grid) {
    Squares(a, b, g) && Int8(a) && Int8(b)
  }

  predicate SameBytes(m: Matrix, n: Matrix) {
    && |m| == |n|
    && forall r :: 0 <= r < |m| ==> RowBytes(m[r]) == RowBytes(n[r])
  }

  /** Equal packed blocks agree byte by byte. */
  lemma InterleaveBytes(a: Matrix, b: Matrix, c: Matrix, d: Matrix, size: nat)
    requires Rect(a, size, size) && Rect(b, size, size) && Rect(c, size, size) && Rect(d, size, size)
    requires Interleave(a, b) == Interleave(c, d)
    ensures SameBytes(a, c) && SameBytes(b, d)
  {
    hide Interleave, RowBytes, CutRows;
    forall r | 0 <= r < size
      ensures RowBytes(a[r]) == RowBytes(c[r]) && RowBytes(b[r]) == RowBytes(d[r])
    {
      CutInterleaved(a, b, size, size, r);
      CutInterleaved(c, d, size, size, r);
    }
  }

  lemma SameEntry(m: Matrix, n: Matrix, g: Grid, e: nat)
    requires g.size > 0 && g.Dim() > 0 && Rect(m, g.size, g.size) && Rect(n, g.size, g.size)
    requires SameBytes(m, n)
    ensures U8(EntryIn(m, g, e)) == U8(EntryIn(n, g, e))
  {
    var r, c := e / g.Dim() % g.size, e % g.Dim() % g.size;
    assert RowBytes(m[r])[c] == RowBytes(n[r])[c];
  }

  /** The directions are the index bits and the path has the tree's height. */
  predicate Strict(g: Grid, o: BlockOpening) {
    o.blockIndex >= 0 && StrictPath(o.path, o.blockIndex, g.Count()).PathOk?
  }

  predicate AllStrict(g: Grid, openings: seq<BlockOpening>) {
    forall k :: 0 <= k < |openings| ==> Strict(g, openings[k])
  }

  /** The collision given away by the first opening that is not the committed
      payload. */
  function OpeningsCollision(h: HashFn, payloads: seq<Bytes>, openings: seq<BlockOpening>): Collision
    requires |payloads| > 0
  {
    if |openings| == 0 then Collision([], [])
    else
      var o := openings[0];
      if |o.a| == |o.b| && IsCollision(h, PayloadCollision(h, STATE_KIND, payloads, Interleave(o.a, o.b), o.path.siblings))
      then PayloadCollision(h, STATE_KIND, payloads, Interleave(o.a, o.b), o.path.siblings)
      else OpeningsCollision(h, payloads, openings[1..])
  }

  lemma {:induction false} SomeOpeningCollides(h: HashFn, payloads: seq<Bytes>, openings: seq<BlockOpening>, k: nat)
    requires |payloads| > 0 && k < |openings| && |openings[k].a| == |openings[k].b|
    requires IsCollision(h, PayloadCollision(h, STATE_KIND, payloads, Interleave(openings[k].a, openings[k].b), openings[k].path.siblings))
    ensures IsCollision(h, OpeningsCollision(h, payloads, openings))
    decreases k
  {
    hide PayloadCollision, Interleave;
    if k > 0 {
      SomeOpeningCollides(h, payloads, openings[1..], k - 1);
    }
  }

  /** One strict, accepted block opening holds the committed bytes. */
  lemma BlockBinding(h: HashFn, g: Grid, a: Matrix, b: Matrix, o: BlockOpening, i: nat, j: nat)
    requires Digests(h) && Squares(a, b, g) && i < g.per && j < g.per
    requires o.blockIndex == g.At(i, j)
    requires CheckBlock(h, g, StateRoot(h, a, b, g), o).None? && Strict(g, o)
    ensures |StatePayloads(a, b, g)| > 0
    ensures (SameBytes(o.a, SubBlock(a, g, i, j)) && SameBytes(o.b, SubBlock(b, g, i, j)))
         || IsCollision(h, PayloadCollision(h, STATE_KIND, StatePayloads(a, b, g), Interleave(o.a, o.b), o.path.siblings))
  {
    hide PayloadCollision, SubBlock, Interleave, SameBytes, Fold, StrictDirections;
    SomeBlock(g);
    KindsSeparated();
    StatePayloadAt(a, b, g, i, j);
    StrictPayloadBinding(h, STATE_KIND, StatePayloads(a, b, g), g.At(i, j), Interleave(o.a, o.b), o.path);
    if Interleave(o.a, o.b) == StatePayload(a, b, g, i, j) {
      InterleaveBytes(o.a, o.b, SubBlock(a, g, i, j), SubBlock(b, g, i, j), g.size);
    }
  }

  /** The opened blocks hold at e, up to byte form, what the state holds. */
  ghost predicate AgreesAt(g: Grid, a: Matrix, b: Matrix, blocks: Blocks, e: nat)
    requires Squares(a, b, g) && g.size > 0 && e < g.Dim() * g.Dim() && OpenAt(g, blocks, e)
  {
    && U8(OpenedA(g, blocks, e)) == U8(Entry(a, g.Dim(), e))
    && U8(OpenedB(g, blocks, e)) == U8(Entry(b, g.Dim(), e))
  }

  lemma OpenedAgrees(h: HashFn, g: Grid, a: Matrix, b: Matrix, openings: seq<BlockOpening>, elements: set<nat>, e: nat)
    requires Digests(h) && Squares(a, b, g) && g.size > 0 && g.per > 0
    requires forall x :: x in elements ==> x < g.Dim() * g.Dim()
    requires OpenBlocks(h, g, StateRoot(h, a, b, g), openings, BlockIndices(g, elements)).Open?
    requires AllStrict(g, openings) && e in elements
    requires |StatePayloads(a, b, g)| > 0 && !IsCollision(h, OpeningsCollision(h, StatePayloads(a, b, g), openings))
    ensures var blocks := OpenBlocks(h, g, StateRoot(h, a, b, g), openings, BlockIndices(g, elements)).blocks;
            OpenAt(g, blocks, e) && AgreesAt(g, a, b, blocks, e)
  {
    hide PayloadCollision, SubBlock, Interleave, SameBytes, OpeningsCollision, EntryIn, Entry;
    var root, required := StateRoot(h, a, b, g), BlockIndices(g, elements);
    var blocks := OpenBlocks(h, g, root, openings, required).blocks;
    OpenCoversAll(h, g, root, openings, elements);
    OpenedExactly(h, g, root, openings, required);
    hide OpenBlocks;
    var i, j := BlockRow(g, e), BlockColumn(g, e);
    assert BlockOf(g, e) as int in required;
    var k :| 0 <= k < |openings| && openings[k].blockIndex == BlockOf(g, e);
    assert Found(openings, blocks, k);
    assert CheckBlock(h, g, root, openings[k]).None? && Strict(g, openings[k]);
    BlockBinding(h, g, a, b, openings[k], i, j);
    if IsCollision(h, PayloadCollision(h, STATE_KIND, StatePayloads(a, b, g), Interleave(openings[k].a, openings[k].b), openings[k].path.siblings)) {
      SomeOpeningCollides(h, StatePayloads(a, b, g), openings, k);
    }
    EntryOfBlock(a, g, e);
    EntryOfBlock(b, g, e);
    SameEntry(openings[k].a, SubBlock(a, g, i, j), g, e);
    SameEntry(openings[k].b, SubBlock(b, g, i, j), g, e);
  }

  /** A signed byte is determined by its byte form. */
  lemma SignedByte(v: int)
    requires -128 <= v <= 127
    ensures I8(U8(v)) == v
  {
  }

  lemma EntryIsInt8(m: Matrix, n: nat, e: nat)
    requires Rect(m, n, n) && Int8(m) && e < n * n
    ensures -128 <= Entry(m, n, e) <= 127
  {
    DivBound(e, n, n);
    assert WithinRow(m[e / n], -128, 127);
  }

  lemma ReadsAgree(rule: Rule, a: Matrix, b: Matrix, blocks: Blocks, e: nat)
    requires Squares(a, b, rule.g) && rule.g.size > 0 && e < rule.Total() && Readable(rule, blocks, e)
    requires forall x :: x in ReadElements(rule, e) ==> OpenAt(rule.g, blocks, x) && AgreesAt(rule.g, a, b, blocks, x)
    ensures SameReads(OpenedReads(rule, blocks, e), StateReads(rule, a, b, e))
  {
    hide Fill.SplitMix, Xor, Entry, EntryIn, U8, OpenedA, OpenedB;
    forall lane | 0 <= lane < rule.fanout
      ensures AgreesAt(rule.g, a, b, blocks, rule.SourceA(e, lane)) && AgreesAt(rule.g, a, b, blocks, rule.SourceB(e, lane))
    {
      assert rule.SourceA(e, lane) in ReadElements(rule, e) && rule.SourceB(e, lane) in ReadElements(rule, e);
    }
    assert e in ReadElements(rule, e);
  }

  /** The collision an accepted opening gives away when a committed state breaks
      the rule. */
  function TransitionCollision(h: HashFn, g: Grid, a: Matrix, b: Matrix, a2: Matrix, b2: Matrix, o: TransitionOpening): Collision
    requires Squares(a, b, g) && Squares(a2, b2, g) && g.per > 0
  {
    SomeBlock(g);
    var first := OpeningsCollision(h, StatePayloads(a, b, g), o.before);
    if IsCollision(h, first) then first else OpeningsCollision(h, StatePayloads(a2, b2, g), o.after)
  }

  /** Accepted blocks, before and after, agree with the committed states where
      the relation reads them. */
  lemma AcceptedAgrees(h: HashFn, s: Statement, a: Matrix, b: Matrix, a2: Matrix, b2: Matrix, o: TransitionOpening)
    requires Digests(h) && s.Valid() && Squares(a, b, s.rule.g) && Squares(a2, b2, s.rule.g)
    requires s.beforeRoot == StateRoot(h, a, b, s.rule.g) && s.afterRoot == StateRoot(h, a2, b2, s.rule.g)
    requires Verify(h, s, o).None? && AllStrict(s.rule.g, o.before) && AllStrict(s.rule.g, o.after)
    requires !IsCollision(h, TransitionCollision(h, s.rule.g, a, b, a2, b2, o))
    ensures var g, e := s.rule.g, ElementIndex(h, s);
            var before := OpenBlocks(h, g, s.beforeRoot, o.before, BlockIndices(g, ReadElements(s.rule, e)));
            var after := OpenBlocks(h, g, s.afterRoot, o.after, BlockIndices(g, {e}));
            && before.Open? && after.Open?
            && (forall x :: x in ReadElements(s.rule, e) ==> OpenAt(g, before.blocks, x) && AgreesAt(g, a, b, before.blocks, x))
            && OpenAt(g, after.blocks, e) && AgreesAt(g, a2, b2, after.blocks, e)
  {
    var g, e := s.rule.g, ElementIndex(h, s);
    SomeBlock(g);
    var elements := ReadElements(s.rule, e);
    assert OpenBlocks(h, g, s.beforeRoot, o.before, BlockIndices(g, elements)).Open?;
    assert OpenBlocks(h, g, s.afterRoot, o.after, BlockIndices(g, {e})).Open?;
    hide Verify, OpenBlocks, StateRoot, ElementIndex, ReadElements, OpeningsCollision, StatePayloads, BlockIndices, OpenAt, AgreesAt, AllStrict;
    forall x | x in elements
      ensures var before := OpenBlocks(h, g, s.beforeRoot, o.before, BlockIndices(g, elements)).blocks;
              OpenAt(g, before, x) && AgreesAt(g, a, b, before, x)
    {
      OpenedAgrees(h, g, a, b, o.before, elements, x);
    }
    OpenedAgrees(h, g, a2, b2, o.after, {e}, e);
  }

  /** The blocks an accepted opening opens, before and after. */
  ghost predicate OpenedAs(h: HashFn, s: Statement, o: TransitionOpening, before: Blocks, after: Blocks)
    requires s.Valid()
  {
    var g, e := s.rule.g, ElementIndex(h, s);
    && OpenBlocks(h, g, s.beforeRoot, o.before, BlockIndices(g, ReadElements(s.rule, e))) == Open(before)
    && OpenBlocks(h, g, s.afterRoot, o.after, BlockIndices(g, {e})) == Open(after)
  }

  /** What acceptance means for the opened values: the update, modulo 256, at
      the derived element, from the fill when the mix index is 0. */
  lemma AcceptedUpdate(h: HashFn, s: Statement, o: TransitionOpening) returns (before: Blocks, after: Blocks)
    requires Verify(h, s, o).None?
    ensures s.Valid() && OpenedAs(h, s, o, before, after)
    ensures Readable(s.rule, before, ElementIndex(h, s)) && OpenAt(s.rule.g, after, ElementIndex(h, s))
    ensures var e := ElementIndex(h, s);
            && (OpenedA(s.rule.g, after, e), OpenedB(s.rule.g, after, e)) == Expected(s.rule, e, OpenedReads(s.rule, before, e))
            && (s.rule.mixIndex == 0 ==> OpenedReads(s.rule, before, e) == InitialValues(s.rule, e))
  {
    hide CheckBlock, Expected, OpenedReads, InitialValues, OpenBlocks, OpenedA, OpenedB, ElementIndex;
    var g, e := s.rule.g, ElementIndex(h, s);
    before := OpenBlocks(h, g, s.beforeRoot, o.before, BlockIndices(g, ReadElements(s.rule, e))).blocks;
    after := OpenBlocks(h, g, s.afterRoot, o.after, BlockIndices(g, {e})).blocks;
    OpenCoversAll(h, g, s.beforeRoot, o.before, ReadElements(s.rule, e));
    OpenCoversAll(h, g, s.afterRoot, o.after, {e});
    assert Readable(s.rule, before, e);
  }

  /** Of two openings with the same after-value one at most is accepted, when the
      values they read differ in one byte that enters the first value, or in one
      that enters the second. */
  lemma ChangedReadRefused(h: HashFn, s: Statement, o: TransitionOpening, p: TransitionOpening,
                           before: Blocks, changed: Blocks, after: Blocks, again: Blocks, lane: nat, v: int)
    requires s.Valid() && OpenedAs(h, s, o, before, after) && OpenedAs(h, s, p, changed, again)
    requires Readable(s.rule, before, ElementIndex(h, s)) && Readable(s.rule, changed, ElementIndex(h, s))
    requires OpenAt(s.rule.g, after, ElementIndex(h, s)) && OpenAt(s.rule.g, again, ElementIndex(h, s))
    requires OpenedA(s.rule.g, after, ElementIndex(h, s)) == OpenedA(s.rule.g, again, ElementIndex(h, s))
    requires OpenedB(s.rule.g, after, ElementIndex(h, s)) == OpenedB(s.rule.g, again, ElementIndex(h, s))
    requires lane < s.rule.fanout
    requires var r, c := OpenedReads(s.rule, before, ElementIndex(h, s)), OpenedReads(s.rule, changed, ElementIndex(h, s));
             || (c == r.(bk := r.bk[lane := v]) && !SameByte(v, r.bk[lane]))
             || (c == r.(aj := r.aj[lane := v]) && !SameByte(v, r.aj[lane]))
             || (c == r.(ai := v) && !SameByte(v, r.ai))
             || (c == r.(bi := v) && !SameByte(v, r.bi))
    requires Verify(h, s, o).None?
    ensures Verify(h, s, p).Some?
  {
    var rule, e := s.rule, ElementIndex(h, s);
    var r := OpenedReads(rule, before, e);
    EveryReadCounts(rule, e, r, lane, v);
    var x, y := AcceptedUpdate(h, s, o);
    assert x == before && y == after;
    hide SameByte, Expected, OpenedReads, ElementIndex, OpenedA, OpenedB, OpenBlocks, InitialValues;
    if Verify(h, s, p).None? {
      var z, w := AcceptedUpdate(h, s, p);
    }
  }

  /** Soundness. An accepted opening with strict paths shows that the committed
      states obey the rule at the derived element, the first state being the
      fill there when the mix index is 0 - or it gives away a collision. */
  lemma TransitionSound(h: HashFn, s: Statement, a: Matrix, b: Matrix, a2: Matrix, b2: Matrix, o: TransitionOpening)
    requires Digests(h) && s.Valid() && State(a, b, s.rule.g) && State(a2, b2, s.rule.g)
    requires s.beforeRoot == StateRoot(h, a, b, s.rule.g) && s.afterRoot == StateRoot(h, a2, b2, s.rule.g)
    requires Verify(h, s, o).None? && AllStrict(s.rule.g, o.before) && AllStrict(s.rule.g, o.after)
    ensures (StepsAt(s.rule, a, b, a2, b2, ElementIndex(h, s))
             && (s.rule.mixIndex == 0 ==> StateReads(s.rule, a, b, ElementIndex(h, s)) == InitialValues(s.rule, ElementIndex(h, s))))
         || IsCollision(h, TransitionCollision(h, s.rule.g, a, b, a2, b2, o))
  {
    hide Verify, OpenBlocks, StateRoot, ElementIndex, ReadElements, TransitionCollision, OpenedReads, StateReads,
      Expected, SameReads, StepsAt, OpenedA, OpenedB, Entry, InitialValues, AllStrict;
    if !IsCollision(h, TransitionCollision(h, s.rule.g, a, b, a2, b2, o)) {
      var before, after := AcceptedUpdate(h, s, o);
      AcceptedAgrees(h, s, a, b, a2, b2, o);
      var rule, e := s.rule, ElementIndex(h, s);
      ReadsAgree(rule, a, b, before, e);
      StepFromReads(rule, a, b, a2, b2, e, OpenedReads(rule, before, e), OpenedA(rule.g, after, e), OpenedB(rule.g, after, e));
      if rule.mixIndex == 0 {
        InitialFromReads(rule, a, b, e);
      }
    }
  }

  lemma StepFromReads(rule: Rule, a: Matrix, b: Matrix, a2: Matrix, b2: Matrix, e: nat, seen: Reads, x: int, y: int)
    requires State(a, b, rule.g) && State(a2, b2, rule.g) && e < rule.Total()
    requires |seen.aj| == |seen.bk| == rule.fanout
    requires SameReads(seen, StateReads(rule, a, b, e))
    requires (x, y) == Expected(rule, e, seen)
    requires U8(x) == U8(Entry(a2, rule.Dim(), e)) && U8(y) == U8(Entry(b2, rule.Dim(), e))
    ensures StepsAt(rule, a, b, a2, b2, e)
  {
    hide Entry, Fill.SplitMix, Xor, StateReads, SameReads;
    SameOut(rule, e, seen, StateReads(rule, a, b, e), rule.fanout);
    EntryIsInt8(a2, rule.Dim(), e);
    EntryIsInt8(b2, rule.Dim(), e);
    SignedByte(x);
    SignedByte(y);
    SignedByte(Entry(a2, rule.Dim(), e));
    SignedByte(Entry(b2, rule.Dim(), e));
  }

  lemma InitialFromReads(rule: Rule, a: Matrix, b: Matrix, e: nat)
    requires State(a, b, rule.g) && e < rule.Total()
    requires SameReads(InitialValues(rule, e), StateReads(rule, a, b, e))
    ensures StateReads(rule, a, b, e) == InitialValues(rule, e)
  {
    hide Entry, Fill.FillValue, Fill.SplitMix, Xor, U8, I8;
    var r, s, n := StateReads(rule, a, b, e), InitialValues(rule, e), rule.Dim();
    EntryIsInt8(a, n, e);
    EntryIsInt8(b, n, e);
    SignedByte(r.ai);
    SignedByte(r.bi);
    SignedByte(s.ai);
    SignedByte(s.bi);
    forall lane | 0 <= lane < rule.fanout
      ensures r.aj[lane] == s.aj[lane] && r.bk[lane] == s.bk[lane]
    {
      EntryIsInt8(a, n, rule.SourceA(e, lane));
      EntryIsInt8(b, n, rule.SourceB(e, lane));
      SignedByte(r.aj[lane]);
      SignedByte(r.bk[lane]);
      SignedByte(s.aj[lane]);
      SignedByte(s.bk[lane]);
    }
    assert r.aj == s.aj && r.bk == s.bk;
  }

  // ------------------------------------------------------------- completeness

  function ElementAt(n: nat, r: nat, c: nat): (e: nat)
    requires r < n && c < n
    ensures e < n * n
    ensures e / n == r && e % n == c
  {
    MulOrder(r + 1, n, n);
    DivMod(r, c, n);
    r * n + c
  }

  /** The update applied to every element. */
  function NextA(rule: Rule, a: Matrix, b: Matrix): (m: Matrix)
    requires Squares(a, b, rule.g)
    ensures Rect(m, rule.Dim(), rule.Dim())
  {
    var n := rule.Dim();
    seq(n, r requires 0 <= r < n => seq(n, c requires 0 <= c < n =>
      var e := ElementAt(n, r, c); Expected(rule, e, StateReads(rule, a, b, e)).0))
  }

  function NextB(rule: Rule, a: Matrix, b: Matrix): (m: Matrix)
    requires Squares(a, b, rule.g)
    ensures Rect(m, rule.Dim(), rule.Dim())
  {
    var n := rule.Dim();
    seq(n, r requires 0 <= r < n => seq(n, c requires 0 <= c < n =>
      var e := ElementAt(n, r, c); Expected(rule, e, StateReads(rule, a, b, e)).1))
  }

  lemma NextSteps(rule: Rule, a: Matrix, b: Matrix, e: nat)
    requires Squares(a, b, rule.g) && e < rule.Total()
    ensures StepsAt(rule, a, b, NextA(rule, a, b), NextB(rule, a, b), e)
  {
    hide Expected, StateReads;
    var n := rule.Dim();
    DivBound(e, n, n);
    Recompose(e, n);
    assert ElementAt(n, e / n, e % n) == e;
  }

  /** The updated matrices are again a state. */
  lemma NextIsState(rule: Rule, a: Matrix, b: Matrix)
    requires Squares(a, b, rule.g)
    ensures State(NextA(rule, a, b), NextB(rule, a, b), rule.g)
  {
    hide StateReads, Rule.OutA, Rule.OutB;
    var n, a2, b2 := rule.Dim(), NextA(rule, a, b), NextB(rule, a, b);
    forall r | 0 <= r < n
      ensures WithinRow(a2[r], -128, 127) && WithinRow(b2[r], -128, 127)
    {
    }
  }

  /** In the filled state the relation reads the fill, at every element. */
  lemma FilledReads(rule: Rule, a: Matrix, b: Matrix, e: nat)
    requires Squares(a, b, rule.g) && e < rule.Total()
    requires forall x :: 0 <= x < rule.Total() ==> FilledAt(rule, a, b, x)
    ensures StateReads(rule, a, b, e) == InitialValues(rule, e)
  {
    hide Entry, Fill.FillValue, Rule.SourceA, Rule.SourceB;
    var r, s := StateReads(rule, a, b, e), InitialValues(rule, e);
    assert FilledAt(rule, a, b, e);
    forall lane | 0 <= lane < rule.fanout
      ensures r.aj[lane] == s.aj[lane] && r.bk[lane] == s.bk[lane]
    {
      assert FilledAt(rule, a, b, rule.SourceA(e, lane)) && FilledAt(rule, a, b, rule.SourceB(e, lane));
    }
    assert r.aj == s.aj && r.bk == s.bk;
  }

  /** The honest opening of one block. */
  function HonestBlock(h: HashFn, g: Grid, a: Matrix, b: Matrix, k: nat): BlockOpening
    requires Squares(a, b, g) && k < g.Count()
  {
    Coordinates(g, k);
    BlockOpening(k, SubBlock(a, g, k / g.per, k % g.per), SubBlock(b, g, k / g.per, k % g.per),
      PathData(k, Path(h, STATE_KIND.nodeTag, LeafHashes(h, STATE_KIND, StatePayloads(a, b, g)), k)))
  }

  lemma HonestBlockPasses(h: HashFn, g: Grid, a: Matrix, b: Matrix, k: nat)
    requires State(a, b, g) && g.per > 0 && k < g.Count()
    ensures CheckBlock(h, g, StateRoot(h, a, b, g), HonestBlock(h, g, a, b, k)).None?
    ensures Strict(g, HonestBlock(h, g, a, b, k))
  {
    hide Fold, Path, Interleave, SubBlock;
    Coordinates(g, k);
    var i, j := k / g.per, k % g.per;
    StatePayloadAt(a, b, g, i, j);
    SubBlockWithin(a, g, i, j, -128, 127);
    SubBlockWithin(b, g, i, j, -128, 127);
    WithinWider(SubBlock(a, g, i, j));
    WithinWider(SubBlock(b, g, i, j));
    HonestPath(h, STATE_KIND.nodeTag, LeafHashes(h, STATE_KIND, StatePayloads(a, b, g)), k);
  }

  lemma WithinWider(m: Matrix)
    requires Int8(m)
    ensures Int16(m)
  {
    forall r | 0 <= r < |m|
      ensures WithinRow(m[r], -0x8000, 0x7FFF)
    {
      assert WithinRow(m[r], -128, 127);
    }
  }

  function HonestBlocks(h: HashFn, g: Grid, a: Matrix, b: Matrix, order: seq<nat>): (o: seq<BlockOpening>)
    requires Squares(a, b, g) && forall i :: 0 <= i < |order| ==> order[i] < g.Count()
    ensures |o| == |order|
  {
    seq(|order|, i requires 0 <= i < |order| => HonestBlock(h, g, a, b, order[i]))
  }

  /** The order lists the required indices, each once. */
  ghost predicate Lists(order: seq<nat>, required: set<int>) {
    && (forall i, j :: 0 <= i < j < |order| ==> order[i] != order[j])
    && (forall k :: k in required <==> k in order)
  }

  lemma {:induction false} ListedCount(order: seq<nat>, required: set<int>)
    requires Lists(order, required)
    ensures |order| == |required|
    decreases |order|
  {
    if |order| == 0 {
      assert forall k :: k in required ==> k in order;
      assert required == {};
    } else {
      var rest, smaller := order[1..], required - {order[0] as int};
      assert order == [order[0]] + rest;
      ListedCount(rest, smaller);
    }
  }

  lemma ListedInRange(g: Grid, order: seq<nat>, elements: set<nat>)
    requires g.size > 0 && forall x :: x in elements ==> x < g.Dim() * g.Dim()
    requires Lists(order, BlockIndices(g, elements))
    ensures forall i :: 0 <= i < |order| ==> order[i] < g.Count()
  {
    forall i | 0 <= i < |order|
      ensures order[i] < g.Count()
    {
      assert order[i] in order && order[i] as int in BlockIndices(g, elements);
    }
  }

  lemma HonestOpens(h: HashFn, g: Grid, a: Matrix, b: Matrix, order: seq<nat>, required: set<int>)
    requires State(a, b, g) && g.per > 0
    requires forall i :: 0 <= i < |order| ==> order[i] < g.Count()
    requires Lists(order, required)
    ensures OpenBlocks(h, g, StateRoot(h, a, b, g), HonestBlocks(h, g, a, b, order), required).Open?
  {
    hide CheckBlock, FirstBad, StateRoot, HonestBlock, Strict;
    var root, openings := StateRoot(h, a, b, g), HonestBlocks(h, g, a, b, order);
    forall i | 0 <= i < |openings|
      ensures CheckBlock(h, g, root, openings[i]).None?
    {
      HonestBlockPasses(h, g, a, b, order[i]);
    }
    FirstBadNone(h, g, root, openings);
    ListedCount(order, required);
    hide Collect;
    CollectFinds(openings, |openings|);
    forall k | k in required
      ensures k in Collect(openings, |openings|)
    {
      assert k in order;
      var i :| 0 <= i < |order| && order[i] == k;
      HonestIndex(h, g, a, b, order[i]);
      assert openings[i].blockIndex == k;
    }
  }

  lemma HonestIndex(h: HashFn, g: Grid, a: Matrix, b: Matrix, k: nat)
    requires Squares(a, b, g) && k < g.Count()
    ensures HonestBlock(h, g, a, b, k).blockIndex == k
  {
  }

  lemma HonestOpen(h: HashFn, g: Grid, a: Matrix, b: Matrix, order: seq<nat>, elements: set<nat>, e: nat)
    requires State(a, b, g) && g.size > 0 && g.per > 0
    requires forall x :: x in elements ==> x < g.Dim() * g.Dim()
    requires Lists(order, BlockIndices(g, elements)) && e in elements
    ensures forall i :: 0 <= i < |order| ==> order[i] < g.Count()
    ensures var r := OpenBlocks(h, g, StateRoot(h, a, b, g), HonestBlocks(h, g, a, b, order), BlockIndices(g, elements));
            && r.Open? && OpenAt(g, r.blocks, e)
            && OpenedA(g, r.blocks, e) == Entry(a, g.Dim(), e) && OpenedB(g, r.blocks, e) == Entry(b, g.Dim(), e)
  {
    hide CheckBlock, FirstBad, StateRoot, EntryIn, SubBlock, Path, Entry, Lists;
    var required := BlockIndices(g, elements);
    ListedInRange(g, order, elements);
    HonestOpens(h, g, a, b, order, required);
    var root, openings := StateRoot(h, a, b, g), HonestBlocks(h, g, a, b, order);
    OpenCoversAll(h, g, root, openings, elements);
    OpenedExactly(h, g, root, openings, required);
    assert BlockOf(g, e) as int in required;
    var i :| 0 <= i < |openings| && openings[i].blockIndex == BlockOf(g, e);
    assert Found(openings, OpenBlocks(h, g, root, openings, required).blocks, i);
    HonestIndex(h, g, a, b, order[i]);
    AtCoordinates(g, BlockRow(g, e), BlockColumn(g, e));
    EntryOfBlock(a, g, e);
    EntryOfBlock(b, g, e);
  }

  /** Completeness. With the required before-blocks in any order and the one
      after-block, the honest opening of a step that obeys the rule at the
      derived element is accepted. */
  lemma TransitionComplete(h: HashFn, s: Statement, a: Matrix, b: Matrix, a2: Matrix, b2: Matrix, order: seq<nat>)
    requires s.rule.g.size > 0 && s.rule.g.per > 0 && s.rule.fanout > 0 && State(a, b, s.rule.g) && State(a2, b2, s.rule.g)
    requires s.beforeRoot == StateRoot(h, a, b, s.rule.g) && s.afterRoot == StateRoot(h, a2, b2, s.rule.g)
    requires Lists(order, BlockIndices(s.rule.g, ReadElements(s.rule, ElementIndex(h, s))))
    requires StepsAt(s.rule, a, b, a2, b2, ElementIndex(h, s))
    requires s.rule.mixIndex == 0 ==> StateReads(s.rule, a, b, ElementIndex(h, s)) == InitialValues(s.rule, ElementIndex(h, s))
    ensures forall i :: 0 <= i < |order| ==> order[i] < s.rule.g.Count()
    ensures var e := ElementIndex(h, s);
            Verify(h, s, TransitionOpening(e, HonestBlocks(h, s.rule.g, a, b, order),
              HonestBlocks(h, s.rule.g, a2, b2, [BlockOf(s.rule.g, e)]))).None?
  {
    hide OpenBlocks, CheckBlock, StateRoot, Expected, Entry, EntryIn, Fill.SplitMix, Xor, HonestBlocks, ElementIndex;
    var rule, g, e := s.rule, s.rule.g, ElementIndex(h, s);
    var elements := ReadElements(rule, e);
    assert e in elements;
    HonestOpen(h, g, a, b, order, elements, e);
    assert Lists([BlockOf(g, e)], BlockIndices(g, {e}));
    HonestOpen(h, g, a2, b2, [BlockOf(g, e)], {e}, e);
    var openings := HonestBlocks(h, g, a, b, order);
    OpenCoversAll(h, g, s.beforeRoot, openings, elements);
    var before := OpenBlocks(h, g, s.beforeRoot, openings, BlockIndices(g, elements)).blocks;
    HonestReads(h, s, a, b, order);
    assert OpenedReads(rule, before, e) == StateReads(rule, a, b, e);
  }

  /** The honest prover passes: whoever updates every element, from the fill when
      the mix index is 0, and opens the required blocks is accepted, whatever
      element the statement draws. */
  lemma HonestUpdateAccepted(h: HashFn, s: Statement, a: Matrix, b: Matrix, order: seq<nat>)
    requires s.rule.g.size > 0 && s.rule.g.per > 0 && s.rule.fanout > 0 && State(a, b, s.rule.g)
    requires s.beforeRoot == StateRoot(h, a, b, s.rule.g)
    requires s.afterRoot == StateRoot(h, NextA(s.rule, a, b), NextB(s.rule, a, b), s.rule.g)
    requires s.rule.mixIndex == 0 ==> forall x :: 0 <= x < s.rule.Total() ==> FilledAt(s.rule, a, b, x)
    requires Lists(order, BlockIndices(s.rule.g, ReadElements(s.rule, ElementIndex(h, s))))
    ensures forall i :: 0 <= i < |order| ==> order[i] < s.rule.g.Count()
    ensures var e := ElementIndex(h, s);
            Verify(h, s, TransitionOpening(e, HonestBlocks(h, s.rule.g, a, b, order),
              HonestBlocks(h, s.rule.g, NextA(s.rule, a, b), NextB(s.rule, a, b), [BlockOf(s.rule.g, e)]))).None?
  {
    hide Verify, StateRoot, ElementIndex, ReadElements, StateReads, InitialValues, FilledAt, StepsAt, Lists,
      NextA, NextB, HonestBlocks, BlockOf;
    var e := ElementIndex(h, s);
    NextIsState(s.rule, a, b);
    NextSteps(s.rule, a, b, e);
    if s.rule.mixIndex == 0 {
      FilledReads(s.rule, a, b, e);
    }
    TransitionComplete(h, s, a, b, NextA(s.rule, a, b), NextB(s.rule, a, b), order);
  }

  lemma HonestReads(h: HashFn, s: Statement, a: Matrix, b: Matrix, order: seq<nat>)
    requires s.Valid() && State(a, b, s.rule.g) && s.beforeRoot == StateRoot(h, a, b, s.rule.g)
    requires Lists(order, BlockIndices(s.rule.g, ReadElements(s.rule, ElementIndex(h, s))))
    ensures forall i :: 0 <= i < |order| ==> order[i] < s.rule.g.Count()
    ensures var g, e := s.rule.g, ElementIndex(h, s);
            var r := OpenBlocks(h, g, s.beforeRoot, HonestBlocks(h, g, a, b, order), BlockIndices(g, ReadElements(s.rule, e)));
            r.Open? && Readable(s.rule, r.blocks, e) && OpenedReads(s.rule, r.blocks, e) == StateReads(s.rule, a, b, e)
  {
    hide OpenBlocks, CheckBlock, StateRoot, Expected, Entry, EntryIn, Fill.SplitMix, Xor, HonestBlocks, ElementIndex;
    var rule, g, e := s.rule, s.rule.g, ElementIndex(h, s);
    var elements := ReadElements(rule, e);
    assert e in elements;
    HonestOpen(h, g, a, b, order, elements, e);
    var openings := HonestBlocks(h, g, a, b, order);
    OpenCoversAll(h, g, s.beforeRoot, openings, elements);
    var before := OpenBlocks(h, g, s.beforeRoot, openings, BlockIndices(g, elements)).blocks;
    forall x | x in elements
      ensures OpenAt(g, before, x) && OpenedA(g, before, x) == Entry(a, g.Dim(), x) && OpenedB(g, before, x) == Entry(b, g.Dim(), x)
    {
      HonestOpen(h, g, a, b, order, elements, x);
    }
    hide OpenedA, OpenedB;
    forall lane | 0 <= lane < rule.fanout
      ensures rule.SourceA(e, lane) in elements && rule.SourceB(e, lane) in elements
    {
    }
    assert OpenedReads(rule, before, e).aj == StateReads(rule, a, b, e).aj;
    assert OpenedReads(rule, before, e).bk == StateReads(rule, a, b, e).bk;
  }

  // ---------------------------------------------------- the index of a block

  /** The block check takes the directions from the path, so the opening of
      block k passes under every other index j. */
  lemma RelabelledPasses(h: HashFn, g: Grid, a: Matrix, b: Matrix, k: nat, j: nat)
    requires State(a, b, g) && g.per > 0 && k < g.Count() && j < g.Count()
    ensures var o := HonestBlock(h, g, a, b, k);
            CheckBlock(h, g, StateRoot(h, a, b, g), BlockOpening(j, o.a, o.b, PathData(j, o.path.siblings))).None?
  {
    HonestBlockPasses(h, g, a, b, k);
    hide Fold, Path, Interleave, SubBlock, StateRoot;
  }

  /** Exactly when a passed block is the one committed at its index: over
      pairwise different blocks, when the directions lead to that index. */
  lemma IndexBoundExactly(h: HashFn, g: Grid, a: Matrix, b: Matrix, o: BlockOpening)
    requires Digests(h) && Squares(a, b, g) && g.per > 0
    requires CheckBlock(h, g, StateRoot(h, a, b, g), o).None?
    requires forall i, j :: 0 <= i < j < g.Count() ==> StatePayloads(a, b, g)[i] != StatePayloads(a, b, g)[j]
    requires |StatePayloads(a, b, g)| > 0
    requires !IsCollision(h, PayloadCollision(h, STATE_KIND, StatePayloads(a, b, g), Interleave(o.a, o.b), o.path.siblings))
    ensures |o.path.siblings| == Height(g.Count())
    ensures Interleave(o.a, o.b) == StatePayloads(a, b, g)[o.blockIndex] <==> Resolve(g.Count(), o.path.siblings) == o.blockIndex
  {
    hide PayloadCollision, Interleave, Fold, Resolve;
    KindsSeparated();
    LooseBindingExact(h, STATE_KIND, StatePayloads(a, b, g), o.blockIndex, Interleave(o.a, o.b), o.path.siblings);
  }
}
