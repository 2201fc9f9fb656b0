/** Which lengths of the commitment and the hotkey a receipt message tells: the
    two fields are signed without a length of their own. */
module ReceiptLengths {
  import opened ByteStrings
  import opened Receipts
  import opened Utf8
  import opened Wrappers

  predicate Lengths(r: Receipt, c: nat, h: nat) {
    |r.commitment| == c && |r.hotkey| == h
  }

  /** Receipts of one generation with the first pair of lengths and with the
      second share a message only when they agree on every signed field. */
  ghost predicate InjectiveOver(g: nat, c1: nat, h1: nat, c2: nat, h2: nat) {
    forall a: Receipt, b: Receipt ::
      Lengths(a, c1, h1) && Lengths(b, c2, h2) && Generation(a) == g && Generation(b) == g
      && Message(a).Some? && Message(a) == Message(b)
      ==> SameSigned(a, b)
  }

  lemma InjectiveSymmetric(g: nat, c1: nat, h1: nat, c2: nat, h2: nat)
    requires InjectiveOver(g, c1, h1, c2, h2)
    ensures InjectiveOver(g, c2, h2, c1, h1)
  {
    hide Message, Generation;
    forall a: Receipt, b: Receipt
      | Lengths(a, c2, h2) && Lengths(b, c1, h1) && Generation(a) == g && Generation(b) == g
        && Message(a).Some? && Message(a) == Message(b)
      ensures SameSigned(a, b)
    {
      assert SameSigned(b, a);
    }
  }

  /** Receipts of equal lengths are told apart in every generation. */
  lemma SameLengthsInjective(g: nat, c: nat, h: nat)
    ensures InjectiveOver(g, c, h, c, h)
  {
    hide Message1, Message2, Message3, Message4, Ok1, Same1, Same2, Same4;
    forall a: Receipt, b: Receipt
      | Lengths(a, c, h) && Lengths(b, c, h) && Generation(a) == g && Generation(b) == g
        && Message(a).Some? && Message(a) == Message(b)
      ensures SameSigned(a, b)
    {
      OneGeneration(a, b);
    }
  }

  // -------------------------------------------------------------------- layout

  /** What stands before the commitment, and what the two lengths move. */
  function Front(r: Receipt): seq<Chunk>
    requires Ok1(r)
  {
    [Counted(Raw(r.minerAddress)), Counted(Raw(r.modelId)),
     Fixed(SignedBigEndian(r.modelIndex, 8)), Fixed(SignedBigEndian(r.epochNumber, 8))]
  }

  function Numbers(r: Receipt): (b: Bytes)
    requires Ok1(r)
    ensures |b| == 48
  {
    SignedBigEndian(r.timestamp, 8) + r.ttft + SignedBigEndian(r.tokensGenerated, 8)
    + r.generationTime + r.tokensPerSec + SignedBigEndian(r.promptTokens, 8)
  }

  function Switches(r: Receipt): (b: Bytes)
    ensures |b| == 4
  {
    TeeFits(r.tee);
    PackBool(r.proofVerified) + PackBool(r.proofRequested) + PackBool(r.isCanary) + SignedBigEndian(TeeValue(r.tee), 1)
  }

  function Body(r: Receipt): (b: Bytes)
    requires Ok1(r)
    ensures |b| == 52 + |r.commitment| + |r.hotkey|
  {
    r.commitment + Numbers(r) + Switches(r) + r.hotkey
  }

  lemma JoinCons(c: Chunk, cs: seq<Chunk>)
    ensures Join([c] + cs) == ChunkBytes(c) + Join(cs)
  {
    assert ([c] + cs)[1..] == cs;
  }

  lemma JoinOne(d: Bytes)
    ensures Join([Fixed(d)]) == d
  {
    assert [Fixed(d)][1..] == [];
    assert d + [] == d;
  }

  lemma JoinTwo(c: Bytes, d: Bytes)
    ensures Join([Fixed(c), Fixed(d)]) == c + d
  {
    JoinCons(Fixed(c), [Fixed(d)]);
    JoinOne(d);
    assert [Fixed(c)] + [Fixed(d)] == [Fixed(c), Fixed(d)];
  }

  lemma JoinThree(b: Bytes, c: Bytes, d: Bytes)
    ensures Join([Fixed(b), Fixed(c), Fixed(d)]) == b + c + d
  {
    JoinCons(Fixed(b), [Fixed(c), Fixed(d)]);
    JoinTwo(c, d);
    assert [Fixed(b)] + [Fixed(c), Fixed(d)] == [Fixed(b), Fixed(c), Fixed(d)];
    Associates(b, c, d);
  }

  lemma MetricsFlat(r: Receipt)
    requires Ok1(r)
    ensures Join(Metrics(r)) == Numbers(r)
  {
    hide Join, SignedBigEndian, FitsSigned;
    var a: Bytes, b: Bytes, c: Bytes := SignedBigEndian(r.timestamp, 8), r.ttft, SignedBigEndian(r.tokensGenerated, 8);
    var d: Bytes, e: Bytes, f: Bytes := r.generationTime, r.tokensPerSec, SignedBigEndian(r.promptTokens, 8);
    JoinThree(a, b, c);
    JoinThree(d, e, f);
    JoinConcat([Fixed(a), Fixed(b), Fixed(c)], [Fixed(d), Fixed(e), Fixed(f)]);
    assert [Fixed(a), Fixed(b), Fixed(c)] + [Fixed(d), Fixed(e), Fixed(f)] == Metrics(r);
    Associates(a + b + c, d + e, f);
    Associates(a + b + c, d, e);
  }

  lemma FlagsFlat(r: Receipt)
    requires FitsSigned(TeeValue(r.tee), 1)
    ensures Join(Flags(r)) == Switches(r) + r.hotkey
  {
    hide Join, SignedBigEndian, FitsSigned, PackBool;
    var a, b, c := PackBool(r.proofVerified), PackBool(r.proofRequested), PackBool(r.isCanary);
    var d := SignedBigEndian(TeeValue(r.tee), 1);
    JoinThree(a, b, c);
    JoinTwo(d, r.hotkey);
    JoinConcat([Fixed(a), Fixed(b), Fixed(c)], [Fixed(d), Fixed(r.hotkey)]);
    assert [Fixed(a), Fixed(b), Fixed(c)] + [Fixed(d), Fixed(r.hotkey)] == Flags(r);
    Associates(a + b + c, d, r.hotkey);
  }

  lemma Flat1(r: Receipt)
    requires Ok1(r)
    ensures Message1(r) == Join(Front(r)) + Body(r)
  {
    hide Join, Numbers, Switches, Ok1, Raw, SignedBigEndian;
    TeeFits(r.tee);
    MetricsFlat(r);
    FlagsFlat(r);
    var c, m, f := r.commitment, Numbers(r), Switches(r);
    assert Head(r) == Front(r) + [Fixed(c)];
    JoinConcat(Front(r), [Fixed(c)]);
    JoinOne(c);
    JoinConcat(Head(r) + Metrics(r), Flags(r));
    JoinConcat(Head(r), Metrics(r));
    hide Front, Metrics, Flags, Head;
    Associates(Join(Front(r)) + c, m, f + r.hotkey);
    Associates(Join(Front(r)), c, m + (f + r.hotkey));
    Associates(c, m, f + r.hotkey);
    Associates(c + m, f, r.hotkey);
  }

  /** Messages with anything behind them agree on what stands before the
      commitment, and on the rest as one byte string. */
  lemma FrontCancel(a: Receipt, b: Receipt, x: Bytes, y: Bytes)
    requires Ok1(a) && Ok1(b) && Message1(a) + x == Message1(b) + y
    ensures Body(a) + x == Body(b) + y
  {
    hide Join, Body, SignedBigEndian, Message1;
    Flat1(a);
    Flat1(b);
    Associates(Join(Front(a)), Body(a), x);
    Associates(Join(Front(b)), Body(b), y);
    JoinInjective(Front(a), Front(b), Body(a) + x, Body(b) + y);
  }

  // ------------------------------------------------------ receipts from a body

  /** The switch bytes that an encoder can write. */
  predicate Legal(s: Bytes) {
    |s| == 4 && s[0] <= 1 && s[1] <= 1 && s[2] <= 1 && (s[3] <= 1 || s[3] == 255)
  }

  /** The receipt whose body is w, with the commitment taking the first c
      bytes. */
  function FromBody(w: Bytes, c: nat, version: int, timing: Text): Receipt
    requires |w| >= c + 52
  {
    Receipt([], [], 0, 0, w[..c],
            FromSignedBigEndian(w[c..c + 8]), w[c + 8..c + 16], FromSignedBigEndian(w[c + 16..c + 24]),
            w[c + 24..c + 32], w[c + 32..c + 40], FromSignedBigEndian(w[c + 40..c + 48]),
            w[c + 48] == 1, w[c + 49] == 1, TeeOf(w[c + 51]), w[c + 50] == 1, version, timing, Zeros(8), Zeros(8), [], [], "", 0, w[c + 52..])
  }

  function TeeOf(b: byte): Option<bool> {
    if b == 255 then None else Some(b == 1)
  }

  lemma SmallFits(v: int)
    requires -1 <= v < 128
    ensures FitsSigned(v, 8) && FitsSigned(v, 1)
  {
    Widths();
  }

  lemma {:induction false} ZeroEncoding(k: nat)
    ensures BigEndian(0, k) == Zeros(k)
    decreases k
  {
    if k > 0 {
      ZeroEncoding(k - 1);
    }
  }

  lemma TeeBytes(t: Option<bool>)
    ensures FitsSigned(TeeValue(t), 1)
    ensures SignedBigEndian(TeeValue(t), 1) == [if t.None? then 255 else if t.value then 1 else 0]
  {
    TeeFits(t);
    Widths();
    SmallBigEndian(Unsigned(TeeValue(t), 1), 1);
  }

  lemma SwitchesLegal(r: Receipt)
    ensures Legal(Switches(r))
  {
    TeeBytes(r.tee);
  }

  lemma FromBodySwitches(w: Bytes, c: nat, version: int, timing: Text)
    requires |w| >= c + 52 && Legal(w[c + 48..c + 52])
    ensures Switches(FromBody(w, c, version, timing)) == w[c + 48..c + 52]
  {
    hide SignedBigEndian, FromSignedBigEndian;
    var r, s := FromBody(w, c, version, timing), w[c + 48..c + 52];
    assert s[0] == w[c + 48] && s[1] == w[c + 49] && s[2] == w[c + 50] && s[3] == w[c + 51];
    TeeBytes(r.tee);
  }

  lemma CutNumbers(m: Bytes)
    requires |m| == 48
    ensures m == m[..8] + m[8..16] + m[16..24] + m[24..32] + m[32..40] + m[40..48]
  {
  }

  lemma SliceOfSlice(w: Bytes, c: nat, i: nat, j: nat)
    requires i <= j <= 48 && |w| >= c + 48
    ensures w[c..c + 48][i..j] == w[c + i..c + j]
  {
    var left, right := w[c..c + 48][i..j], w[c + i..c + j];
    assert |left| == |right|;
    assert forall k :: 0 <= k < j - i ==> left[k] == w[c + i + k] == right[k];
  }

  lemma FromBodyOk(w: Bytes, c: nat, version: int, timing: Text)
    requires |w| >= c + 52 && 1 <= version <= 4 && Receipts.TextOk(timing)
    ensures Ok4(FromBody(w, c, version, timing)) && Generation(FromBody(w, c, version, timing)) == version
  {
    hide FromSignedBigEndian;
    SmallFits(0);
    SmallFits(version);
    FromSignedBigEndianRoundTrip(w[c..c + 8]);
    FromSignedBigEndianRoundTrip(w[c + 16..c + 24]);
    FromSignedBigEndianRoundTrip(w[c + 40..c + 48]);
    hide FitsSigned;
  }

  lemma FromBodyNumbers(w: Bytes, c: nat, version: int, timing: Text)
    requires |w| >= c + 52 && Ok1(FromBody(w, c, version, timing))
    ensures Numbers(FromBody(w, c, version, timing)) == w[c..c + 48]
  {
    hide FromSignedBigEndian, SignedBigEndian, FitsSigned;
    var m := w[c..c + 48];
    SliceOfSlice(w, c, 0, 8);
    SliceOfSlice(w, c, 8, 16);
    SliceOfSlice(w, c, 16, 24);
    SliceOfSlice(w, c, 24, 32);
    SliceOfSlice(w, c, 32, 40);
    SliceOfSlice(w, c, 40, 48);
    FromSignedBigEndianRoundTrip(w[c..c + 8]);
    FromSignedBigEndianRoundTrip(w[c + 16..c + 24]);
    FromSignedBigEndianRoundTrip(w[c + 40..c + 48]);
    CutNumbers(m);
  }

  /** Every byte string with legal switch bytes is a body. */
  lemma FromBodyExact(w: Bytes, c: nat, version: int, timing: Text)
    requires |w| >= c + 52 && Legal(w[c + 48..c + 52])
    requires Ok1(FromBody(w, c, version, timing))
    ensures var r := FromBody(w, c, version, timing);
            Lengths(r, c, |w| - 52 - c) && Body(r) == w
  {
    var r := FromBody(w, c, version, timing);
    FromBodySwitches(w, c, version, timing);
    FromBodyNumbers(w, c, version, timing);
    hide Numbers, Switches, Ok1;
    assert w == w[..c] + w[c..c + 48] + w[c + 48..c + 52] + w[c + 52..];
  }

  // ----------------------------------------------------------- the first generation

  lemma OneGeneration(a: Receipt, b: Receipt)
    requires SameLengths(a, b) && Generation(a) == Generation(b)
    requires Message(a).Some? && Message(a) == Message(b)
    ensures SameSigned(a, b)
  {
    hide Message1, Message2, Message3, Message4, Ok1, Same1, Same2, Same4;
    match Generation(a)
    case 4 =>
      Injective4(a, b);
    case 3 =>
      assert Message3(a) + [] == Message3(a) && Message3(b) + [] == Message3(b);
      Injective3(a, b, [], []);
    case 2 =>
      assert Message2(a) + [] == Message2(a) && Message2(b) + [] == Message2(b);
      Injective2(a, b, [], []);
    case _ =>
      assert Message1(a) + [] == Message1(a) && Message1(b) + [] == Message1(b);
      Injective1(a, b, [], []);
  }

  /** A first-generation message tells the sum of the two lengths. */
  lemma SumTold(a: Receipt, b: Receipt)
    requires Ok1(a) && Ok1(b) && Message1(a) == Message1(b)
    ensures |a.commitment| + |a.hotkey| == |b.commitment| + |b.hotkey|
  {
    hide Message1, Ok1;
    assert Message1(a) + [] == Message1(a) && Message1(b) + [] == Message1(b);
    FrontCancel(a, b, [], []);
    assert |Body(a) + []| == |Body(b) + []|;
  }

  /** What goes around the first generation, when it is the same. */
  lemma WrapSame(a: Receipt, b: Receipt)
    requires Ok4(a) && Ok4(b) && a.version == b.version
    requires a.digest == b.digest && a.obligation == b.obligation && a.kind == b.kind && a.target == b.target
    requires Generation(a) == 1 ==> Message1(a) == Message1(b)
    requires Generation(a) >= 2 ==> Message1(a) + Join(Timing(a)) == Message1(b) + Join(Timing(b))
    ensures Generation(a) == Generation(b) && Message(a).Some? && Message(a) == Message(b)
  {
    hide Message1, Ok1, Join, Timing;
  }

  lemma ShortTextOk()
    ensures Receipts.TextOk([])
  {
  }

  /** With equal sums two all-zero receipts share a message. */
  lemma EqualSumsCollide(g: nat, c1: nat, h1: nat, c2: nat, h2: nat) returns (a: Receipt, b: Receipt)
    requires 1 <= g <= 4 && c1 + h1 == c2 + h2
    ensures Lengths(a, c1, h1) && Lengths(b, c2, h2) && Generation(a) == g && Generation(b) == g
    ensures Message(a).Some? && Message(a) == Message(b)
  {
    hide SignedBigEndian, FromSignedBigEndian, FitsSigned, Switches, Numbers;
    ShortTextOk();
    var w := Zeros(52 + c1 + h1);
    a, b := FromBody(w, c1, g, []), FromBody(w, c2, g, []);
    FromBodyOk(w, c1, g, []);
    FromBodyOk(w, c2, g, []);
    assert w[c1 + 48..c1 + 52] == Zeros(4) && w[c2 + 48..c2 + 52] == Zeros(4);
    FromBodyExact(w, c1, g, []);
    FromBodyExact(w, c2, g, []);
    assert Front(a) == Front(b) && Timing(a) == Timing(b);
    hide Message1, Front, Timing, Ok1, Join, Body;
    Flat1(a);
    Flat1(b);
    WrapSame(a, b);
  }

  /** Whenever the sums of the lengths agree, in every generation: the lengths
      must be the same. */
  lemma EqualSumsExactly(g: nat, c1: nat, h1: nat, c2: nat, h2: nat)
    requires 1 <= g <= 4 && c1 + h1 == c2 + h2
    ensures InjectiveOver(g, c1, h1, c2, h2) <==> c1 == c2 && h1 == h2
  {
    hide Message, Generation;
    if c1 == c2 {
      SameLengthsInjective(g, c1, h1);
    } else {
      var a, b := EqualSumsCollide(g, c1, h1, c2, h2);
      assert !SameSigned(a, b);
    }
  }

  /** The first generation: lengths that differ are harmless exactly when their
      sums differ too. */
  lemma FirstExactly(c1: nat, h1: nat, c2: nat, h2: nat)
    ensures InjectiveOver(1, c1, h1, c2, h2) <==> ((c1 == c2 && h1 == h2) || c1 + h1 != c2 + h2)
  {
    if c1 + h1 == c2 + h2 {
      EqualSumsExactly(1, c1, h1, c2, h2);
    } else {
      hide Message1, Ok1, SameSigned;
      forall a: Receipt, b: Receipt
        | Lengths(a, c1, h1) && Lengths(b, c2, h2) && Generation(a) == 1 && Generation(b) == 1
        ensures Message(a).Some? ==> Message(a) != Message(b)
      {
        if Message(a).Some? && Message(a) == Message(b) {
          SumTold(a, b);
        }
      }
    }
  }

  // ------------------------------------------------------ the counted field between

  /** What the timing adds: version, counted source, start and end. */
  function Tail(version: int, source: Bytes, ends: Bytes): Bytes
    requires FitsSigned(version, 8) && |source| < 0x1_0000_0000
  {
    SignedBigEndian(version, 8) + BigEndian(|source|, 4) + source + ends
  }

  function Ends(r: Receipt): (b: Bytes)
    ensures |b| == 16
  {
    OrZero(r.observedStart) + OrZero(r.observedEnd)
  }

  lemma TimingFlat(r: Receipt)
    requires Ok2(r)
    ensures Join(Timing(r)) == Tail(r.version, Raw(r.timingSource), Ends(r))
  {
    hide Join, SignedBigEndian, BigEndian, FitsSigned, OrZero, Encode;
    var v, s := SignedBigEndian(r.version, 8), Raw(r.timingSource);
    var e: Bytes, f: Bytes := OrZero(r.observedStart), OrZero(r.observedEnd);
    JoinTwo(e, f);
    JoinCons(Counted(s), [Fixed(e), Fixed(f)]);
    JoinCons(Fixed(v), [Counted(s), Fixed(e), Fixed(f)]);
    assert [Counted(s)] + [Fixed(e), Fixed(f)] == [Counted(s), Fixed(e), Fixed(f)];
    assert [Fixed(v)] + [Counted(s), Fixed(e), Fixed(f)] == Timing(r);
    Associates(v, BigEndian(|s|, 4) + s, e + f);
    Associates(v, BigEndian(|s|, 4), s);
  }

  /** The text that carries the version and the count of m more bytes of a
      shifted receipt, and these bytes. */
  function Planted(d: nat, g: nat, m: nat): Text
    requires d >= 12 && g <= 4 && Decode(BigEndian(m, 4)).Some?
  {
    (seq(d - 5, _ => 0) + [g]) + (Decode(BigEndian(m, 4)).value + Blank(m))
  }

  function Blank(m: nat): (t: Text)
    ensures |t| == m
  {
    seq(m, _ => 0)
  }

  lemma {:induction false} LowTextBytes(t: Text)
    requires forall i :: 0 <= i < |t| ==> t[i] < 128
    ensures Encode(t).Some? && |Encode(t).value| == |t|
    ensures forall i :: 0 <= i < |t| ==> Encode(t).value[i] == t[i]
    decreases |t|
  {
    if |t| > 0 {
      LowTextBytes(t[1..]);
      assert EncodePoint(t[0]) == [t[0]];
    }
  }

  lemma {:induction false} SmallBigEndian(v: nat, k: nat)
    requires v < 256 && k > 0
    ensures BigEndian(v, k) == Zeros(k - 1) + [v]
  {
    ZeroEncoding(k - 1);
    assert v / 256 == 0;
  }

  lemma VersionBytes(g: nat)
    requires 1 <= g <= 4
    ensures FitsSigned(g, 8) && SignedBigEndian(g, 8) == Zeros(7) + [g]
  {
    SmallFits(g);
    SmallBigEndian(g, 8);
  }

  lemma BlankBytes(m: nat)
    requires m < 0x1_0000_0000
    ensures Receipts.TextOk(Blank(m)) && Raw(Blank(m)) == Zeros(m)
  {
    LowTextBytes(Blank(m));
    assert Encode(Blank(m)).value == Zeros(m);
  }

  lemma PlantedFront(d: nat, g: nat)
    requires d >= 12 && 1 <= g <= 4
    ensures Encode(seq(d - 5, _ => 0) + [g]) == Some(Zeros(d - 12) + (Zeros(7) + [g]))
  {
    var t: Text := seq(d - 5, _ => 0) + [g];
    LowTextBytes(t);
    hide Encode;
    var left, right := Encode(t).value, Zeros(d - 12) + (Zeros(7) + [g]);
    forall i | 0 <= i < d - 4
      ensures left[i] == right[i]
    {
    }
    assert left == right;
  }

  /** The planted text, as bytes: padding, the version, the count, and what it
      counts. */
  lemma PlantedBytes(d: nat, g: nat, m: nat)
    requires d >= 12 && m + d < 0x1_0000_0000 && 1 <= g <= 4 && Decode(BigEndian(m, 4)).Some?
    ensures Receipts.TextOk(Planted(d, g, m)) && |Raw(Planted(d, g, m))| == d + m
    ensures Raw(Planted(d, g, m)) == (Zeros(d - 12) + (Zeros(7) + [g])) + (BigEndian(m, 4) + Zeros(m))
  {
    hide Decode, Encode, BigEndian;
    PlantedFront(d, g);
    DecodeThenEncode(BigEndian(m, 4));
    BlankBytes(m);
    EncodeConcat(Decode(BigEndian(m, 4)).value, Blank(m));
    EncodeConcat(seq(d - 5, _ => 0) + [g], Decode(BigEndian(m, 4)).value + Blank(m));
  }

  /** The body of the second receipt: the first body, then the first receipt's
      version, count and padding. */
  function Shifted(s: nat, d: nat, g: nat, m: nat): (w: Bytes)
    requires d >= 12 && m + d < 0x1_0000_0000 && 1 <= g <= 4
    ensures |w| == 52 + s + d
  {
    Zeros(52 + s) + (Zeros(7) + [g]) + BigEndian(m + d, 4) + Zeros(d - 12)
  }

  /** Where its bytes are certainly zero, and where the count stands. */
  lemma ShiftedAt(s: nat, d: nat, g: nat, m: nat, i: nat)
    requires d >= 12 && m + d < 0x1_0000_0000 && 1 <= g <= 4 && i < 52 + s + d
    ensures i < 59 + s || i >= 64 + s ==> Shifted(s, d, g, m)[i] == 0
    ensures 60 + s <= i < 64 + s ==> Shifted(s, d, g, m)[i] == BigEndian(m + d, 4)[i - 60 - s]
  {
    hide BigEndian;
  }

  /** What the switches find when they end k bytes behind the first body. */
  function Window(n: nat, k: nat): (w: Bytes)
    requires n < 0x1_0000_0000 && 12 <= k <= 15
    ensures |w| == 4
  {
    (BigEndian(n, 4) + Zeros(4))[k - 12..k - 8]
  }

  /** The later receipt's timing source can take m bytes: its count is text, and
      the switches fall on legal bytes of the earlier count. */
  predicate Absorbs(d: nat, k: nat, m: nat)
    requires 12 <= k <= 15
  {
    m + d < 0x1_0000_0000 && Decode(BigEndian(m, 4)).Some? && Legal(Window(m + d, k))
  }

  ghost predicate Absorbable(d: nat, k: nat)
    requires 12 <= k <= 15
  {
    exists m: nat :: Absorbs(d, k, m)
  }

  /** The switches of the second receipt find legal bytes in the shifted body. */
  predicate Placed(s: nat, d: nat, c2: nat, m: nat) {
    c2 <= s + 7 || c2 >= s + 16 || (12 <= c2 - s <= 15 && Absorbs(d, c2 - s, m))
  }

  lemma ShiftedSwitches(s: nat, d: nat, g: nat, c2: nat, m: nat)
    requires d >= 12 && m + d < 0x1_0000_0000 && 1 <= g <= 4 && c2 <= s + d && Placed(s, d, c2, m)
    ensures Legal(Shifted(s, d, g, m)[c2 + 48..c2 + 52])
  {
    hide Shifted, BigEndian, Decode;
    var w := Shifted(s, d, g, m)[c2 + 48..c2 + 52];
    ShiftedAt(s, d, g, m, c2 + 48);
    ShiftedAt(s, d, g, m, c2 + 49);
    ShiftedAt(s, d, g, m, c2 + 50);
    ShiftedAt(s, d, g, m, c2 + 51);
    if 12 <= c2 - s <= 15 {
      assert w == Window(m + d, c2 - s);
    }
  }

  lemma ShiftMeets(f: Bytes, z: Bytes, v: Bytes, n: Bytes, p: Bytes, q: Bytes, y: Bytes, e: Bytes)
    ensures (f + z) + (v + n + ((p + v) + (q + y)) + e) == (f + (z + v + n + p)) + (v + q + y + e)
  {
    var left, right := (f + z) + (v + n + ((p + v) + (q + y)) + e), (f + (z + v + n + p)) + (v + q + y + e);
    assert left == f + z + v + n + p + v + q + y + e == right;
  }

  /** A difference of at least twelve bytes fits into the counted timing source,
      when the switches find legal bytes. */
  lemma ShiftCollides(g: nat, c1: nat, h1: nat, c2: nat, h2: nat, m: nat) returns (a: Receipt, b: Receipt)
    requires 2 <= g <= 4 && c1 + h1 + 12 <= c2 + h2 && m + c2 + h2 - c1 - h1 < 0x1_0000_0000
    requires Decode(BigEndian(m, 4)).Some? && Placed(c1 + h1, c2 + h2 - c1 - h1, c2, m)
    ensures Lengths(a, c1, h1) && Lengths(b, c2, h2) && Generation(a) == g && Generation(b) == g
    ensures Message(a).Some? && Message(a) == Message(b)
  {
    var s, d := c1 + h1, c2 + h2 - c1 - h1;
    var z, w := Zeros(52 + s), Shifted(s, d, g, m);
    PlantedBytes(d, g, m);
    BlankBytes(m);
    ShiftedSwitches(s, d, g, c2, m);
    hide Decode, Encode, BigEndian, Shifted, Planted;
    a, b := FromBody(z, c1, g, Planted(d, g, m)), FromBody(w, c2, g, Blank(m));
    FromBodyOk(z, c1, g, Planted(d, g, m));
    FromBodyOk(w, c2, g, Blank(m));
    assert z[c1 + 48..c1 + 52] == Zeros(4);
    FromBodyExact(z, c1, g, Planted(d, g, m));
    FromBodyExact(w, c2, g, Blank(m));
    ShiftSame(a, b, z, d, g, m);
    WrapSame(a, b);
  }

  lemma ShiftSame(a: Receipt, b: Receipt, z: Bytes, d: nat, g: nat, m: nat)
    requires d >= 12 && m + d < 0x1_0000_0000 && 1 <= g <= 4 && |z| >= 52 && Decode(BigEndian(m, 4)).Some?
    requires Ok2(a) && Ok2(b) && Front(a) == Front(b)
    requires Body(a) == z == Zeros(|z|) && Body(b) == Shifted(|z| - 52, d, g, m)
    requires a.version == b.version == g && a.timingSource == Planted(d, g, m) && b.timingSource == Blank(m)
    requires Ends(a) == Ends(b)
    ensures Message1(a) + Join(Timing(a)) == Message1(b) + Join(Timing(b))
  {
    hide Join, Front, Body, Timing, Ends, Encode, Decode, Planted, Message1, Ok1, SignedBigEndian, FitsSigned;
    Flat1(a);
    Flat1(b);
    TimingFlat(a);
    TimingFlat(b);
    PlantedBytes(d, g, m);
    BlankBytes(m);
    VersionBytes(g);
    hide Raw, BigEndian;
    ShiftMeets(Join(Front(a)), z, Zeros(7) + [g], BigEndian(m + d, 4), Zeros(d - 12), BigEndian(m, 4), Zeros(m), Ends(a));
  }

  // -------------------------------------------------- the second generation, exactly

  /** UTF-8 never uses a byte from F5 on. */
  lemma {:induction false} Utf8Below(t: Text, i: nat)
    requires Encode(t).Some? && i < |Encode(t).value|
    ensures Encode(t).value[i] < 0xF5
    decreases |t|
  {
    if |t| > 0 {
      var p := EncodePoint(t[0]);
      if i >= |p| {
        Utf8Below(t[1..], i - |p|);
      } else {
        PointBelow(t[0], i);
      }
    }
  }

  lemma PointBelow(c: CodePoint, i: nat)
    requires i < |EncodePoint(c)|
    ensures EncodePoint(c)[i] < 0xF5
  {
  }

  /** The tails of two messages that match when the second starts d bytes
      later. */
  lemma TailsMeet(a: Receipt, b: Receipt)
    requires Ok2(a) && Ok2(b) && Message2(a) == Message2(b) && |Body(a)| <= |Body(b)|
    ensures var d, ta, tb := |Body(b)| - |Body(a)|, Join(Timing(a)), Join(Timing(b));
            |ta| == |tb| + d && ta[d..] == tb && Body(b) == Body(a) + ta[..d]
  {
    hide Join, Message1, Body, Timing, Ok1;
    var ta, tb := Join(Timing(a)), Join(Timing(b));
    CancelPrefix(Ascii(TAG2), Message1(a) + ta, Ascii(TAG2), Message1(b) + tb);
    FrontCancel(a, b, ta, tb);
    var whole, n, m := Body(a) + ta, |Body(a)|, |Body(b)|;
    assert |whole| == n + |ta| == m + |tb|;
    assert whole[m..] == tb && whole[..m] == Body(b);
    assert ta[m - n..] == whole[m..];
    assert whole[..m] == Body(a) + ta[..m - n];
  }

  /** A tail of the second generation begins with seven zeros, a two and the
      count. */
  lemma TailBytes(source: Bytes, ends: Bytes)
    requires |source| < 0x1_0000_0000 && FitsSigned(2, 8)
    ensures var t := Tail(2, source, ends);
            && |t| == 12 + |source| + |ends|
            && (forall i :: 0 <= i < 7 ==> t[i] == 0) && t[7] == 2
            && t[8..12] == BigEndian(|source|, 4)
            && (forall i :: 0 <= i < |source| ==> t[12 + i] == source[i])
  {
    VersionBytes(2);
    hide SignedBigEndian, FitsSigned;
    var v, n := Zeros(7) + [2], BigEndian(|source|, 4);
    var t := v + n + source + ends;
    assert t[8..12] == n;
  }

  /** The last byte of a four-byte count. */
  lemma CountByte(n: nat)
    requires n < 0x1_0000_0000
    ensures BigEndian(n, 4)[3] == n % 256
  {
  }

  lemma CountBack(n: nat, m: nat, d: nat)
    requires n == m + d && 1 <= d <= 11 && n % 256 == 0
    ensures m % 256 >= 0xF5
  {
  }

  lemma ShiftAt(t: Bytes, u: Bytes, d: nat, i: nat)
    requires i < |t| == |u| + d && t[d..] == u
    ensures d <= i ==> u[i - d] == t[i]
  {
  }

  /** A difference of one to eleven bytes, or of 2^32 and more, cannot be
      absorbed: the version or the count would have to match itself shifted. */
  lemma NoSmallShift(source: Bytes, later: Bytes, ends: Bytes, laterEnds: Bytes, d: nat)
    requires |source| < 0x1_0000_0000 && |later| < 0x1_0000_0000 && |ends| == |laterEnds| && FitsSigned(2, 8)
    requires 1 <= d <= |Tail(2, source, ends)| && Tail(2, source, ends)[d..] == Tail(2, later, laterEnds)
    requires forall i :: 0 <= i < |source| ==> source[i] < 0xF5
    ensures 12 <= d < 0x1_0000_0000
  {
    var t, u := Tail(2, source, ends), Tail(2, later, laterEnds);
    TailBytes(source, ends);
    TailBytes(later, laterEnds);
    hide Tail;
    assert |source| == |later| + d;
    assert forall i :: 0 <= i < |u| ==> u[i] == t[d + i];
    CountByte(|source|);
    CountByte(|later|);
    assert t[11] == t[8..12][3] && u[11] == u[8..12][3];
    assert u[11] == t[12 + (d - 1)] == source[d - 1];
    ShiftAt(t, u, d, 7);
    ShiftAt(t, u, d, 11);
    if 5 <= d <= 11 {
      CountBack(|source|, |later|, d);
    }
  }

  /** Where the switches of a body stand. */
  lemma SwitchesAt(r: Receipt)
    requires Ok1(r)
    ensures Legal(Switches(r)) && Body(r)[|r.commitment| + 48..|r.commitment| + 52] == Switches(r)
  {
    SwitchesLegal(r);
    hide Numbers, Switches;
    assert Body(r) == r.commitment + Numbers(r) + (Switches(r) + r.hotkey);
  }

  lemma SourceBelow(t: Text)
    requires Receipts.TextOk(t)
    ensures forall i :: 0 <= i < |Raw(t)| ==> Raw(t)[i] < 0xF5
  {
    hide Encode;
    forall i | 0 <= i < |Raw(t)|
      ensures Raw(t)[i] < 0xF5
    {
      Utf8Below(t, i);
    }
  }

  /** What two matching tails say: how far apart they are, and where the two of
      the version stands. */
  lemma TailsApart(a: Receipt, b: Receipt, d: nat)
    requires Ok2(a) && Ok2(b) && a.version == b.version == 2
    requires d > 0 && |Join(Timing(a))| == |Join(Timing(b))| + d && Join(Timing(a))[d..] == Join(Timing(b))
    ensures 12 <= d < 0x1_0000_0000 && Join(Timing(a))[7] == 2
    ensures |Raw(a.timingSource)| == |Raw(b.timingSource)| + d
    ensures Join(Timing(a))[8..12] == BigEndian(|Raw(a.timingSource)|, 4)
  {
    hide Join, Timing, Ok1, Encode, Tail, Ends, BigEndian;
    TimingFlat(a);
    TimingFlat(b);
    SmallFits(2);
    hide FitsSigned;
    SourceBelow(a.timingSource);
    NoSmallShift(Raw(a.timingSource), Raw(b.timingSource), Ends(a), Ends(b), d);
    TailBytes(Raw(a.timingSource), Ends(a));
    TailBytes(Raw(b.timingSource), Ends(b));
  }

  /** The earlier source holds the later version, count and source. */
  lemma SourceSplits(source: Bytes, later: Bytes, ends: Bytes, laterEnds: Bytes, d: nat)
    requires |source| == |later| + d < 0x1_0000_0000 && d >= 12 && |ends| == |laterEnds| && FitsSigned(2, 8)
    requires |Tail(2, source, ends)| >= d && Tail(2, source, ends)[d..] == Tail(2, later, laterEnds)
    ensures source == (source[..d - 12] + Zeros(7)) + [2] + (BigEndian(|later|, 4) + later)
  {
    VersionBytes(2);
    hide SignedBigEndian, FitsSigned, BigEndian;
    var v, n, m := Zeros(7) + [2], BigEndian(|source|, 4), BigEndian(|later|, 4);
    SliceBehind(v + n, source, ends, d);
    CancelPrefix(source[d - 12..], ends, v + m + later, laterEnds);
    assert source == source[..d - 12] + source[d - 12..];
    SplitMeets(source[..d - 12], Zeros(7), [2], m, later);
  }

  lemma SliceBehind(p: Bytes, source: Bytes, ends: Bytes, d: nat)
    requires |p| <= d <= |p| + |source|
    ensures (p + source + ends)[d..] == source[d - |p|..] + ends
  {
  }

  lemma SplitMeets(p: Bytes, z: Bytes, x: Bytes, m: Bytes, later: Bytes)
    ensures p + (z + x + m + later) == (p + z) + x + (m + later)
  {
  }

  /** So the later count is text. */
  lemma CountIsText(a: Receipt, b: Receipt, d: nat)
    requires Ok2(a) && Ok2(b) && a.version == b.version == 2
    requires d > 0 && |Join(Timing(a))| == |Join(Timing(b))| + d && Join(Timing(a))[d..] == Join(Timing(b))
    ensures Decode(BigEndian(|Raw(b.timingSource)|, 4)).Some?
  {
    TailsApart(a, b, d);
    hide Join, Timing, Ok1, Encode, Decode, Tail, Ends, BigEndian;
    TimingFlat(a);
    TimingFlat(b);
    SmallFits(2);
    hide FitsSigned;
    var source, later := Raw(a.timingSource), Raw(b.timingSource);
    SourceSplits(source, later, Ends(a), Ends(b), d);
    var c := BigEndian(|later|, 4);
    AfterAscii(a.timingSource, source[..d - 12] + Zeros(7), 2, c + later);
    DecodeThenEncode(c + later);
    BeforeText(Decode(c + later).value, c, b.timingSource);
  }

  /** And the later switches fall on legal bytes. */
  lemma WindowLegal(tail: Bytes, n: nat, k: nat)
    requires n < 0x1_0000_0000 && 12 <= k <= 15 && k <= |tail| && tail[8..12] == BigEndian(n, 4) && Legal(tail[k - 4..k])
    ensures Legal(Window(n, k))
  {
    hide BigEndian;
    var w, z := tail[k - 4..k], BigEndian(n, 4) + Zeros(4);
    assert forall j :: 0 <= j < 4 ==> z[j] == tail[8..12][j] == tail[8 + j];
    assert forall j :: 4 <= j < 8 ==> z[j] == 0;
    forall i | 0 <= i < 4
      ensures Window(n, k)[i] == w[i] || Window(n, k)[i] == 0
    {
      assert Window(n, k)[i] == z[k - 12 + i] && w[i] == tail[k - 4 + i];
    }
  }

  lemma VersionIllegal(tail: Bytes, k: nat)
    requires 8 <= k <= 11 && k <= |tail| && tail[7] == 2
    ensures !Legal(tail[k - 4..k])
  {
    assert tail[k - 4..k][11 - k] == 2;
  }

  /** A shared message of the second generation, the smaller sum first. */
  lemma SecondShared(c1: nat, h1: nat, c2: nat, h2: nat, a: Receipt, b: Receipt)
    requires c1 + h1 < c2 + h2 && Lengths(a, c1, h1) && Lengths(b, c2, h2) && Generation(a) == Generation(b) == 2
    requires Message(a).Some? && Message(a) == Message(b)
    ensures 12 <= c2 + h2 - c1 - h1 < 0x1_0000_0000 && !(8 <= c2 - c1 - h1 <= 11)
    ensures 12 <= c2 - c1 - h1 <= 15 ==> Absorbable(c2 + h2 - c1 - h1, c2 - c1 - h1)
  {
    hide Join, Timing, Ok1, Body, Encode, FitsSigned, Message2, Switches, Window, BigEndian;
    var d, k := c2 + h2 - c1 - h1, c2 - c1 - h1;
    var tail := Join(Timing(a));
    TailsMeet(a, b);
    TailsApart(a, b, d);
    SwitchesAt(b);
    if 8 <= k {
      SwitchesInTail(Body(a), tail, Body(b), d, c2, k);
      if k <= 11 {
        VersionIllegal(tail, k);
      } else if k <= 15 {
        WindowLegal(tail, |Raw(a.timingSource)|, k);
        CountIsText(a, b, d);
        assert Absorbs(d, k, |Raw(b.timingSource)|);
      }
    }
  }

  lemma SwitchesInTail(body: Bytes, tail: Bytes, later: Bytes, d: nat, c2: nat, k: nat)
    requires d <= |tail| && later == body + tail[..d] && c2 + 4 == |body| - 48 + k && 8 <= k <= d
    ensures later[c2 + 48..c2 + 52] == tail[k - 4..k]
  {
  }

  /** The second generation, the smaller sum first: different pairs of lengths are
      told apart exactly when the sums differ, by less than the twelve bytes that
      a version and a count take or by more than a count can hold; or the later
      commitment ends where its switches would fall on the earlier version; or it
      ends where they would fall on the earlier count and no count is legal
      there. */
  lemma SecondExactly(c1: nat, h1: nat, c2: nat, h2: nat)
    requires c1 + h1 <= c2 + h2
    ensures var d, k := c2 + h2 - c1 - h1, c2 - c1 - h1;
            InjectiveOver(2, c1, h1, c2, h2) <==>
            (|| (c1 == c2 && h1 == h2)
             || 1 <= d < 12
             || d >= 0x1_0000_0000
             || 8 <= k <= 11
             || (12 <= k <= 15 && !Absorbable(d, k)))
  {
    hide Message, SameSigned, Absorbs;
    var d, k := c2 + h2 - c1 - h1, c2 - c1 - h1;
    if d == 0 {
      EqualSumsExactly(2, c1, h1, c2, h2);
    } else if 12 <= d < 0x1_0000_0000 && !(8 <= k <= 15) {
      NotOver(2, c1, h1, c2, h2);
    } else if 12 <= d < 0x1_0000_0000 && 12 <= k <= 15 && Absorbable(d, k) {
      var m: nat :| Absorbs(d, k, m);
      AbsorbedNotOver(2, c1, h1, c2, h2, m);
    } else {
      SecondTold(c1, h1, c2, h2);
    }
  }

  lemma SecondTold(c1: nat, h1: nat, c2: nat, h2: nat)
    requires c1 + h1 < c2 + h2
    requires var d, k := c2 + h2 - c1 - h1, c2 - c1 - h1;
             d < 12 || d >= 0x1_0000_0000 || 8 <= k <= 11 || (12 <= k <= 15 && !Absorbable(d, k))
    ensures InjectiveOver(2, c1, h1, c2, h2)
  {
    hide Message, SameSigned, Absorbable, Generation;
    forall a: Receipt, b: Receipt
      | Lengths(a, c1, h1) && Lengths(b, c2, h2) && Generation(a) == 2 && Generation(b) == 2
      ensures Message(a).Some? ==> Message(a) != Message(b)
    {
      if Message(a).Some? && Message(a) == Message(b) {
        SecondShared(c1, h1, c2, h2, a, b);
      }
    }
  }

  lemma NeverSame(g: nat, c1: nat, h1: nat, c2: nat, h2: nat, a: Receipt, b: Receipt)
    requires c1 + h1 != c2 + h2 && Lengths(a, c1, h1) && Lengths(b, c2, h2) && Generation(a) == g && Generation(b) == g
    requires Message(a).Some? && Message(a) == Message(b)
    ensures !InjectiveOver(g, c1, h1, c2, h2)
  {
    hide Message, Generation;
    assert |a.commitment| + |a.hotkey| != |b.commitment| + |b.hotkey|;
    assert !SameSigned(a, b);
  }

  /** In every later generation such a difference can be absorbed: with nothing
      behind the count when the switches keep clear of it. */
  lemma NotOver(g: nat, c1: nat, h1: nat, c2: nat, h2: nat)
    requires 2 <= g <= 4 && c1 + h1 + 12 <= c2 + h2 < c1 + h1 + 0x1_0000_0000
    requires c2 <= c1 + h1 + 7 || c2 >= c1 + h1 + 16
    ensures !InjectiveOver(g, c1, h1, c2, h2)
  {
    hide Message, Generation;
    ZeroCountIsText();
    hide Decode, BigEndian;
    var a, b := ShiftCollides(g, c1, h1, c2, h2, 0);
    NeverSame(g, c1, h1, c2, h2, a, b);
  }

  lemma ZeroCountIsText()
    ensures Decode(BigEndian(0, 4)).Some?
  {
    ZeroEncoding(4);
    BlankBytes(4);
    EncodeThenDecode(Blank(4));
  }

  /** And with m bytes behind it when they fall on legal ones. */
  lemma AbsorbedNotOver(g: nat, c1: nat, h1: nat, c2: nat, h2: nat, m: nat)
    requires 2 <= g <= 4 && c1 + h1 + 12 <= c2 + h2
    requires 12 <= c2 - c1 - h1 <= 15 && Absorbs(c2 + h2 - c1 - h1, c2 - c1 - h1, m)
    ensures !InjectiveOver(g, c1, h1, c2, h2)
  {
    hide Message, Generation, Decode, BigEndian;
    var a, b := ShiftCollides(g, c1, h1, c2, h2, m);
    NeverSame(g, c1, h1, c2, h2, a, b);
  }
}
