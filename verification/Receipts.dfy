/** The four generations of the signed receipt message. None is any exception
    of the encoder. */
module Receipts {
  import opened ByteStrings
  import opened Utf8
  import opened Wrappers

  /** A float as the eight bytes `struct.pack(">d", x)` writes. */
  type Double = b: Bytes | |b| == 8 witness Zeros(8)

  const MINUS_ZERO: Double := [0x80, 0, 0, 0, 0, 0, 0, 0]

  const TAG2 := "VERATHOS_SERVICE_RECEIPT_V2"
  const TAG3 := "VERATHOS_SERVICE_RECEIPT_V3"
  const TAG4 := "VERATHOS_SERVICE_RECEIPT_V4"

  /** "VERA" read as a length. */
  const TAG_AS_LENGTH := 0x56455241

  datatype Receipt = Receipt(
    minerAddress: Text, modelId: Text, modelIndex: int, epochNumber: int, commitment: Bytes, timestamp: int,
    ttft: Double, tokensGenerated: int, generationTime: Double, tokensPerSec: Double,
    promptTokens: int, proofVerified: bool, proofRequested: bool, tee: Option<bool>, isCanary: bool,
    version: int, timingSource: Text, observedStart: Double, observedEnd: Double,
    digest: Bytes, obligation: Bytes, kind: string, target: int, hotkey: Bytes)

  // ------------------------------------------------------------------ encoders

  function OrZero(x: Double): Double {
    if x == MINUS_ZERO then Zeros(8) else x
  }

  function TeeValue(t: Option<bool>): int {
    match t
    case None => -1
    case Some(b) => if b then 1 else 0
  }

  predicate TextOk(t: Text) {
    Encode(t).Some? && |Encode(t).value| < 0x1_0000_0000
  }

  /** `struct.pack` of a 64-bit integer and of a truth value. */
  function Pack64(v: int): (r: Option<Bytes>)
    ensures r.Some? <==> FitsSigned(v, 8)
  {
    if FitsSigned(v, 8) then Some(SignedBigEndian(v, 8)) else None
  }

  function PackBool(b: bool): (r: Bytes)
    ensures |r| == 1
  {
    [if b then 1 else 0]
  }

  predicate Ok1(r: Receipt) {
    && TextOk(r.minerAddress) && TextOk(r.modelId)
    && FitsSigned(r.modelIndex, 8) && FitsSigned(r.epochNumber, 8) && FitsSigned(r.timestamp, 8)
    && FitsSigned(r.tokensGenerated, 8) && FitsSigned(r.promptTokens, 8)
  }

  predicate Ok2(r: Receipt) {
    Ok1(r) && FitsSigned(r.version, 8) && TextOk(r.timingSource)
  }

  predicate Ok3(r: Receipt) {
    Ok2(r) && |r.digest| < 0x1_0000_0000
  }

  predicate Ok4(r: Receipt) {
    && Ok3(r)
    && (r.obligation == [] || |r.obligation| == 16)
    && (r.kind == "" || r.kind == "low" || r.kind == "full")
    && (r.obligation == [] <==> r.kind == "")
    && 0 <= r.target < 0x1_0000_0000
    && (r.obligation == [] ==> r.target == 0)
  }

  function Raw(t: Text): Bytes
    requires TextOk(t)
  {
    Encode(t).value
  }

  /** Every signed field of the first generation, in order. */
  function Head(r: Receipt): (cs: seq<Chunk>)
    requires Ok1(r)
  {
    [Counted(Raw(r.minerAddress)), Counted(Raw(r.modelId)),
     Fixed(SignedBigEndian(r.modelIndex, 8)), Fixed(SignedBigEndian(r.epochNumber, 8)), Fixed(r.commitment)]
  }

  function Metrics(r: Receipt): (cs: seq<Chunk>)
    requires Ok1(r)
  {
    [Fixed(SignedBigEndian(r.timestamp, 8)), Fixed(r.ttft), Fixed(SignedBigEndian(r.tokensGenerated, 8)),
     Fixed(r.generationTime), Fixed(r.tokensPerSec), Fixed(SignedBigEndian(r.promptTokens, 8))]
  }

  function Flags(r: Receipt): (cs: seq<Chunk>)
    requires FitsSigned(TeeValue(r.tee), 1)
  {
    [Fixed(PackBool(r.proofVerified)), Fixed(PackBool(r.proofRequested)), Fixed(PackBool(r.isCanary)),
     Fixed(SignedBigEndian(TeeValue(r.tee), 1)), Fixed(r.hotkey)]
  }

  lemma TeeFits(t: Option<bool>)
    ensures FitsSigned(TeeValue(t), 1)
  {
    Widths();
  }

  function Message1(r: Receipt): Bytes
    requires Ok1(r)
  {
    TeeFits(r.tee);
    Join(Head(r) + Metrics(r) + Flags(r))
  }

  function Timing(r: Receipt): seq<Chunk>
    requires Ok2(r)
  {
    [Fixed(SignedBigEndian(r.version, 8)), Counted(Raw(r.timingSource)),
     Fixed(OrZero(r.observedStart)), Fixed(OrZero(r.observedEnd))]
  }

  function Message2(r: Receipt): Bytes
    requires Ok2(r)
  {
    Ascii(TAG2) + (Message1(r) + Join(Timing(r)))
  }

  function Message3(r: Receipt): Bytes
    requires Ok3(r)
  {
    Ascii(TAG3) + (Message2(r) + Join([Counted(r.digest)]))
  }

  function Obligation(r: Receipt): seq<Chunk>
    requires Ok4(r)
  {
    [Counted(r.obligation), Counted(Ascii(r.kind)), Fixed(BigEndian(r.target, 4))]
  }

  function Message4(r: Receipt): Bytes
    requires Ok4(r)
  {
    Ascii(TAG4) + (Message3(r) + Join(Obligation(r)))
  }

  /** Which generation signs the receipt: version 0 is read as 1. */
  function Generation(r: Receipt): (g: nat)
    ensures 1 <= g <= 4
  {
    var version := if r.version == 0 then 1 else r.version;
    if version >= 4 then 4 else if version >= 3 then 3 else if version >= 2 then 2 else 1
  }

  /** `encode_receipt_message` */
  function Message(r: Receipt): Option<Bytes> {
    match Generation(r)
    case 4 => if Ok4(r) then Some(Message4(r)) else None
    case 3 => if Ok3(r) then Some(Message3(r)) else None
    case 2 => if Ok2(r) then Some(Message2(r)) else None
    case _ => if Ok1(r) then Some(Message1(r)) else None
  }

  // -------------------------------------------------------- the growing encoders

  function Concat(parts: seq<Bytes>): Bytes {
    if |parts| == 0 then [] else Concat(parts[..|parts| - 1]) + parts[|parts| - 1]
  }

  /** Appending the part of one chunk. */
  lemma Append(parts: seq<Bytes>, part: Bytes, cs: seq<Chunk>)
    requires Concat(parts) == Join(cs)
    ensures Concat(parts + [part]) == Join(cs + [Fixed(part)])
  {
    assert (parts + [part])[..|parts|] == parts;
    JoinConcat(cs, [Fixed(part)]);
    assert Join([Fixed(part)]) == part + Join([]) == part;
  }

  lemma AppendCounted(parts: seq<Bytes>, part: Bytes, cs: seq<Chunk>)
    requires Concat(parts) == Join(cs)
    ensures Concat(parts + [BigEndian(|part|, 4)] + [part]) == Join(cs + [Counted(part)])
  {
    var size := BigEndian(|part|, 4);
    var longer := parts + [size];
    assert longer[..|parts|] == parts && (longer + [part])[..|longer|] == longer;
    Associates(Concat(parts), size, part);
    JoinConcat(cs, [Counted(part)]);
    assert Join([Counted(part)]) == (size + part) + Join([]) == size + part;
  }

  /** `_encode_receipt_message_v1` */
  method EncodeV1(r: Receipt) returns (message: Option<Bytes>)
    ensures message == if Ok1(r) then Some(Message1(r)) else None
  {
    hide Join, Concat, SignedBigEndian, FitsSigned, Encode;
    var parts: seq<Bytes> := [];
    ghost var cs: seq<Chunk> := [];
    assert Concat(parts) == Join(cs) by { Empty(); }
    var strings := [r.minerAddress, r.modelId];
    var i := 0;
    while i < 2
      invariant 0 <= i <= 2
      invariant forall j :: 0 <= j < i ==> TextOk(strings[j])
      invariant cs == if i == 0 then [] else if i == 1 then [Counted(Raw(strings[0]))]
                      else [Counted(Raw(strings[0])), Counted(Raw(strings[1]))]
      invariant Concat(parts) == Join(cs)
    {
      var encoded := Encode(strings[i]);
      if encoded.None? || |encoded.value| >= 0x1_0000_0000 {
        return None;
      }
      AppendCounted(parts, encoded.value, cs);
      cs := cs + [Counted(encoded.value)];
      parts := parts + [BigEndian(|encoded.value|, 4)] + [encoded.value];
      i := i + 1;
    }
    TeeFits(r.tee);
    var index := Pack64(r.modelIndex);
    var epoch := Pack64(r.epochNumber);
    var timestamp := Pack64(r.timestamp);
    var tokens := Pack64(r.tokensGenerated);
    var prompt := Pack64(r.promptTokens);
    if index.None? || epoch.None? || timestamp.None? || tokens.None? || prompt.None? {
      return None;
    }
    var fields := [index.value, epoch.value, r.commitment, timestamp.value, r.ttft, tokens.value, r.generationTime,
                   r.tokensPerSec, prompt.value, PackBool(r.proofVerified), PackBool(r.proofRequested),
                   PackBool(r.isCanary), SignedBigEndian(TeeValue(r.tee), 1), r.hotkey];
    parts := AppendAll(parts, fields, cs);
    assert cs + AllFixed(fields) == Head(r) + Metrics(r) + Flags(r) by { FieldOrder(r, cs, fields); }
    return Some(Concat(parts));
  }

  lemma Empty()
    ensures Concat([]) == Join([])
  {
  }

  function AllFixed(fields: seq<Bytes>): (cs: seq<Chunk>)
    ensures |cs| == |fields| && forall i :: 0 <= i < |cs| ==> cs[i] == Fixed(fields[i])
  {
    seq(|fields|, i requires 0 <= i < |fields| => Fixed(fields[i]))
  }

  method AppendAll(parts: seq<Bytes>, fields: seq<Bytes>, ghost cs: seq<Chunk>) returns (r: seq<Bytes>)
    requires Concat(parts) == Join(cs)
    ensures Concat(r) == Join(cs + AllFixed(fields))
  {
    hide Join, Concat;
    r := parts;
    var i := 0;
    assert cs + AllFixed(fields)[..0] == cs;
    while i < |fields|
      invariant 0 <= i <= |fields|
      invariant Concat(r) == Join(cs + AllFixed(fields)[..i])
    {
      Append(r, fields[i], cs + AllFixed(fields)[..i]);
      assert cs + AllFixed(fields)[..i] + [Fixed(fields[i])] == cs + AllFixed(fields)[..i + 1];
      r := r + [fields[i]];
      i := i + 1;
    }
    assert AllFixed(fields)[..|fields|] == AllFixed(fields);
  }

  lemma FieldOrder(r: Receipt, cs: seq<Chunk>, fields: seq<Bytes>)
    requires Ok1(r) && FitsSigned(TeeValue(r.tee), 1)
    requires cs == [Counted(Raw(r.minerAddress)), Counted(Raw(r.modelId))]
    requires fields == [SignedBigEndian(r.modelIndex, 8), SignedBigEndian(r.epochNumber, 8), r.commitment,
                        SignedBigEndian(r.timestamp, 8), r.ttft, SignedBigEndian(r.tokensGenerated, 8), r.generationTime,
                        r.tokensPerSec, SignedBigEndian(r.promptTokens, 8), PackBool(r.proofVerified),
                        PackBool(r.proofRequested), PackBool(r.isCanary), SignedBigEndian(TeeValue(r.tee), 1), r.hotkey]
    ensures cs + AllFixed(fields) == Head(r) + Metrics(r) + Flags(r)
  {
  }

  /** `_encode_receipt_message_v2` */
  method EncodeV2(r: Receipt) returns (message: Option<Bytes>)
    ensures message == if Ok2(r) then Some(Message2(r)) else None
  {
    hide Join, Concat, SignedBigEndian, FitsSigned, Encode, Message1, Ok1;
    var first :- EncodeV1(r);
    var version :- Pack64(r.version);
    var encoded :- Encode(r.timingSource);
    if |encoded| >= 0x1_0000_0000 {
      return None;
    }
    var parts: seq<Bytes> := AppendAll([], [Ascii(TAG2), first, version], []) by { Empty(); }
    ghost var cs := [] + AllFixed([Ascii(TAG2), first, version]);
    AppendCounted(parts, encoded, cs);
    parts := parts + [BigEndian(|encoded|, 4)] + [encoded];
    parts := AppendAll(parts, [OrZero(r.observedStart), OrZero(r.observedEnd)], cs + [Counted(encoded)]);
    assert Concat(parts) == Message2(r) by {
      var all := cs + [Counted(encoded)] + AllFixed([OrZero(r.observedStart), OrZero(r.observedEnd)]);
      assert all == [Fixed(Ascii(TAG2)), Fixed(first)] + Timing(r);
      Prefixed(Ascii(TAG2), first, Timing(r));
    }
    return Some(Concat(parts));
  }

  lemma Prefixed(tag: Bytes, inner: Bytes, cs: seq<Chunk>)
    ensures Join([Fixed(tag), Fixed(inner)] + cs) == tag + (inner + Join(cs))
  {
    assert ([Fixed(tag), Fixed(inner)] + cs)[1..] == [Fixed(inner)] + cs;
    assert ([Fixed(inner)] + cs)[1..] == cs;
  }

  // --------------------------------------------------------------- injectivity

  /** The fields the first generation signs. */
  predicate Same1(a: Receipt, b: Receipt) {
    && a.minerAddress == b.minerAddress && a.modelId == b.modelId && a.modelIndex == b.modelIndex
    && a.epochNumber == b.epochNumber && a.commitment == b.commitment && a.timestamp == b.timestamp
    && a.ttft == b.ttft && a.tokensGenerated == b.tokensGenerated && a.generationTime == b.generationTime
    && a.tokensPerSec == b.tokensPerSec && a.promptTokens == b.promptTokens
    && a.proofVerified == b.proofVerified && a.proofRequested == b.proofRequested && a.isCanary == b.isCanary
    && a.tee == b.tee && a.hotkey == b.hotkey
  }

  /** Equal bytes, or both a zero of either sign. */
  predicate SameFloat(x: Double, y: Double) {
    x == y || (x[0] in {0, 0x80} && y[0] in {0, 0x80} && x[1..] == y[1..] == [0, 0, 0, 0, 0, 0, 0])
  }

  lemma SameOrZero(x: Double, y: Double)
    ensures OrZero(x) == OrZero(y) <==> SameFloat(x, y)
  {
    assert Zeros(8)[1..] == [0, 0, 0, 0, 0, 0, 0] && MINUS_ZERO[1..] == [0, 0, 0, 0, 0, 0, 0];
    assert Zeros(8)[0] == 0 && MINUS_ZERO[0] == 0x80;
    assert x == [x[0]] + x[1..] && y == [y[0]] + y[1..];
    assert Zeros(8) == [0] + [0, 0, 0, 0, 0, 0, 0] && MINUS_ZERO == [0x80] + [0, 0, 0, 0, 0, 0, 0];
  }

  predicate Same2(a: Receipt, b: Receipt) {
    && a.version == b.version && a.timingSource == b.timingSource
    && SameFloat(a.observedStart, b.observedStart) && SameFloat(a.observedEnd, b.observedEnd)
  }

  predicate Same4(a: Receipt, b: Receipt) {
    a.obligation == b.obligation && a.kind == b.kind && a.target == b.target
  }

  /** Every field that the generation of a signs. */
  predicate SameSigned(a: Receipt, b: Receipt) {
    && Same1(a, b)
    && (Generation(a) >= 2 ==> Same2(a, b))
    && (Generation(a) >= 3 ==> a.digest == b.digest)
    && (Generation(a) >= 4 ==> Same4(a, b))
  }

  predicate SameLengths(a: Receipt, b: Receipt) {
    |a.commitment| == |b.commitment| && |a.hotkey| == |b.hotkey|
  }

  lemma SignedInjective(v: int, w: int, k: nat)
    requires k > 0 && FitsSigned(v, k) && FitsSigned(w, k) && SignedBigEndian(v, k) == SignedBigEndian(w, k)
    ensures v == w
  {
    SignedBigEndianRoundTrip(v, k);
    SignedBigEndianRoundTrip(w, k);
  }

  lemma RawInjective(s: Text, t: Text)
    requires TextOk(s) && TextOk(t) && Raw(s) == Raw(t)
    ensures s == t
  {
    EncodeInjective(s, t);
  }

  lemma HeadInjective(a: Receipt, b: Receipt, x: Bytes, y: Bytes)
    requires Ok1(a) && Ok1(b) && |a.commitment| == |b.commitment|
    requires Join(Head(a)) + x == Join(Head(b)) + y
    ensures x == y && a.minerAddress == b.minerAddress && a.modelId == b.modelId && a.modelIndex == b.modelIndex
    ensures a.epochNumber == b.epochNumber && a.commitment == b.commitment
  {
    hide Join, Encode, FitsSigned, SignedBigEndian;
    var cs, ds := Head(a), Head(b);
    JoinInjective(cs, ds, x, y);
    assert cs[0] == ds[0] && cs[1] == ds[1] && cs[2] == ds[2] && cs[3] == ds[3] && cs[4] == ds[4];
    RawInjective(a.minerAddress, b.minerAddress);
    RawInjective(a.modelId, b.modelId);
    SignedInjective(a.modelIndex, b.modelIndex, 8);
    SignedInjective(a.epochNumber, b.epochNumber, 8);
  }

  lemma MetricsInjective(a: Receipt, b: Receipt, x: Bytes, y: Bytes)
    requires Ok1(a) && Ok1(b)
    requires Join(Metrics(a)) + x == Join(Metrics(b)) + y
    ensures x == y && a.timestamp == b.timestamp && a.ttft == b.ttft && a.tokensGenerated == b.tokensGenerated
    ensures a.generationTime == b.generationTime && a.tokensPerSec == b.tokensPerSec && a.promptTokens == b.promptTokens
  {
    hide Join, Encode, FitsSigned, SignedBigEndian;
    var cs, ds := Metrics(a), Metrics(b);
    JoinInjective(cs, ds, x, y);
    assert cs[0] == ds[0] && cs[1] == ds[1] && cs[2] == ds[2] && cs[3] == ds[3] && cs[4] == ds[4] && cs[5] == ds[5];
    SignedInjective(a.timestamp, b.timestamp, 8);
    SignedInjective(a.tokensGenerated, b.tokensGenerated, 8);
    SignedInjective(a.promptTokens, b.promptTokens, 8);
  }

  lemma FlagsInjective(a: Receipt, b: Receipt, x: Bytes, y: Bytes)
    requires FitsSigned(TeeValue(a.tee), 1) && FitsSigned(TeeValue(b.tee), 1) && |a.hotkey| == |b.hotkey|
    requires Join(Flags(a)) + x == Join(Flags(b)) + y
    ensures x == y && a.proofVerified == b.proofVerified && a.proofRequested == b.proofRequested
    ensures a.isCanary == b.isCanary && a.tee == b.tee && a.hotkey == b.hotkey
  {
    hide Join, FitsSigned, SignedBigEndian;
    var cs, ds := Flags(a), Flags(b);
    JoinInjective(cs, ds, x, y);
    assert cs[0] == ds[0] && cs[1] == ds[1] && cs[2] == ds[2] && cs[3] == ds[3] && cs[4] == ds[4];
    SignedInjective(TeeValue(a.tee), TeeValue(b.tee), 1);
  }

  lemma Split1(r: Receipt, x: Bytes)
    requires Ok1(r) && FitsSigned(TeeValue(r.tee), 1)
    ensures Message1(r) + x == Join(Head(r)) + (Join(Metrics(r)) + (Join(Flags(r)) + x))
  {
    hide Join;
    JoinConcat(Head(r) + Metrics(r), Flags(r));
    JoinConcat(Head(r), Metrics(r));
    var h, m, f := Join(Head(r)), Join(Metrics(r)), Join(Flags(r));
    Associates(h + m, f, x);
    Associates(h, m, f + x);
  }

  lemma Injective1(a: Receipt, b: Receipt, x: Bytes, y: Bytes)
    requires Ok1(a) && Ok1(b) && SameLengths(a, b)
    requires Message1(a) + x == Message1(b) + y
    ensures Same1(a, b) && x == y
  {
    hide Join, Message1, Head, Metrics, Flags, Ok1;
    TeeFits(a.tee);
    TeeFits(b.tee);
    Split1(a, x);
    Split1(b, y);
    HeadInjective(a, b, Join(Metrics(a)) + (Join(Flags(a)) + x), Join(Metrics(b)) + (Join(Flags(b)) + y));
    MetricsInjective(a, b, Join(Flags(a)) + x, Join(Flags(b)) + y);
    FlagsInjective(a, b, x, y);
  }

  /** A generation around the one inside it: tag, inner message, own fields. */
  lemma Unwrap(tag: Bytes, p: Bytes, q: Bytes, x: Bytes, m: Bytes, n: Bytes, y: Bytes)
    requires p == tag + (q + x) && m == tag + (n + y)
    requires p == m
    ensures q + x == n + y
  {
    CancelPrefix(tag, q + x, tag, n + y);
  }

  lemma Injective2(a: Receipt, b: Receipt, x: Bytes, y: Bytes)
    requires Ok2(a) && Ok2(b) && SameLengths(a, b)
    requires Message2(a) + x == Message2(b) + y
    ensures Same1(a, b) && Same2(a, b) && x == y
  {
    hide Join, Message1, Ok1, Same1, Encode, FitsSigned, SignedBigEndian;
    var t, u := Join(Timing(a)), Join(Timing(b));
    assert Message2(a) + x == Ascii(TAG2) + (Message1(a) + (t + x));
    assert Message2(b) + y == Ascii(TAG2) + (Message1(b) + (u + y));
    Unwrap(Ascii(TAG2), Message2(a) + x, Message1(a), t + x, Message2(b) + y, Message1(b), u + y);
    Injective1(a, b, t + x, u + y);
    var cs, ds := Timing(a), Timing(b);
    JoinInjective(cs, ds, x, y);
    assert cs[0] == ds[0] && cs[1] == ds[1] && cs[2] == ds[2] && cs[3] == ds[3];
    SignedInjective(a.version, b.version, 8);
    RawInjective(a.timingSource, b.timingSource);
    SameOrZero(a.observedStart, b.observedStart);
    SameOrZero(a.observedEnd, b.observedEnd);
    hide SameFloat, OrZero;
  }

  lemma Injective3(a: Receipt, b: Receipt, x: Bytes, y: Bytes)
    requires Ok3(a) && Ok3(b) && SameLengths(a, b)
    requires Message3(a) + x == Message3(b) + y
    ensures Same1(a, b) && Same2(a, b) && a.digest == b.digest && x == y
  {
    hide Join, Message2, Ok2, Same1, Same2;
    var cs, ds := [Counted(a.digest)], [Counted(b.digest)];
    var t, u := Join(cs), Join(ds);
    assert Message3(a) + x == Ascii(TAG3) + (Message2(a) + (t + x));
    assert Message3(b) + y == Ascii(TAG3) + (Message2(b) + (u + y));
    Unwrap(Ascii(TAG3), Message3(a) + x, Message2(a), t + x, Message3(b) + y, Message2(b), u + y);
    Injective2(a, b, t + x, u + y);
    JoinInjective(cs, ds, x, y);
    assert cs[0] == ds[0];
  }

  lemma KindInjective(k: string, l: string)
    requires k == "" || k == "low" || k == "full"
    requires l == "" || l == "low" || l == "full"
    requires Ascii(k) == Ascii(l)
    ensures k == l
  {
    assert |k| == |l|;
  }

  lemma Injective4(a: Receipt, b: Receipt)
    requires Ok4(a) && Ok4(b) && SameLengths(a, b)
    requires Message4(a) == Message4(b)
    ensures Same1(a, b) && Same2(a, b) && a.digest == b.digest && Same4(a, b)
  {
    hide Join, Message3, Ok3, Same1, Same2, Ascii, BigEndian;
    var cs, ds := Obligation(a), Obligation(b);
    var t, u := Join(cs), Join(ds);
    Unwrap(Ascii(TAG4), Message4(a), Message3(a), t, Message4(b), Message3(b), u);
    Injective3(a, b, t, u);
    assert t + [] == t && u + [] == u;
    JoinInjective(cs, ds, [], []);
    assert cs[0] == ds[0] && cs[1] == ds[1] && cs[2] == ds[2];
    KindInjective(a.kind, b.kind);
    Widths();
    BigEndianInjective(a.target, b.target, 4);
  }

  // -------------------------------------------------------------- generations

  lemma TagBytes()
    ensures |Ascii(TAG2)| == |Ascii(TAG3)| == |Ascii(TAG4)| == 27
    ensures Ascii(TAG2)[26] == 0x32 && Ascii(TAG3)[26] == 0x33 && Ascii(TAG4)[26] == 0x34
    ensures Ascii(TAG2)[..4] == Ascii(TAG3)[..4] == Ascii(TAG4)[..4] == [0x56, 0x45, 0x52, 0x41]
  {
  }

  lemma TagLength()
    ensures FromBigEndian([0x56, 0x45, 0x52, 0x41]) == TAG_AS_LENGTH
  {
    assert [0x56, 0x45, 0x52, 0x41][..3] == [0x56, 0x45, 0x52];
    assert [0x56, 0x45, 0x52][..2] == [0x56, 0x45];
    assert [0x56, 0x45][..1] == [0x56];
  }

  /** What a message begins with. */
  lemma Opening(r: Receipt)
    requires Message(r).Some?
    ensures var m := Message(r).value;
            if Generation(r) == 1 then |m| >= 4 && m[..4] == BigEndian(|Raw(r.minerAddress)|, 4)
            else |m| >= 27 && m[26] as int == 0x30 + Generation(r) && m[..4] == [0x56, 0x45, 0x52, 0x41]
    ensures TextOk(r.minerAddress)
  {
    hide Join, BigEndian, Encode, FitsSigned, SignedBigEndian, Ascii;
    TagBytes();
    if Generation(r) == 1 {
      FirstChunk(r);
    } else {
      var m := Message(r).value;
      var tag := if Generation(r) == 4 then Ascii(TAG4) else if Generation(r) == 3 then Ascii(TAG3) else Ascii(TAG2);
      assert m[..27] == tag && m[..4] == tag[..4];
      assert m[26] == m[..27][26];
    }
  }

  lemma FirstChunk(r: Receipt)
    requires Ok1(r)
    ensures |Message1(r)| >= 4 && Message1(r)[..4] == BigEndian(|Raw(r.minerAddress)|, 4)
  {
    hide BigEndian, Encode, FitsSigned, SignedBigEndian;
    TeeFits(r.tee);
    var cs := Head(r) + Metrics(r) + Flags(r);
    assert cs[0] == Counted(Raw(r.minerAddress));
    assert Message1(r) == ChunkBytes(cs[0]) + Join(cs[1..]);
  }

  lemma GenerationTold(a: Receipt, b: Receipt)
    requires Message(a).Some? && Message(a) == Message(b)
    requires TextOk(a.minerAddress) && |Raw(a.minerAddress)| != TAG_AS_LENGTH
    requires TextOk(b.minerAddress) && |Raw(b.minerAddress)| != TAG_AS_LENGTH
    ensures Generation(a) == Generation(b)
  {
    hide Message, Raw, TextOk;
    Opening(a);
    Opening(b);
    TagLength();
    Widths();
    BigEndianRoundTrip(|Raw(a.minerAddress)|, 4) by { RawShort(a.minerAddress); }
    BigEndianRoundTrip(|Raw(b.minerAddress)|, 4) by { RawShort(b.minerAddress); }
  }

  lemma RawShort(t: Text)
    requires TextOk(t)
    ensures |Raw(t)| < Pow256(4)
  {
    Widths();
  }

  /** Equal messages are signed by the same generation and agree on every field
      that generation signs, as long as no address is exactly as long as the
      letters VERA read as a length, about 1.4 GB. */
  lemma MessageInjective(a: Receipt, b: Receipt)
    requires Message(a).Some? && Message(a) == Message(b) && SameLengths(a, b)
    requires TextOk(a.minerAddress) && |Raw(a.minerAddress)| != TAG_AS_LENGTH
    requires TextOk(b.minerAddress) && |Raw(b.minerAddress)| != TAG_AS_LENGTH
    ensures Generation(a) == Generation(b) && SameSigned(a, b)
  {
    hide Message1, Message2, Message3, Message4, Ok1, Same1, Same2, Same4, Raw, TextOk;
    GenerationTold(a, b);
    match Generation(a)
    case 4 =>
      Injective4(a, b);
    case 3 =>
      assert Message3(a) + [] == Message3(a) && Message3(b) + [] == Message3(b);
      Injective3(a, b, [], []);
    case 2 =>
      assert Message2(a) + [] == Message2(a) && Message2(b) + [] == Message2(b);
      Injective2(a, b, [], []);
    case _ =>
      assert Message1(a) + [] == Message1(a) && Message1(b) + [] == Message1(b);
      Injective1(a, b, [], []);
  }

  // ------------------------------------------------------------------- layout

  /** A first-generation message ends with one byte for each truth value, one for the
      trusted-hardware result, and the miner's key. */
  lemma FlagBytes(r: Receipt)
    requires Ok1(r)
    ensures var m, k := Message1(r), |r.hotkey|;
            && |m| >= 4 + k && m[|m| - k..] == r.hotkey
            && m[|m| - k - 4..|m| - k] == [if r.proofVerified then 1 else 0, if r.proofRequested then 1 else 0,
                                           if r.isCanary then 1 else 0,
                                           if r.tee == None then 255 else if r.tee == Some(true) then 1 else 0]
  {
    hide Join, FitsSigned, SignedBigEndian, Encode;
    TeeFits(r.tee);
    Split1(r, []);
    FlagsJoined(r);
    var h, m, f := Join(Head(r)), Join(Metrics(r)), Join(Flags(r));
    hide Flags, Head, Metrics, Message1;
    assert f + [] == f && Message1(r) + [] == Message1(r) == h + (m + f) == (h + m) + f;
    EndOf(h + m, f, |r.hotkey|);
  }

  lemma EndOf(a: Bytes, f: Bytes, k: nat)
    requires |f| == 4 + k
    ensures var m := a + f;
            m[|m| - k..] == f[4..] && m[|m| - k - 4..|m| - k] == f[..4]
  {
  }

  lemma FlagsJoined(r: Receipt)
    requires FitsSigned(TeeValue(r.tee), 1)
    ensures Join(Flags(r)) == [if r.proofVerified then 1 else 0, if r.proofRequested then 1 else 0,
                               if r.isCanary then 1 else 0,
                               if r.tee == None then 255 else if r.tee == Some(true) then 1 else 0] + r.hotkey
  {
    TeeByte(r.tee);
    hide SignedBigEndian, FitsSigned, Join;
    JoinOfFive(PackBool(r.proofVerified), PackBool(r.proofRequested), PackBool(r.isCanary), SignedBigEndian(TeeValue(r.tee), 1), r.hotkey);
  }

  lemma JoinOfFive(a: Bytes, b: Bytes, c: Bytes, d: Bytes, e: Bytes)
    requires |a| == |b| == |c| == |d| == 1
    ensures Join([Fixed(a), Fixed(b), Fixed(c), Fixed(d), Fixed(e)]) == [a[0], b[0], c[0], d[0]] + e
  {
    JoinFront(Fixed(a), [Fixed(b), Fixed(c), Fixed(d), Fixed(e)]);
    JoinFront(Fixed(b), [Fixed(c), Fixed(d), Fixed(e)]);
    JoinFront(Fixed(c), [Fixed(d), Fixed(e)]);
    JoinFront(Fixed(d), [Fixed(e)]);
    JoinFront(Fixed(e), []);
    assert Join([]) == [];
    hide Join;
    assert e + [] == e;
    assert [a[0], b[0], c[0], d[0]] + e == a + (b + (c + (d + e)));
  }

  lemma JoinFront(c: Chunk, cs: seq<Chunk>)
    ensures Join([c] + cs) == ChunkBytes(c) + Join(cs)
  {
    assert ([c] + cs)[1..] == cs;
  }

  lemma TeeByte(t: Option<bool>)
    requires FitsSigned(TeeValue(t), 1)
    ensures SignedBigEndian(TeeValue(t), 1) == [if t == None then 255 else if t == Some(true) then 1 else 0]
  {
    Widths();
    var v := Unsigned(TeeValue(t), 1);
    assert BigEndian(v, 1) == BigEndian(v / 256, 0) + [v % 256];
  }

  /** Which receipts can be signed: the texts and the capture digest are shorter than
      2^32 bytes and the integers fit 64 bits, as far as the generation signs them; the
      fourth generation takes an obligation of sixteen bytes with a kind and a target
      below 2^32, or none of the three. */
  lemma SignableExactly(r: Receipt)
    ensures Message(r).Some? <==>
            && Encode(r.minerAddress).Some? && |Encode(r.minerAddress).value| < 0x1_0000_0000
            && Encode(r.modelId).Some? && |Encode(r.modelId).value| < 0x1_0000_0000
            && (forall v :: v in [r.modelIndex, r.epochNumber, r.timestamp, r.tokensGenerated, r.promptTokens] ==>
                  -0x8000_0000_0000_0000 <= v < 0x8000_0000_0000_0000)
            && (r.version >= 2 ==> r.version < 0x8000_0000_0000_0000)
            && (r.version >= 2 ==> Encode(r.timingSource).Some? && |Encode(r.timingSource).value| < 0x1_0000_0000)
            && (r.version >= 3 ==> |r.digest| < 0x1_0000_0000)
            && (r.version >= 4 ==>
                  || (|r.obligation| == 0 && r.kind == "" && r.target == 0)
                  || (|r.obligation| == 16 && (r.kind == "low" || r.kind == "full") && 0 <= r.target < 0x1_0000_0000))
  {
    hide Message1, Message2, Message3, Message4, Encode, FitsSigned;
    Fits64();
    var all := [r.modelIndex, r.epochNumber, r.timestamp, r.tokensGenerated, r.promptTokens];
    assert all[0] in all && all[1] in all && all[2] in all && all[3] in all && all[4] in all;
  }

  lemma Fits64()
    ensures forall v: int :: FitsSigned(v, 8) <==> -0x8000_0000_0000_0000 <= v < 0x8000_0000_0000_0000
  {
    Widths();
  }
}
