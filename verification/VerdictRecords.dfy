/** The owner-signed verdict snapshot: printer, cursor parser and canonical
    entry order. Errors of any kind are None; `lower` is the string lower-casing
    of the host language. */
module VerdictRecords {
  import opened ByteStrings
  import opened Utf8
  import opened Wrappers
  import opened Sorting

  const SNAPSHOT_VERSION := 1
  const SIGNATURE_BYTES := 64
  const MAX_ENTRIES := 100_000
  const MAX_STRING_BYTES := 4_096
  const DOMAIN := "VERATHOS/GLEIPNIR/VERDICT_SNAPSHOT/V1"

  type Lower = Text -> Text

  datatype Entry = Entry(
    minerAddress: Text, modelIndex: int, minerHotkey: Text, modelId: Text,
    hardVerdict: int, hardSourceEpoch: int, capacityGated: bool, probation: bool)

  datatype Snapshot = Snapshot(
    auditorHotkey: Bytes, epochNumber: int, generatedAt: int, entries: seq<Entry>,
    signature: Bytes, version: int)

  // ----------------------------------------------------------------- key order

  /** The order of `(miner_address, model_index)` tuples. */
  predicate KeyLess(a: Entry, b: Entry) {
    TextLess(a.minerAddress, b.minerAddress) || (a.minerAddress == b.minerAddress && a.modelIndex < b.modelIndex)
  }

  predicate SameKey(a: Entry, b: Entry) {
    a.minerAddress == b.minerAddress && a.modelIndex == b.modelIndex
  }

  lemma KeyOrder(a: Entry, b: Entry)
    ensures SameKey(a, b) || KeyLess(a, b) || KeyLess(b, a)
    ensures KeyLess(a, b) ==> !KeyLess(b, a) && !SameKey(a, b)
  {
    TextTrichotomy(a.minerAddress, b.minerAddress);
  }

  lemma KeyTransitive(a: Entry, b: Entry, c: Entry)
    requires KeyLess(a, b) && KeyLess(b, c)
    ensures KeyLess(a, c)
  {
    hide TextLess;
    if TextLess(a.minerAddress, b.minerAddress) && TextLess(b.minerAddress, c.minerAddress) {
      TextTransitive(a.minerAddress, b.minerAddress, c.minerAddress);
    }
  }

  /** Each key above the one before it. */
  predicate StrictlySorted(es: seq<Entry>) {
    forall i :: 0 < i < |es| ==> KeyLess(es[i - 1], es[i])
  }

  lemma {:induction false} SortedApart(es: seq<Entry>, i: nat, j: nat)
    requires StrictlySorted(es) && i < j < |es|
    ensures KeyLess(es[i], es[j])
    decreases j
  {
    if i < j - 1 {
      SortedApart(es, i, j - 1);
      KeyTransitive(es[i], es[j - 1], es[j]);
    }
  }

  // ---------------------------------------------------------------- validation

  predicate TextOk(t: Text) {
    Encode(t).Some? && 1 <= |Encode(t).value| <= MAX_STRING_BYTES
  }

  predicate ValidEntry(e: Entry, lower: Lower) {
    && e.minerAddress == lower(e.minerAddress)
    && TextOk(e.minerAddress)
    && e.modelIndex >= 0
    && TextOk(e.minerHotkey)
    && TextOk(e.modelId)
    && -1 <= e.hardVerdict <= 1
    && (if e.hardVerdict == -1 then e.hardSourceEpoch == -1 else e.hardSourceEpoch >= 0)
  }

  predicate Valid(s: Snapshot, lower: Lower, requireSignature: bool) {
    && s.version == SNAPSHOT_VERSION
    && |s.auditorHotkey| == 32
    && s.epochNumber >= 0
    && s.generatedAt > 0
    && |s.entries| <= MAX_ENTRIES
    && (forall i :: 0 <= i < |s.entries| ==> ValidEntry(s.entries[i], lower))
    && StrictlySorted(s.entries)
    && (|s.signature| == 0 || |s.signature| == SIGNATURE_BYTES)
    && (requireSignature ==> |s.signature| == SIGNATURE_BYTES)
  }

  /** A text of 1 to 4096 bytes. */
  ghost predicate Bounded(t: Text) {
    exists b :: Encode(t) == Some(b) && 1 <= |b| <= 4096
  }

  /** What a snapshot may hold: a lower-case address, a number for the model, and no
      source epoch exactly when there is no verdict. */
  ghost predicate SoundEntry(e: Entry, lower: Lower) {
    && lower(e.minerAddress) == e.minerAddress && e.modelIndex >= 0
    && Bounded(e.minerAddress) && Bounded(e.minerHotkey) && Bounded(e.modelId)
    && (|| (e.hardVerdict == -1 && e.hardSourceEpoch == -1)
        || ((e.hardVerdict == 0 || e.hardVerdict == 1) && e.hardSourceEpoch >= 0))
  }

  /** Keys rise from entry to entry, by address and then by index. */
  ghost predicate Rising(es: seq<Entry>) {
    forall i :: 0 < i < |es| ==>
      || Precedes(es[i - 1].minerAddress, es[i].minerAddress)
      || (es[i - 1].minerAddress == es[i].minerAddress && es[i - 1].modelIndex < es[i].modelIndex)
  }

  lemma SoundExact(e: Entry, lower: Lower)
    ensures ValidEntry(e, lower) <==> SoundEntry(e, lower)
  {
  }

  lemma RisingExact(es: seq<Entry>)
    ensures StrictlySorted(es) <==> Rising(es)
  {
    forall i | 0 < i < |es|
      ensures TextLess(es[i - 1].minerAddress, es[i].minerAddress) <==> Precedes(es[i - 1].minerAddress, es[i].minerAddress)
    {
      TextLessExactly(es[i - 1].minerAddress, es[i].minerAddress);
    }
    hide Precedes, TextLess;
  }

  /** `validate`, one entry after the other with the key before it. */
  method Validate(s: Snapshot, lower: Lower, requireSignature: bool) returns (ok: bool)
    ensures ok == Valid(s, lower, requireSignature)
  {
    hide KeyLess, ValidEntry;
    if s.version != SNAPSHOT_VERSION || |s.auditorHotkey| != 32 || s.epochNumber < 0 || s.generatedAt <= 0
       || |s.entries| > MAX_ENTRIES {
      return false;
    }
    var prior: Option<Entry> := None;
    var i := 0;
    while i < |s.entries|
      invariant 0 <= i <= |s.entries|
      invariant forall j :: 0 <= j < i ==> ValidEntry(s.entries[j], lower)
      invariant StrictlySorted(s.entries[..i])
      invariant prior == if i == 0 then None else Some(s.entries[i - 1])
    {
      var e := s.entries[i];
      if !ValidEntry(e, lower) {
        return false;
      }
      if prior.Some? && !KeyLess(prior.value, e) {
        return false;
      }
      prior := Some(e);
      i := i + 1;
    }
    assert s.entries[..i] == s.entries;
    return (|s.signature| == 0 || |s.signature| == SIGNATURE_BYTES)
           && (requireSignature ==> |s.signature| == SIGNATURE_BYTES);
  }

  // ------------------------------------------------------------------- printer

  function TextBytes(t: Text): Bytes
    requires TextOk(t)
  {
    BigEndian(|Encode(t).value|, 4) + Encode(t).value
  }

  function BoolByte(b: bool): Bytes {
    [if b then 1 else 0]
  }

  /** What `struct.pack` can write. */
  predicate Writable(e: Entry) {
    && TextOk(e.minerAddress) && TextOk(e.minerHotkey) && TextOk(e.modelId)
    && FitsSigned(e.modelIndex, 8) && FitsSigned(e.hardVerdict, 1) && FitsSigned(e.hardSourceEpoch, 8)
  }

  /** `VerdictSnapshotEntryV1.encode`, of a valid entry. */
  function EntryBytes(e: Entry): Bytes
    requires Writable(e)
  {
    TextBytes(e.minerAddress)
    + (SignedBigEndian(e.modelIndex, 8)
       + (TextBytes(e.minerHotkey)
          + (TextBytes(e.modelId)
             + (SignedBigEndian(e.hardVerdict, 1)
                + (SignedBigEndian(e.hardSourceEpoch, 8)
                   + (BoolByte(e.capacityGated) + BoolByte(e.probation)))))))
  }

  predicate AllWritable(es: seq<Entry>) {
    forall i :: 0 <= i < |es| ==> Writable(es[i])
  }

  function EntriesBytes(es: seq<Entry>): Bytes
    requires AllWritable(es)
  {
    if |es| == 0 then [] else EntryBytes(es[0]) + EntriesBytes(es[1..])
  }

  predicate WritableSnapshot(s: Snapshot) {
    && 0 <= s.version < 0x1_0000_0000 && FitsSigned(s.epochNumber, 8) && FitsSigned(s.generatedAt, 8)
    && |s.entries| < 0x1_0000_0000
    && AllWritable(s.entries)
  }

  function BodyBytes(s: Snapshot): Bytes
    requires WritableSnapshot(s)
  {
    BigEndian(s.version, 4)
    + (s.auditorHotkey
       + (SignedBigEndian(s.epochNumber, 8)
          + (SignedBigEndian(s.generatedAt, 8)
             + (BigEndian(|s.entries|, 4)
                + EntriesBytes(s.entries)))))
  }

  function UnsignedBytes(s: Snapshot, lower: Lower): Option<Bytes> {
    if Valid(s, lower, false) && WritableSnapshot(s) then Some(BodyBytes(s)) else None
  }

  function SigningMessage(s: Snapshot, lower: Lower): Option<Bytes> {
    var body :- UnsignedBytes(s, lower);
    Some(Ascii(DOMAIN) + body)
  }

  function ToBytes(s: Snapshot, lower: Lower): Option<Bytes> {
    if !Valid(s, lower, true) then None
    else
      var body :- UnsignedBytes(s, lower);
      Some(body + s.signature)
  }

  /** Exactly the snapshots that have bytes: version 1, sizes and numbers in range, a
      signature, and sound entries with rising keys. */
  lemma EncodesExactly(s: Snapshot, lower: Lower)
    ensures ToBytes(s, lower).Some? <==>
            && s.version == 1 && |s.auditorHotkey| == 32 && |s.signature| == 64 && |s.entries| <= 100_000
            && 0 <= s.epochNumber < 0x8000_0000_0000_0000 && 0 < s.generatedAt < 0x8000_0000_0000_0000
            && (forall i :: 0 <= i < |s.entries| ==>
                  && SoundEntry(s.entries[i], lower) && s.entries[i].modelIndex < 0x8000_0000_0000_0000
                  && s.entries[i].hardSourceEpoch < 0x8000_0000_0000_0000)
            && Rising(s.entries)
  {
    Widths();
    RisingExact(s.entries);
    forall i | 0 <= i < |s.entries|
      ensures ValidEntry(s.entries[i], lower) <==> SoundEntry(s.entries[i], lower)
      ensures ValidEntry(s.entries[i], lower) ==>
                (Writable(s.entries[i]) <==>
                   s.entries[i].modelIndex < 0x8000_0000_0000_0000 && s.entries[i].hardSourceEpoch < 0x8000_0000_0000_0000)
    {
      SoundExact(s.entries[i], lower);
    }
    hide ValidEntry, SoundEntry, Writable, Rising, StrictlySorted, BodyBytes;
  }

  /** Where the fields of the header stand in the bytes. */
  lemma HeaderLayout(s: Snapshot, lower: Lower)
    requires ToBytes(s, lower).Some?
    ensures var raw := ToBytes(s, lower).value;
            && |raw| >= 120
            && raw[..4] == [0, 0, 0, 1] && raw[4..36] == s.auditorHotkey
            && FromSignedBigEndian(raw[36..44]) == s.epochNumber && FromSignedBigEndian(raw[44..52]) == s.generatedAt
            && FromBigEndian(raw[52..56]) == |s.entries| && raw[|raw| - 64..] == s.signature
            && SigningMessage(s, lower) == Some(Ascii(DOMAIN) + raw[..|raw| - 64])
  {
    hide EntriesBytes, Valid, AllWritable, SignedBigEndian;
    HeaderFits(s, lower);
    var v, e, g, n := BigEndian(s.version, 4), SignedBigEndian(s.epochNumber, 8), SignedBigEndian(s.generatedAt, 8), BigEndian(|s.entries|, 4);
    SignedBigEndianRoundTrip(s.epochNumber, 8);
    SignedBigEndianRoundTrip(s.generatedAt, 8);
    BigEndianRoundTrip(|s.entries|, 4);
    VersionOne();
    hide BigEndian;
    HeaderFlat(v, s.auditorHotkey, e, g, n, EntriesBytes(s.entries), s.signature);
  }

  lemma VersionOne()
    ensures BigEndian(1, 4) == [0, 0, 0, 1]
  {
    assert BigEndian(0, 1) == [0] && BigEndian(0, 2) == [0, 0] && BigEndian(0, 3) == [0, 0, 0];
  }

  lemma HeaderFits(s: Snapshot, lower: Lower)
    requires ToBytes(s, lower).Some?
    ensures WritableSnapshot(s) && Valid(s, lower, false) && Valid(s, lower, true)
    ensures s.version == 1 && |s.auditorHotkey| == 32 && |s.signature| == 64 && |s.entries| < Pow256(4)
  {
    Widths();
  }

  lemma HeaderFlat(v: Bytes, k: Bytes, e: Bytes, g: Bytes, n: Bytes, es: Bytes, z: Bytes)
    requires |v| == |n| == 4 && |k| == 32 && |e| == |g| == 8 && |z| == 64
    ensures var raw := v + (k + (e + (g + (n + es)))) + z;
            && |raw| >= 120 && raw[..4] == v && raw[4..36] == k && raw[36..44] == e && raw[44..52] == g && raw[52..56] == n
            && raw[|raw| - 64..] == z && raw[..|raw| - 64] == v + (k + (e + (g + (n + es))))
  {
    var body := v + (k + (e + (g + (n + es))));
    assert body == v + k + e + g + n + es;
    var raw := body + z;
    assert raw == v + k + e + g + n + es + z;
  }

  // ------------------------------------------------------- what a cursor reads

  function ReadBytes(raw: Bytes, at: nat, size: int): (r: Option<(Bytes, nat)>)
    requires at <= |raw|
    ensures r.Some? ==> at <= r.value.1 <= |raw| && |r.value.0| == size == r.value.1 - at
  {
    if size < 0 || |raw| - at < size then None else Some((raw[at..at + size], at + size))
  }

  function ReadU32(raw: Bytes, at: nat): (r: Option<(nat, nat)>)
    requires at <= |raw|
    ensures r.Some? ==> at <= r.value.1 <= |raw|
  {
    var (b, next) :- ReadBytes(raw, at, 4);
    Some((FromBigEndian(b), next))
  }

  function ReadSigned(raw: Bytes, at: nat, width: nat): (r: Option<(int, nat)>)
    requires at <= |raw|
    ensures r.Some? ==> at <= r.value.1 <= |raw|
  {
    var (b, next) :- ReadBytes(raw, at, width);
    Some((FromSignedBigEndian(b), next))
  }

  function ReadBool(raw: Bytes, at: nat): (r: Option<(bool, nat)>)
    requires at <= |raw|
    ensures r.Some? ==> at <= r.value.1 <= |raw|
  {
    var (b, next) :- ReadBytes(raw, at, 1);
    if b[0] > 1 then None else Some((b[0] == 1, next))
  }

  function ReadText(raw: Bytes, at: nat): (r: Option<(Text, nat)>)
    requires at <= |raw|
    ensures r.Some? ==> at <= r.value.1 <= |raw|
  {
    var (size, start) :- ReadU32(raw, at);
    if size <= 0 || size > MAX_STRING_BYTES then None
    else
      var (b, next) :- ReadBytes(raw, start, size);
      var t :- Decode(b);
      Some((t, next))
  }

  function ReadEntry(raw: Bytes, at: nat): (r: Option<(Entry, nat)>)
    requires at <= |raw|
    ensures r.Some? ==> at <= r.value.1 <= |raw|
  {
    var (address, a1) :- ReadText(raw, at);
    var (index, a2) :- ReadSigned(raw, a1, 8);
    var (hotkey, a3) :- ReadText(raw, a2);
    var (model, a4) :- ReadText(raw, a3);
    var (verdict, a5) :- ReadSigned(raw, a4, 1);
    var (epoch, a6) :- ReadSigned(raw, a5, 8);
    var (gated, a7) :- ReadBool(raw, a6);
    var (probation, a8) :- ReadBool(raw, a7);
    Some((Entry(address, index, hotkey, model, verdict, epoch, gated, probation), a8))
  }

  function ReadEntries(raw: Bytes, at: nat, count: nat): (r: Option<(seq<Entry>, nat)>)
    requires at <= |raw|
    ensures r.Some? ==> at <= r.value.1 <= |raw| && |r.value.0| == count
    decreases count
  {
    if count == 0 then Some(([], at))
    else
      var (e, a1) :- ReadEntry(raw, at);
      var (rest, next) :- ReadEntries(raw, a1, count - 1);
      Some(([e] + rest, next))
  }

  /** Everything a parse reads, before validation. */
  function ReadSnapshot(raw: Bytes): Option<(Snapshot, nat)> {
    var (version, a1) :- ReadU32(raw, 0);
    var (hotkey, a2) :- ReadBytes(raw, a1, 32);
    var (epoch, a3) :- ReadSigned(raw, a2, 8);
    var (generated, a4) :- ReadSigned(raw, a3, 8);
    var (count, a5) :- ReadU32(raw, a4);
    if count > MAX_ENTRIES then None
    else
      var (entries, a6) :- ReadEntries(raw, a5, count);
      var (signature, a7) :- ReadBytes(raw, a6, SIGNATURE_BYTES);
      Some((Snapshot(hotkey, epoch, generated, entries, signature, version), a7))
  }

  function FromBytes(raw: Bytes, lower: Lower): Option<Snapshot> {
    if |raw| < 4 + 32 + 8 + 8 + 4 + 64 then None
    else
      var (s, end) :- ReadSnapshot(raw);
      if end != |raw| then None
      else if Valid(s, lower, true) then Some(s) else None
  }

  // ---------------------------------------------------------------- the cursor

  /** `_Cursor`. A failed read ends the parse, so only successful reads say where
      the cursor is. */
  class Cursor {
    const raw: Bytes
    var offset: nat

    constructor (raw: Bytes)
      ensures this.raw == raw && offset == 0
    {
      this.raw := raw;
      offset := 0;
    }

    predicate InRange()
      reads this
    {
      offset <= |raw|
    }

    method Take(size: int) returns (r: Option<Bytes>)
      requires InRange()
      modifies this
      ensures InRange()
      ensures r.Some? ==> ReadBytes(raw, old(offset), size) == Some((r.value, offset))
      ensures r.None? ==> ReadBytes(raw, old(offset), size) == None
    {
      if size < 0 || |raw| - offset < size {
        return None;
      }
      r := Some(raw[offset..offset + size]);
      offset := offset + size;
    }

    method U32() returns (r: Option<nat>)
      requires InRange()
      modifies this
      ensures InRange()
      ensures r.Some? ==> ReadU32(raw, old(offset)) == Some((r.value, offset))
      ensures r.None? ==> ReadU32(raw, old(offset)) == None
    {
      var b :- Take(4);
      r := Some(FromBigEndian(b));
    }

    method I64() returns (r: Option<int>)
      requires InRange()
      modifies this
      ensures InRange()
      ensures r.Some? ==> ReadSigned(raw, old(offset), 8) == Some((r.value, offset))
      ensures r.None? ==> ReadSigned(raw, old(offset), 8) == None
    {
      var b :- Take(8);
      r := Some(FromSignedBigEndian(b));
    }

    method I8() returns (r: Option<int>)
      requires InRange()
      modifies this
      ensures InRange()
      ensures r.Some? ==> ReadSigned(raw, old(offset), 1) == Some((r.value, offset))
      ensures r.None? ==> ReadSigned(raw, old(offset), 1) == None
    {
      var b :- Take(1);
      r := Some(FromSignedBigEndian(b));
    }

    method Boolean() returns (r: Option<bool>)
      requires InRange()
      modifies this
      ensures InRange()
      ensures r.Some? ==> ReadBool(raw, old(offset)) == Some((r.value, offset))
      ensures r.None? ==> ReadBool(raw, old(offset)) == None
    {
      var b :- Take(1);
      if b != [0] && b != [1] {
        return None;
      }
      return Some(b == [1]);
    }

    method String() returns (r: Option<Text>)
      requires InRange()
      modifies this
      ensures InRange()
      ensures r.Some? ==> ReadText(raw, old(offset)) == Some((r.value, offset))
      ensures r.None? ==> ReadText(raw, old(offset)) == None
    {
      var size :- U32();
      if size <= 0 || size > MAX_STRING_BYTES {
        return None;
      }
      var b :- Take(size);
      r := Decode(b);
    }

    method NextEntry() returns (r: Option<Entry>)
      requires InRange()
      modifies this
      ensures InRange()
      ensures r.Some? ==> ReadEntry(raw, old(offset)) == Some((r.value, offset))
      ensures r.None? ==> ReadEntry(raw, old(offset)) == None
    {
      hide ReadText, ReadSigned, ReadBool;
      var address :- String();
      var index :- I64();
      var hotkey :- String();
      var model :- String();
      var verdict :- I8();
      var epoch :- I64();
      var gated :- Boolean();
      var probation :- Boolean();
      r := Some(Entry(address, index, hotkey, model, verdict, epoch, gated, probation));
    }
  }

  /** The entries read so far, continued by the rest. */
  ghost predicate Continues(raw: Bytes, at: nat, count: nat, done: seq<Entry>, now: nat, left: nat)
    requires at <= |raw| && now <= |raw|
  {
    ReadEntries(raw, at, count)
    == match ReadEntries(raw, now, left)
       case None => None
       case Some((rest, next)) => Some((done + rest, next))
  }

  lemma ContinueOne(raw: Bytes, at: nat, count: nat, done: seq<Entry>, now: nat, left: nat)
    requires at <= |raw| && now <= |raw| && left > 0
    requires Continues(raw, at, count, done, now, left)
    ensures ReadEntry(raw, now).None? ==> ReadEntries(raw, at, count).None?
    ensures ReadEntry(raw, now).Some? ==>
              var (e, next) := ReadEntry(raw, now).value;
              Continues(raw, at, count, done + [e], next, left - 1)
  {
    if ReadEntry(raw, now).Some? {
      var (e, next) := ReadEntry(raw, now).value;
      if ReadEntries(raw, next, left - 1).Some? {
        var (rest, end) := ReadEntries(raw, next, left - 1).value;
        assert done + ([e] + rest) == (done + [e]) + rest;
      }
    }
  }

  method ParseEntries(cursor: Cursor, count: nat) returns (r: Option<seq<Entry>>)
    requires cursor.InRange()
    modifies cursor
    ensures cursor.InRange()
    ensures r.Some? ==> ReadEntries(cursor.raw, old(cursor.offset), count) == Some((r.value, cursor.offset))
    ensures r.None? ==> ReadEntries(cursor.raw, old(cursor.offset), count) == None
  {
    hide ReadEntry;
    var entries: seq<Entry> := [];
    var i := 0;
    assert Continues(cursor.raw, cursor.offset, count, [], cursor.offset, count) by {
      if ReadEntries(cursor.raw, cursor.offset, count).Some? {
        var es := ReadEntries(cursor.raw, cursor.offset, count).value.0;
        assert [] + es == es;
      }
    }
    while i < count
      invariant 0 <= i <= count
      invariant cursor.InRange()
      invariant Continues(cursor.raw, old(cursor.offset), count, entries, cursor.offset, count - i)
    {
      ContinueOne(cursor.raw, old(cursor.offset), count, entries, cursor.offset, count - i);
      var e :- cursor.NextEntry();
      entries := entries + [e];
      i := i + 1;
    }
    assert entries + [] == entries;
    return Some(entries);
  }

  /** `from_bytes` */
  method Parse(raw: Bytes, lower: Lower) returns (r: Option<Snapshot>)
    ensures r == FromBytes(raw, lower)
  {
    hide ReadU32, ReadSigned, ReadEntries, ReadBytes, Valid;
    if |raw| < 4 + 32 + 8 + 8 + 4 + 64 {
      return None;
    }
    var cursor := new Cursor(raw);
    var version :- cursor.U32();
    var hotkey :- cursor.Take(32);
    var epoch :- cursor.I64();
    var generated :- cursor.I64();
    var count :- cursor.U32();
    if count > MAX_ENTRIES {
      return None;
    }
    var entries :- ParseEntries(cursor, count);
    var signature :- cursor.Take(SIGNATURE_BYTES);
    if cursor.offset != |raw| {
      return None;
    }
    var s := Snapshot(hotkey, epoch, generated, entries, signature, version);
    var ok := Validate(s, lower, true);
    return if ok then Some(s) else None;
  }

  // ---------------------------------------------------------------- round trip

  /** The bytes at a place. */
  predicate At(raw: Bytes, at: nat, b: Bytes) {
    at + |b| <= |raw| && raw[at..at + |b|] == b
  }

  lemma AtSplit(raw: Bytes, at: nat, a: Bytes, b: Bytes)
    ensures At(raw, at, a + b) <==> At(raw, at, a) && At(raw, at + |a|, b)
  {
    if at + |a| + |b| <= |raw| {
      assert raw[at..at + |a + b|] == raw[at..at + |a|] + raw[at + |a|..at + |a| + |b|];
      assert (a + b)[..|a|] == a && (a + b)[|a|..] == b;
    }
  }

  /** What a reader returns, and where it stops, is decided by the bytes the
      printer writes for it. */
  lemma BytesExact(raw: Bytes, at: nat, b: Bytes, n: nat)
    requires at <= |raw|
    ensures ReadBytes(raw, at, |b|) == Some((b, n)) <==> At(raw, at, b) && n == at + |b|
  {
  }

  lemma U32Exact(raw: Bytes, at: nat, v: nat, n: nat)
    requires at <= |raw|
    ensures ReadU32(raw, at) == Some((v, n)) <==>
            (v < 0x1_0000_0000 && At(raw, at, BigEndian(v, 4)) && n == at + 4)
  {
    Widths();
    if ReadU32(raw, at) == Some((v, n)) {
      FromBigEndianRoundTrip(raw[at..at + 4]);
    } else if v < 0x1_0000_0000 {
      BigEndianRoundTrip(v, 4);
    }
  }

  lemma SignedExact(raw: Bytes, at: nat, width: nat, v: int, n: nat)
    requires at <= |raw| && width > 0
    ensures ReadSigned(raw, at, width) == Some((v, n)) <==>
            (FitsSigned(v, width) && At(raw, at, SignedBigEndian(v, width)) && n == at + width)
  {
    hide FromSignedBigEndian, SignedBigEndian, FitsSigned;
    if ReadSigned(raw, at, width) == Some((v, n)) {
      FromSignedBigEndianRoundTrip(raw[at..at + width]);
    } else if FitsSigned(v, width) {
      SignedBigEndianRoundTrip(v, width);
    }
  }

  lemma BoolExact(raw: Bytes, at: nat, v: bool, n: nat)
    requires at <= |raw|
    ensures ReadBool(raw, at) == Some((v, n)) <==> At(raw, at, BoolByte(v)) && n == at + 1
  {
    if at < |raw| {
      assert raw[at..at + 1] == [raw[at]];
    }
  }

  lemma TextExact(raw: Bytes, at: nat, t: Text, n: nat)
    requires at <= |raw|
    ensures ReadText(raw, at) == Some((t, n)) <==>
            (TextOk(t) && At(raw, at, TextBytes(t)) && n == at + |TextBytes(t)|)
  {
    hide Encode, Decode, ReadU32, ReadBytes;
    if ReadText(raw, at) == Some((t, n)) {
      var (size, start) := ReadU32(raw, at).value;
      var b := ReadBytes(raw, start, size).value.0;
      U32Exact(raw, at, size, start);
      BytesExact(raw, start, b, n);
      DecodeThenEncode(b);
      AtSplit(raw, at, BigEndian(size, 4), b);
    } else if TextOk(t) && At(raw, at, TextBytes(t)) && n == at + |TextBytes(t)| {
      var b := Encode(t).value;
      AtSplit(raw, at, BigEndian(|b|, 4), b);
      U32Exact(raw, at, |b|, at + 4);
      BytesExact(raw, at + 4, b, n);
      EncodeThenDecode(t);
    }
  }

  /** The fields of an entry one behind the other. */
  predicate FieldsAt(raw: Bytes, at: nat, e: Entry)
    requires Writable(e)
  {
    var a1 := at + |TextBytes(e.minerAddress)|;
    var a3 := a1 + 8 + |TextBytes(e.minerHotkey)|;
    var a4 := a3 + |TextBytes(e.modelId)|;
    && At(raw, at, TextBytes(e.minerAddress))
    && At(raw, a1, SignedBigEndian(e.modelIndex, 8))
    && At(raw, a1 + 8, TextBytes(e.minerHotkey))
    && At(raw, a3, TextBytes(e.modelId))
    && At(raw, a4, SignedBigEndian(e.hardVerdict, 1))
    && At(raw, a4 + 1, SignedBigEndian(e.hardSourceEpoch, 8))
    && At(raw, a4 + 9, BoolByte(e.capacityGated))
    && At(raw, a4 + 10, BoolByte(e.probation))
  }

  lemma FieldsJoined(raw: Bytes, at: nat, e: Entry)
    requires Writable(e)
    ensures FieldsAt(raw, at, e) <==> At(raw, at, EntryBytes(e))
    ensures |EntryBytes(e)|
         == |TextBytes(e.minerAddress)| + |TextBytes(e.minerHotkey)| + |TextBytes(e.modelId)| + 19
  {
    hide At, TextBytes, SignedBigEndian, TextOk, FitsSigned;
    var f1, f2, f3, f4 := TextBytes(e.minerAddress), SignedBigEndian(e.modelIndex, 8), TextBytes(e.minerHotkey), TextBytes(e.modelId);
    var f5, f6 := SignedBigEndian(e.hardVerdict, 1), SignedBigEndian(e.hardSourceEpoch, 8);
    var f7, f8 := BoolByte(e.capacityGated), BoolByte(e.probation);
    var a1 := at + |f1|;
    var a3 := a1 + 8 + |f3|;
    var a4 := a3 + |f4|;
    AtSplit(raw, at, f1, f2 + (f3 + (f4 + (f5 + (f6 + (f7 + f8))))));
    AtSplit(raw, a1, f2, f3 + (f4 + (f5 + (f6 + (f7 + f8)))));
    AtSplit(raw, a1 + 8, f3, f4 + (f5 + (f6 + (f7 + f8))));
    AtSplit(raw, a3, f4, f5 + (f6 + (f7 + f8)));
    AtSplit(raw, a4, f5, f6 + (f7 + f8));
    AtSplit(raw, a4 + 1, f6, f7 + f8);
    AtSplit(raw, a4 + 9, f7, f8);
  }

  lemma EntryRead(raw: Bytes, at: nat, e: Entry, n: nat)
    requires at <= |raw| && ReadEntry(raw, at) == Some((e, n))
    ensures Writable(e) && At(raw, at, EntryBytes(e)) && n == at + |EntryBytes(e)|
  {
    hide ReadText, ReadSigned, ReadBool, At, TextBytes, SignedBigEndian, TextOk, FitsSigned, EntryBytes, BoolByte;
    var (address, a1) := ReadText(raw, at).value;
    var (index, a2) := ReadSigned(raw, a1, 8).value;
    var (hotkey, a3) := ReadText(raw, a2).value;
    var (model, a4) := ReadText(raw, a3).value;
    var (verdict, a5) := ReadSigned(raw, a4, 1).value;
    var (epoch, a6) := ReadSigned(raw, a5, 8).value;
    var (gated, a7) := ReadBool(raw, a6).value;
    TextExact(raw, at, address, a1);
    SignedExact(raw, a1, 8, index, a2);
    TextExact(raw, a2, hotkey, a3);
    TextExact(raw, a3, model, a4);
    SignedExact(raw, a4, 1, verdict, a5);
    SignedExact(raw, a5, 8, epoch, a6);
    BoolExact(raw, a6, gated, a7);
    BoolExact(raw, a7, e.probation, n);
    FieldsJoined(raw, at, e);
  }

  lemma FieldsRead(raw: Bytes, at: nat, e: Entry)
    requires at <= |raw| && Writable(e) && FieldsAt(raw, at, e) && at + |EntryBytes(e)| <= |raw|
    ensures ReadEntry(raw, at) == Some((e, at + |EntryBytes(e)|))
  {
    hide ReadText, ReadSigned, ReadBool, At, TextBytes, SignedBigEndian, TextOk, FitsSigned, EntryBytes, BoolByte;
    FieldsJoined(raw, at, e);
    var a1 := at + |TextBytes(e.minerAddress)|;
    var a3 := a1 + 8 + |TextBytes(e.minerHotkey)|;
    var a4 := a3 + |TextBytes(e.modelId)|;
    TextExact(raw, at, e.minerAddress, a1);
    SignedExact(raw, a1, 8, e.modelIndex, a1 + 8);
    TextExact(raw, a1 + 8, e.minerHotkey, a3);
    TextExact(raw, a3, e.modelId, a4);
    SignedExact(raw, a4, 1, e.hardVerdict, a4 + 1);
    SignedExact(raw, a4 + 1, 8, e.hardSourceEpoch, a4 + 9);
    BoolExact(raw, a4 + 9, e.capacityGated, a4 + 10);
    BoolExact(raw, a4 + 10, e.probation, a4 + 11);
  }

  lemma EntryWritten(raw: Bytes, at: nat, e: Entry)
    requires at <= |raw| && Writable(e) && At(raw, at, EntryBytes(e))
    ensures ReadEntry(raw, at) == Some((e, at + |EntryBytes(e)|))
  {
    assert at + |EntryBytes(e)| <= |raw|;
    hide At, ReadEntry, FieldsAt, EntryBytes, Writable;
    FieldsJoined(raw, at, e);
    FieldsRead(raw, at, e);
  }

  lemma {:induction false} EntriesRead(raw: Bytes, at: nat, es: seq<Entry>, n: nat)
    requires at <= |raw| && ReadEntries(raw, at, |es|) == Some((es, n))
    ensures AllWritable(es) && At(raw, at, EntriesBytes(es)) && n == at + |EntriesBytes(es)|
    decreases |es|
  {
    hide ReadEntry, EntryBytes, Writable;
    if |es| > 0 {
      var (e, a1) := ReadEntry(raw, at).value;
      var rest := ReadEntries(raw, a1, |es| - 1).value.0;
      assert rest == es[1..] by { assert ([e] + rest)[1..] == rest; }
      EntryRead(raw, at, es[0], a1);
      EntriesRead(raw, a1, es[1..], n);
      AtSplit(raw, at, EntryBytes(es[0]), EntriesBytes(es[1..]));
    }
  }

  lemma {:induction false} EntriesWritten(raw: Bytes, at: nat, es: seq<Entry>)
    requires at <= |raw| && AllWritable(es) && At(raw, at, EntriesBytes(es))
    ensures ReadEntries(raw, at, |es|) == Some((es, at + |EntriesBytes(es)|))
    decreases |es|
  {
    hide ReadEntry, EntryBytes, Writable;
    if |es| > 0 {
      assert es == [es[0]] + es[1..];
      AtSplit(raw, at, EntryBytes(es[0]), EntriesBytes(es[1..]));
      EntryWritten(raw, at, es[0]);
      EntriesWritten(raw, at + |EntryBytes(es[0])|, es[1..]);
    }
  }

  lemma EntriesExact(raw: Bytes, at: nat, es: seq<Entry>, n: nat)
    requires at <= |raw|
    ensures ReadEntries(raw, at, |es|) == Some((es, n)) <==>
            (AllWritable(es) && At(raw, at, EntriesBytes(es)) && n == at + |EntriesBytes(es)|)
  {
    hide ReadEntries, EntriesBytes, At;
    if ReadEntries(raw, at, |es|) == Some((es, n)) {
      EntriesRead(raw, at, es, n);
    } else if AllWritable(es) && At(raw, at, EntriesBytes(es)) {
      EntriesWritten(raw, at, es);
    }
  }

  /** The fields of a snapshot one behind the other. */
  lemma BodyJoined(raw: Bytes, s: Snapshot)
    requires WritableSnapshot(s) && |s.auditorHotkey| == 32
    ensures |BodyBytes(s)| == 56 + |EntriesBytes(s.entries)|
    ensures At(raw, 0, BodyBytes(s) + s.signature) <==>
            (&& At(raw, 0, BigEndian(s.version, 4)) && At(raw, 4, s.auditorHotkey)
             && At(raw, 36, SignedBigEndian(s.epochNumber, 8)) && At(raw, 44, SignedBigEndian(s.generatedAt, 8))
             && At(raw, 52, BigEndian(|s.entries|, 4)) && At(raw, 56, EntriesBytes(s.entries))
             && At(raw, 56 + |EntriesBytes(s.entries)|, s.signature))
  {
    hide At, EntriesBytes, SignedBigEndian, BigEndian, FitsSigned, Writable;
    var f1, f2, f3, f4 := BigEndian(s.version, 4), s.auditorHotkey, SignedBigEndian(s.epochNumber, 8), SignedBigEndian(s.generatedAt, 8);
    var f5, f6 := BigEndian(|s.entries|, 4), EntriesBytes(s.entries);
    AtSplit(raw, 0, BodyBytes(s), s.signature);
    AtSplit(raw, 0, f1, f2 + (f3 + (f4 + (f5 + f6))));
    AtSplit(raw, 4, f2, f3 + (f4 + (f5 + f6)));
    AtSplit(raw, 36, f3, f4 + (f5 + f6));
    AtSplit(raw, 44, f4, f5 + f6);
    AtSplit(raw, 52, f5, f6);
  }

  lemma SnapshotRead(raw: Bytes, s: Snapshot, n: nat)
    requires ReadSnapshot(raw) == Some((s, n))
    ensures WritableSnapshot(s) && |s.auditorHotkey| == 32
    ensures At(raw, 0, BodyBytes(s) + s.signature) && n == |BodyBytes(s)| + |s.signature|
  {
    hide ReadU32, ReadSigned, ReadBytes, ReadEntries, At, EntriesBytes, SignedBigEndian, BigEndian, FitsSigned, Writable, BodyBytes;
    var (version, a1) := ReadU32(raw, 0).value;
    var (hotkey, a2) := ReadBytes(raw, a1, 32).value;
    var (epoch, a3) := ReadSigned(raw, a2, 8).value;
    var (generated, a4) := ReadSigned(raw, a3, 8).value;
    var (count, a5) := ReadU32(raw, a4).value;
    var (entries, a6) := ReadEntries(raw, a5, count).value;
    U32Exact(raw, 0, version, a1);
    BytesExact(raw, a1, hotkey, a2);
    SignedExact(raw, a2, 8, epoch, a3);
    SignedExact(raw, a3, 8, generated, a4);
    U32Exact(raw, a4, count, a5);
    EntriesExact(raw, a5, entries, a6);
    BytesExact(raw, a6, s.signature, n);
    BodyJoined(raw, s);
  }

  lemma PartsRead(raw: Bytes, s: Snapshot, end: nat)
    requires WritableSnapshot(s) && |s.auditorHotkey| == 32 && |s.entries| <= MAX_ENTRIES
    requires end + SIGNATURE_BYTES <= |raw| && end == 56 + |EntriesBytes(s.entries)| && |s.signature| == SIGNATURE_BYTES
    requires At(raw, 0, BigEndian(s.version, 4)) && At(raw, 4, s.auditorHotkey)
    requires At(raw, 36, SignedBigEndian(s.epochNumber, 8)) && At(raw, 44, SignedBigEndian(s.generatedAt, 8))
    requires At(raw, 52, BigEndian(|s.entries|, 4)) && At(raw, 56, EntriesBytes(s.entries)) && At(raw, end, s.signature)
    ensures ReadSnapshot(raw) == Some((s, end + SIGNATURE_BYTES))
  {
    hide ReadU32, ReadSigned, ReadBytes, ReadEntries, At, EntriesBytes, SignedBigEndian, BigEndian, FitsSigned, Writable, BodyBytes;
    U32Exact(raw, 0, s.version, 4);
    BytesExact(raw, 4, s.auditorHotkey, 36);
    SignedExact(raw, 36, 8, s.epochNumber, 44);
    SignedExact(raw, 44, 8, s.generatedAt, 52);
    U32Exact(raw, 52, |s.entries|, 56);
    EntriesExact(raw, 56, s.entries, end);
    BytesExact(raw, end, s.signature, end + SIGNATURE_BYTES);
  }

  lemma EndInRange(raw: Bytes, b: Bytes)
    requires At(raw, 0, b)
    ensures |b| <= |raw|
  {
  }

  lemma SnapshotWritten(raw: Bytes, s: Snapshot)
    requires WritableSnapshot(s) && |s.auditorHotkey| == 32 && |s.entries| <= MAX_ENTRIES && |s.signature| == SIGNATURE_BYTES
    requires At(raw, 0, BodyBytes(s) + s.signature)
    ensures ReadSnapshot(raw) == Some((s, |BodyBytes(s)| + |s.signature|))
  {
    hide At, ReadSnapshot, BodyBytes, EntriesBytes, BigEndian, SignedBigEndian;
    BodyJoined(raw, s);
    EndInRange(raw, BodyBytes(s) + s.signature);
    PartsRead(raw, s, 56 + |EntriesBytes(s.entries)|);
  }

  /** Parser and printer undo each other, both ways and for every input: the
      parser accepts exactly the bytes the printer writes. */
  lemma CodecExact(raw: Bytes, s: Snapshot, lower: Lower)
    ensures FromBytes(raw, lower) == Some(s) <==> ToBytes(s, lower) == Some(raw)
  {
    hide ReadSnapshot, BodyBytes, WritableSnapshot, StrictlySorted, ValidEntry;
    if FromBytes(raw, lower) == Some(s) {
      var (t, end) := ReadSnapshot(raw).value;
      assert ReadSnapshot(raw) == Some((s, |raw|));
      SnapshotRead(raw, s, |raw|);
      assert raw[0..|raw|] == raw;
    } else if ToBytes(s, lower) == Some(raw) {
      assert At(raw, 0, BodyBytes(s) + s.signature);
      BodyJoined(raw, s);
      SnapshotWritten(raw, s);
    }
  }

  /** One signed message belongs to one statement: equal messages differ at most
      in the signature. */
  lemma SigningInjective(s: Snapshot, t: Snapshot, lower: Lower)
    requires SigningMessage(s, lower).Some? && SigningMessage(s, lower) == SigningMessage(t, lower)
    ensures s.(signature := t.signature) == t
  {
    hide BodyBytes, StrictlySorted, ValidEntry;
    var signature := Zeros(SIGNATURE_BYTES);
    CancelPrefix(Ascii(DOMAIN), BodyBytes(s), Ascii(DOMAIN), BodyBytes(t));
    assert BodyBytes(s.(signature := signature)) == BodyBytes(s) by { SignatureApart(s, signature); }
    assert BodyBytes(t.(signature := signature)) == BodyBytes(t) by { SignatureApart(t, signature); }
    var raw := BodyBytes(s) + signature;
    CodecExact(raw, s.(signature := signature), lower);
    CodecExact(raw, t.(signature := signature), lower);
    assert s.(signature := signature) == t.(signature := signature);
  }

  lemma SignatureApart(s: Snapshot, signature: Bytes)
    requires WritableSnapshot(s)
    ensures BodyBytes(s.(signature := signature)) == BodyBytes(s)
  {
  }

  // ----------------------------------------------------------- canonical order

  predicate DistinctKeys(es: seq<Entry>) {
    forall i, j :: 0 <= i < j < |es| ==> !SameKey(es[i], es[j])
  }

  /** `canonical_verdict_entries_v1` */
  function Canonical(entries: seq<Entry>, lower: Lower): Option<seq<Entry>> {
    var values := Sort(KeyLess, entries);
    if (forall i :: 0 <= i < |values| ==> ValidEntry(values[i], lower)) && DistinctKeys(values) then Some(values)
    else None
  }

  lemma KeyLessAsymmetric()
    ensures Asymmetric(KeyLess)
  {
    forall a, b | KeyLess(a, b)
      ensures !KeyLess(b, a)
    {
      KeyOrder(a, b);
    }
  }

  lemma StrictMeansDistinct(es: seq<Entry>)
    requires NotDescending(KeyLess, es)
    ensures StrictlySorted(es) <==> DistinctKeys(es)
  {
    hide KeyLess, SameKey;
    if StrictlySorted(es) {
      forall i, j | 0 <= i < j < |es|
        ensures !SameKey(es[i], es[j])
      {
        SortedApart(es, i, j);
        KeyOrder(es[i], es[j]);
      }
    } else if DistinctKeys(es) {
      forall i | 0 < i < |es|
        ensures KeyLess(es[i - 1], es[i])
      {
        KeyOrder(es[i - 1], es[i]);
      }
    }
  }

  /** The least entry of a strictly sorted sequence is its first. */
  lemma FirstIsLeast(a: seq<Entry>, b: seq<Entry>)
    requires StrictlySorted(a) && StrictlySorted(b) && |a| > 0 && |b| > 0
    requires a[0] in b && b[0] in a
    ensures a[0] == b[0]
  {
    hide KeyLess;
    var i :| 0 <= i < |b| && b[i] == a[0];
    var j :| 0 <= j < |a| && a[j] == b[0];
    if i > 0 && j > 0 {
      SortedApart(b, 0, i);
      SortedApart(a, 0, j);
      KeyOrder(a[0], b[0]);
    }
  }

  lemma {:induction false} SortedUnique(a: seq<Entry>, b: seq<Entry>)
    requires StrictlySorted(a) && StrictlySorted(b) && multiset(a) == multiset(b)
    ensures a == b
    decreases |a|
  {
    SameEnds(a, b);
    if |a| > 0 {
      FirstIsLeast(a, b);
      SameRest(a, b);
      assert a == [a[0]] + a[1..] && b == [b[0]] + b[1..];
      SortedUnique(a[1..], b[1..]);
    }
  }

  /** The canonical entries are the one strictly sorted arrangement of valid
      entries, whatever order they came in; there is one exactly when the keys
      are distinct. */
  lemma CanonicalExact(entries: seq<Entry>, values: seq<Entry>, lower: Lower)
    ensures Canonical(entries, lower) == Some(values) <==>
            (&& multiset(values) == multiset(entries)
             && Rising(values)
             && forall e :: e in values ==> SoundEntry(e, lower))
  {
    forall e
      ensures ValidEntry(e, lower) <==> SoundEntry(e, lower)
    {
      SoundExact(e, lower);
    }
    RisingExact(values);
    hide ValidEntry, SoundEntry, Rising, KeyLess, SameKey;
    var sorted := Sort(KeyLess, entries);
    KeyLessAsymmetric();
    SortSorts(KeyLess, entries);
    StrictMeansDistinct(sorted);
    if multiset(values) == multiset(entries) && StrictlySorted(values) && forall e :: e in values ==> ValidEntry(e, lower) {
      DistinctFollows(values, sorted);
      SortedUnique(values, sorted);
    }
  }

  /** Distinct keys are a matter of the multiset. */
  lemma {:induction false} DistinctFollows(a: seq<Entry>, b: seq<Entry>)
    requires StrictlySorted(a) && NotDescending(KeyLess, b) && multiset(a) == multiset(b)
    ensures StrictlySorted(b)
    decreases |a|
  {
    hide KeyLess, SameKey;
    forall i | 0 < i < |b|
      ensures KeyLess(b[i - 1], b[i])
    {
      KeyOrder(b[i - 1], b[i]);
      if SameKey(b[i - 1], b[i]) {
        TwiceSame(a, b, i);
      }
    }
  }

  lemma TwiceSame(a: seq<Entry>, b: seq<Entry>, i: nat)
    requires StrictlySorted(a) && multiset(a) == multiset(b) && 0 < i < |b|
    ensures !SameKey(b[i - 1], b[i])
  {
    hide KeyLess;
    assert b == b[..i - 1] + [b[i - 1]] + [b[i]] + b[i + 1..];
    assert b[i - 1] in multiset(a) && b[i] in multiset(a);
    var p :| 0 <= p < |a| && a[p] == b[i - 1];
    var q :| 0 <= q < |a| && a[q] == b[i];
    if p < q {
      SortedApart(a, p, q);
      KeyOrder(a[p], a[q]);
    } else if q < p {
      SortedApart(a, q, p);
      KeyOrder(a[q], a[p]);
    } else {
      OnceOnly(a, p);
    }
  }

  /** A strictly sorted sequence repeats nothing. */
  lemma OnceOnly(a: seq<Entry>, p: nat)
    requires StrictlySorted(a) && p < |a|
    ensures multiset(a)[a[p]] == 1
  {
    hide KeyLess;
    forall k | 0 <= k < |a| && k != p
      ensures a[k] != a[p]
    {
      SortedApart(a, if k < p then k else p, if k < p then p else k);
      KeyOrder(a[k], a[p]);
    }
    assert a == a[..p] + [a[p]] + a[p + 1..];
    assert a[p] !in a[..p] && a[p] !in a[p + 1..];
  }
}
