/** The labelled record encoding of a capacity statement, and the byte and
    mapping forms of its arithmetic payload. */
module CapacityEncoding {
  import opened Arithmetic
  import opened ByteStrings
  import Utf8
  import opened Wrappers

  // ------------------------------------------------------------------ records

  type Field = (Bytes, Bytes)

  /** What `struct.pack` and the label check let through. */
  predicate Recordable(f: Field) {
    0 < |f.0| < 0x1_0000_0000 && |f.1| < 0x1_0000_0000_0000_0000
  }

  predicate AllRecordable(fields: seq<Field>) {
    forall i :: 0 <= i < |fields| ==> Recordable(fields[i])
  }

  function FieldBytes(f: Field): (b: Bytes)
    ensures |b| == 12 + |f.0| + |f.1|
  {
    (LittleEndian(|f.0|, 4) + f.0) + (LittleEndian(|f.1|, 8) + f.1)
  }

  function Record(fields: seq<Field>): Bytes {
    if |fields| == 0 then [] else FieldBytes(fields[0]) + Record(fields[1..])
  }

  lemma RecordStep(encoded: Bytes, fields: seq<Field>, k: nat)
    requires k < |fields|
    ensures encoded + LittleEndian(|fields[k].0|, 4) + fields[k].0 + LittleEndian(|fields[k].1|, 8) + fields[k].1
            + Record(fields[k + 1..]) == encoded + Record(fields[k..])
  {
    var (name, value) := fields[k];
    var a, b := LittleEndian(|name|, 4), LittleEndian(|value|, 8);
    assert fields[k..][1..] == fields[k + 1..];
    assert encoded + a + name + b + value + Record(fields[k + 1..])
        == encoded + ((a + name) + (b + value) + Record(fields[k + 1..]));
  }

  /** `_record`; None where it raises. */
  method EncodeRecord(fields: seq<Field>) returns (r: Option<Bytes>)
    ensures r == if AllRecordable(fields) then Some(Record(fields)) else None
  {
    var encoded: Bytes := [];
    for k := 0 to |fields|
      invariant AllRecordable(fields[..k])
      invariant encoded + Record(fields[k..]) == Record(fields)
    {
      var (name, value) := fields[k];
      if !Recordable(fields[k]) {
        return None;
      }
      RecordStep(encoded, fields, k);
      assert fields[..k + 1] == fields[..k] + [fields[k]];
      encoded := encoded + LittleEndian(|name|, 4) + name + LittleEndian(|value|, 8) + value;
    }
    assert fields[..|fields|] == fields;
    assert encoded + Record([]) == encoded;
    r := Some(encoded);
  }

  lemma LittleEndianInjective(m: nat, n: nat, k: nat)
    requires m < Pow256(k) && n < Pow256(k)
    requires LittleEndian(m, k) == LittleEndian(n, k)
    ensures m == n
  {
    LittleEndianRoundTrip(m, k);
    LittleEndianRoundTrip(n, k);
  }

  lemma CancelLittle(a: Bytes, x: Bytes, b: Bytes, y: Bytes, k: nat)
    requires |a| < Pow256(k) && |b| < Pow256(k)
    requires LittleEndian(|a|, k) + a + x == LittleEndian(|b|, k) + b + y
    ensures a == b && x == y
  {
    if LittleEndian(|a|, k) == LittleEndian(|b|, k) {
      LittleEndianInjective(|a|, |b|, k);
    }
    CancelCounted(LittleEndian(|a|, k), a, x, LittleEndian(|b|, k), b, y);
  }

  lemma CancelField(f: Field, x: Bytes, g: Field, y: Bytes)
    requires Recordable(f) && Recordable(g)
    requires FieldBytes(f) + x == FieldBytes(g) + y
    ensures f == g && x == y
  {
    Widths();
    var f1, g1 := LittleEndian(|f.1|, 8) + f.1, LittleEndian(|g.1|, 8) + g.1;
    Associates(LittleEndian(|f.0|, 4) + f.0, f1, x);
    Associates(LittleEndian(|g.0|, 4) + g.0, g1, y);
    CancelLittle(f.0, f1 + x, g.0, g1 + y, 4);
    CancelLittle(f.1, x, g.1, y, 8);
  }

  /** Different field lists have different records, whatever their lengths. */
  lemma {:induction false} RecordInjective(fs: seq<Field>, gs: seq<Field>)
    requires AllRecordable(fs) && AllRecordable(gs)
    requires Record(fs) == Record(gs)
    ensures fs == gs
    decreases |fs|
  {
    if |fs| > 0 && |gs| > 0 {
      CancelField(fs[0], Record(fs[1..]), gs[0], Record(gs[1..]));
      RecordInjective(fs[1..], gs[1..]);
      assert fs == [fs[0]] + fs[1..] && gs == [gs[0]] + gs[1..];
    }
  }

  // ------------------------------------------------------------------ context

  const PROTOCOL_VERSION: nat := 2
  const FORMAT := "hot_capacity_gemm_pallas_v2"
  const MAX_MATRIX_DIM: nat := 0x2_0000
  const MAX_TEXT_BYTES: nat := 512

  const LABELS: seq<string> := [
    "protocol_version", "format", "workload_version", "lease_id",
    "gpu_index", "proof_seed", "challenge_seed", "transcript_root",
    "round_root", "workspace_seed", "pass_count", "rounds_per_pass",
    "pass_index", "round_index", "matrix_dim", "block_size",
    "row_block", "column_block", "memory_mix_rounds", "transition_mix_rounds",
    "transition_fanout", "state_root", "challenge_count", "challenge_ordinal"]

  predicate IdentifierStart(c: int) {
    'a' as int <= c <= 'z' as int || '0' as int <= c <= '9' as int
  }

  /** `[a-z0-9][a-z0-9_.-]{0,127}` */
  predicate Identifier(s: Utf8.Text) {
    && 1 <= |s| <= 128
    && IdentifierStart(s[0])
    && forall i :: 0 <= i < |s| ==> IdentifierStart(s[i]) || s[i] in {'_' as int, '.' as int, '-' as int}
  }

  /** `_text` */
  predicate BoundedText(s: Utf8.Text) {
    && |s| > 0
    && Utf8.Encode(s).Some?
    && |Utf8.Encode(s).value| <= MAX_TEXT_BYTES
  }

  predicate PowerOfTwo(n: nat)
  {
    n == 1 || (n > 1 && n % 2 == 0 && PowerOfTwo(n / 2))
  }

  lemma {:induction false} PowersOfTwo(n: nat)
    ensures PowerOfTwo(n) <==> exists k: nat :: n == Pow2(k)
    decreases n
  {
    if n == 1 {
      assert Pow2(0) == 1;
    } else if n > 1 {
      PowersOfTwo(n / 2);
      if n % 2 == 0 && PowerOfTwo(n / 2) {
        var k: nat :| n / 2 == Pow2(k);
        assert n == Pow2(k + 1);
      }
      if k: nat :| n == Pow2(k) {
        assert k > 0 && n / 2 == Pow2(k - 1);
      }
    }
  }

  datatype Context = Context(
    workloadVersion: Utf8.Text,
    leaseId: Utf8.Text,
    gpuIndex: nat,
    proofSeed: Bytes,
    challengeSeed: Bytes,
    transcriptRoot: Bytes,
    roundRoot: Bytes,
    workspaceSeed: nat,
    passCount: nat,
    roundsPerPass: nat,
    passIndex: nat,
    roundIndex: nat,
    matrixDim: nat,
    blockSize: nat,
    rowBlock: nat,
    columnBlock: nat,
    memoryMixRounds: nat,
    transitionMixRounds: nat,
    transitionFanout: nat,
    stateRoot: Bytes,
    challengeCount: nat,
    challengeOrdinal: nat)
  {
    predicate Dimensions() {
      && 2 <= matrixDim <= MAX_MATRIX_DIM
      && 2 <= blockSize <= matrixDim
      && PowerOfTwo(blockSize)
      && matrixDim % blockSize == 0
      && rowBlock < matrixDim / blockSize
      && columnBlock < matrixDim / blockSize
    }

    predicate Numbers() {
      && gpuIndex < 0x1_0000_0000
      && workspaceSeed < 0x1_0000_0000_0000_0000
      && passCount < 0x1_0000_0000 && roundsPerPass < 0x1_0000_0000
      && passIndex < 0x1_0000_0000 && roundIndex < 0x1_0000_0000
      && matrixDim < 0x1_0000_0000 && blockSize < 0x1_0000_0000
      && rowBlock < 0x1_0000_0000 && columnBlock < 0x1_0000_0000
      && memoryMixRounds < 0x1_0000_0000 && transitionMixRounds < 0x1_0000_0000
      && transitionFanout < 0x1_0000_0000
    }

    predicate Texts() {
      Utf8.Encode(workloadVersion).Some? && Utf8.Encode(leaseId).Some?
    }

    /** The checks of `__post_init__` that do not recompute derived indices. */
    predicate Valid() {
      && BoundedText(workloadVersion) && Identifier(workloadVersion)
      && BoundedText(leaseId)
      && gpuIndex < 0x1_0000_0000
      && |proofSeed| == |challengeSeed| == |transcriptRoot| == |roundRoot| == 32
      && workspaceSeed < 0x1_0000_0000_0000_0000
      && 1 <= passCount < 0x1_0000_0000 && 1 <= roundsPerPass < 0x1_0000_0000
      && passIndex < passCount && roundIndex < roundsPerPass
      && Dimensions()
      && memoryMixRounds < 0x1_0000 && transitionMixRounds < 0x1_0000
      && 1 <= transitionFanout < 0x1_0000
      && (memoryMixRounds == 0 || transitionMixRounds == 0)
      && (if transitionMixRounds != 0 then |stateRoot| == 32 else stateRoot == [])
      && (transitionMixRounds == 0 ==> transitionFanout == 1)
      && challengeCount == 1 && challengeOrdinal == 0
    }

    /** The value written for the state root: zeros stand for an absent one. */
    function StateRootField(): Bytes {
      if stateRoot == [] then Zeros(32) else stateRoot
    }

    /** The values, in the order of LABELS. */
    function CanonicalValues(): (v: seq<Bytes>)
      requires Texts()
      ensures |v| == |LABELS|
    {
      [ LittleEndian(PROTOCOL_VERSION, 2),
        Ascii(FORMAT),
        Utf8.Encode(workloadVersion).value,
        Utf8.Encode(leaseId).value,
        LittleEndian(gpuIndex, 4),
        proofSeed,
        challengeSeed,
        transcriptRoot,
        roundRoot,
        LittleEndian(workspaceSeed, 8),
        LittleEndian(passCount, 4),
        LittleEndian(roundsPerPass, 4),
        LittleEndian(passIndex, 4),
        LittleEndian(roundIndex, 4),
        LittleEndian(matrixDim, 4),
        LittleEndian(blockSize, 4),
        LittleEndian(rowBlock, 4),
        LittleEndian(columnBlock, 4),
        LittleEndian(memoryMixRounds, 4),
        LittleEndian(transitionMixRounds, 4),
        LittleEndian(transitionFanout, 4),
        StateRootField(),
        LittleEndian(challengeCount, 4),
        LittleEndian(challengeOrdinal, 4) ]
    }

    function CanonicalFields(): (f: seq<Field>)
      requires Texts()
      ensures |f| == |LABELS|
    {
      var values := CanonicalValues();
      seq(|LABELS|, i requires 0 <= i < |LABELS| => (Ascii(LABELS[i]), values[i]))
    }

    function CanonicalBytes(): Bytes
      requires Texts()
    {
      Record(CanonicalFields())
    }
  }

  function Codes(s: string): Utf8.Text
  {
    seq(|s|, i requires 0 <= i < |s| => s[i] as int)
  }

  lemma StartsAre(c: int)
    ensures IdentifierStart(c) <==> c in Codes("abcdefghijklmnopqrstuvwxyz0123456789")
  {
    var codes := Codes("abcdefghijklmnopqrstuvwxyz0123456789");
    assert forall i :: 0 <= i < 26 ==> codes[i] == 97 + i;
    assert forall i :: 26 <= i < 36 ==> codes[i] == 22 + i;
    if 97 <= c <= 122 {
      assert codes[c - 97] == c;
    } else if 48 <= c <= 57 {
      assert codes[c - 22] == c;
    }
  }

  /** An identifier has 1 to 128 characters of the lower-case letters, the digits and,
      after the first, the three separators. */
  lemma IdentifierExactly(s: Utf8.Text)
    ensures Identifier(s) <==>
            && 1 <= |s| <= 128 && s[0] in Codes("abcdefghijklmnopqrstuvwxyz0123456789")
            && forall i :: 0 <= i < |s| ==> s[i] in Codes("abcdefghijklmnopqrstuvwxyz0123456789") || s[i] in [95, 46, 45]
  {
    forall i | 0 <= i < |s|
      ensures IdentifierStart(s[i]) <==> s[i] in Codes("abcdefghijklmnopqrstuvwxyz0123456789")
    {
      StartsAre(s[i]);
    }
    hide Codes, IdentifierStart;
  }

  lemma {:induction false} AsciiLength(s: Utf8.Text)
    requires forall i :: 0 <= i < |s| ==> s[i] < 0x80
    ensures Utf8.Encode(s).Some? && |Utf8.Encode(s).value| == |s|
    decreases |s|
  {
    if |s| > 0 {
      AsciiLength(s[1..]);
    }
  }

  lemma IdentifierBounded(s: Utf8.Text)
    requires Identifier(s)
    ensures BoundedText(s)
  {
    forall i | 0 <= i < |s|
      ensures s[i] < 0x80
    {
      assert IdentifierStart(s[i]) || s[i] in {'_' as int, '.' as int, '-' as int};
    }
    AsciiLength(s);
  }

  /** Blocks of a power of two, n of them in a row, and both coordinates among them. */
  ghost predicate TiledBy(c: Context, k: nat, n: nat) {
    k >= 1 && c.blockSize == Pow2(k) && c.matrixDim == n * c.blockSize && c.rowBlock < n && c.columnBlock < n
  }

  lemma DimensionsExactly(c: Context)
    ensures c.Dimensions() <==> 2 <= c.matrixDim <= 0x2_0000 && exists k, n :: TiledBy(c, k, n)
  {
    hide Context.Dimensions, TiledBy;
    if 2 <= c.matrixDim <= 0x2_0000 {
      if k: nat, n: nat :| TiledBy(c, k, n) {
        TiledFits(c, k, n);
      }
    }
    if c.Dimensions() {
      var k := FitsTiled(c);
      assert TiledBy(c, k, c.matrixDim / c.blockSize);
    }
  }

  lemma FitsTiled(c: Context) returns (k: nat)
    requires c.Dimensions()
    ensures 2 <= c.matrixDim <= 0x2_0000 && c.blockSize > 0 && TiledBy(c, k, c.matrixDim / c.blockSize)
  {
    PowersOfTwo(c.blockSize);
    k :| c.blockSize == Pow2(k);
    assert Pow2(0) == 1;
  }

  lemma TiledFits(c: Context, k: nat, n: nat)
    requires TiledBy(c, k, n) && 2 <= c.matrixDim <= 0x2_0000
    ensures c.Dimensions()
  {
    assert c.blockSize == Pow2(k) == 2 * Pow2(k - 1);
    assert PowerOfTwo(c.blockSize) by {
      PowersOfTwo(c.blockSize);
      hide PowerOfTwo;
    }
    DivMod(n, 0, c.blockSize);
    MulOrder(1, n, c.blockSize);
  }

  /** The contexts the constructor admits, derived indices aside. */
  lemma ContextExactly(c: Context)
    ensures c.Valid() <==>
            && Identifier(c.workloadVersion)
            && 0 < |c.leaseId| && Utf8.Encode(c.leaseId).Some? && |Utf8.Encode(c.leaseId).value| <= 512
            && c.gpuIndex <= 0xFFFF_FFFF && c.workspaceSeed <= 0xFFFF_FFFF_FFFF_FFFF
            && |c.proofSeed| == 32 && |c.challengeSeed| == 32 && |c.transcriptRoot| == 32 && |c.roundRoot| == 32
            && c.passIndex < c.passCount <= 0xFFFF_FFFF && c.roundIndex < c.roundsPerPass <= 0xFFFF_FFFF
            && 2 <= c.matrixDim <= 0x2_0000 && (exists k, n :: TiledBy(c, k, n))
            && (|| (c.transitionMixRounds == 0 && c.memoryMixRounds <= 0xFFFF && c.transitionFanout == 1 && |c.stateRoot| == 0)
                || (1 <= c.transitionMixRounds <= 0xFFFF && c.memoryMixRounds == 0
                    && 1 <= c.transitionFanout <= 0xFFFF && |c.stateRoot| == 32))
            && c.challengeCount == 1 && c.challengeOrdinal == 0
  {
    DimensionsExactly(c);
    if Identifier(c.workloadVersion) {
      IdentifierBounded(c.workloadVersion);
    }
    hide Context.Dimensions, TiledBy, Identifier;
  }

  lemma ValidFits(c: Context)
    requires c.Valid()
    ensures c.Texts() && c.Numbers()
  {
    var per := c.matrixDim / c.blockSize;
    assert per <= c.matrixDim;
  }

  lemma LabelsShort()
    ensures forall i :: 0 <= i < |LABELS| ==> 0 < |LABELS[i]| <= 32
  {
  }

  lemma ValuesShort(c: Context)
    requires c.Valid()
    ensures c.Texts() && forall i :: 0 <= i < |LABELS| ==> |c.CanonicalValues()[i]| <= 512
  {
  }

  lemma CanonicalRecordable(c: Context)
    requires c.Valid()
    ensures c.Texts() && AllRecordable(c.CanonicalFields())
  {
    LabelsShort();
    ValuesShort(c);
  }

  lemma SameValues(c: Context, d: Context)
    requires c.Texts() && d.Texts()
    requires c.CanonicalFields() == d.CanonicalFields()
    ensures c.CanonicalValues() == d.CanonicalValues()
  {
    var f, g := c.CanonicalFields(), d.CanonicalFields();
    forall i | 0 <= i < |LABELS|
      ensures c.CanonicalValues()[i] == d.CanonicalValues()[i]
    {
      assert f[i].1 == g[i].1;
    }
  }

  /** A 4-byte field determines its number. */
  lemma SameNumber(m: nat, n: nat)
    requires m < 0x1_0000_0000 && n < 0x1_0000_0000
    requires LittleEndian(m, 4) == LittleEndian(n, 4)
    ensures m == n
  {
    Widths();
    LittleEndianInjective(m, n, 4);
  }

  lemma SameTexts(c: Context, d: Context)
    requires c.Texts() && d.Texts() && c.Numbers() && d.Numbers()
    requires c.CanonicalValues() == d.CanonicalValues()
    ensures c.workloadVersion == d.workloadVersion && c.leaseId == d.leaseId
    ensures c.proofSeed == d.proofSeed && c.challengeSeed == d.challengeSeed
    ensures c.transcriptRoot == d.transcriptRoot && c.roundRoot == d.roundRoot
    ensures c.StateRootField() == d.StateRootField()
    ensures c.workspaceSeed == d.workspaceSeed
  {
    var v, w := c.CanonicalValues(), d.CanonicalValues();
    assert v[2] == w[2] && v[3] == w[3];
    Utf8.EncodeInjective(c.workloadVersion, d.workloadVersion);
    Utf8.EncodeInjective(c.leaseId, d.leaseId);
    assert v[5] == w[5] && v[6] == w[6] && v[7] == w[7] && v[8] == w[8];
    assert v[21] == w[21];
    assert v[9] == w[9];
    Widths();
    LittleEndianInjective(c.workspaceSeed, d.workspaceSeed, 8);
  }

  lemma SamePosition(c: Context, d: Context)
    requires c.Texts() && d.Texts() && c.Numbers() && d.Numbers()
    requires c.CanonicalValues() == d.CanonicalValues()
    ensures c.gpuIndex == d.gpuIndex
    ensures c.passCount == d.passCount
    ensures c.roundsPerPass == d.roundsPerPass
    ensures c.passIndex == d.passIndex
    ensures c.roundIndex == d.roundIndex
  {
    var v, w := c.CanonicalValues(), d.CanonicalValues();
    assert v[4] == w[4] && v[10] == w[10] && v[11] == w[11] && v[12] == w[12] && v[13] == w[13];
    SameNumber(c.gpuIndex, d.gpuIndex);
    SameNumber(c.passCount, d.passCount);
    SameNumber(c.roundsPerPass, d.roundsPerPass);
    SameNumber(c.passIndex, d.passIndex);
    SameNumber(c.roundIndex, d.roundIndex);
  }

  lemma SameDimensions(c: Context, d: Context)
    requires c.Texts() && d.Texts() && c.Numbers() && d.Numbers()
    requires c.CanonicalValues() == d.CanonicalValues()
    ensures c.matrixDim == d.matrixDim
    ensures c.blockSize == d.blockSize
    ensures c.rowBlock == d.rowBlock
    ensures c.columnBlock == d.columnBlock
  {
    var v, w := c.CanonicalValues(), d.CanonicalValues();
    assert v[14] == w[14] && v[15] == w[15] && v[16] == w[16] && v[17] == w[17];
    SameNumber(c.matrixDim, d.matrixDim);
    SameNumber(c.blockSize, d.blockSize);
    SameNumber(c.rowBlock, d.rowBlock);
    SameNumber(c.columnBlock, d.columnBlock);
  }

  lemma SameMixing(c: Context, d: Context)
    requires c.Texts() && d.Texts() && c.Numbers() && d.Numbers()
    requires c.CanonicalValues() == d.CanonicalValues()
    ensures c.memoryMixRounds == d.memoryMixRounds
    ensures c.transitionMixRounds == d.transitionMixRounds
    ensures c.transitionFanout == d.transitionFanout
  {
    var v, w := c.CanonicalValues(), d.CanonicalValues();
    assert v[18] == w[18] && v[19] == w[19] && v[20] == w[20];
    SameNumber(c.memoryMixRounds, d.memoryMixRounds);
    SameNumber(c.transitionMixRounds, d.transitionMixRounds);
    SameNumber(c.transitionFanout, d.transitionFanout);
  }

  /** Valid contexts with equal canonical bytes are equal, although an absent
      state root and a root of 32 zero bytes are written alike. */
  lemma CanonicalBytesInjective(c: Context, d: Context)
    requires c.Valid() && d.Valid()
    requires c.CanonicalBytes() == d.CanonicalBytes()
    ensures c == d
  {
    ValidFits(c);
    ValidFits(d);
    CanonicalRecordable(c);
    CanonicalRecordable(d);
    RecordInjective(c.CanonicalFields(), d.CanonicalFields());
    SameValues(c, d);
    SameTexts(c, d);
    SamePosition(c, d);
    SameDimensions(c, d);
    SameMixing(c, d);
  }

  // ------------------------------------------------------------------ payload

  const MAGIC := "HCG2"
  const HEADER_SIZE: nat := 44
  const MAX_PROOF_BYTES: nat := 0x4000

  datatype Payload = Payload(statementDigest: Bytes, arithmeticProof: Bytes) {
    predicate Valid() {
      |statementDigest| == 32 && 0 < |arithmeticProof| <= MAX_PROOF_BYTES
    }

    function CanonicalBytes(): Bytes {
      Ascii(MAGIC) + LittleEndian(PROTOCOL_VERSION, 2) + LittleEndian(0, 2)
      + statementDigest + LittleEndian(|arithmeticProof|, 4) + arithmeticProof
    }

    function ToMapping(): map<string, Value> {
      map["format" := Str(FORMAT), "protocol_version" := Int(PROTOCOL_VERSION), "payload" := Str(Hex(CanonicalBytes()))]
    }
  }

  datatype PayloadError =
    | Truncated | BadMagic | BadVersion | BadFlags | BadProofLength | BadLength
    | BadFields | BadFormat | BadHex

  datatype PayloadResult = Ok(payload: Payload) | Err(error: PayloadError)

  function FromCanonicalBytes(b: Bytes): PayloadResult {
    if |b| < HEADER_SIZE then Err(Truncated)
    else if b[0..4] != Ascii(MAGIC) then Err(BadMagic)
    else if FromLittleEndian(b[4..6]) != PROTOCOL_VERSION then Err(BadVersion)
    else if FromLittleEndian(b[6..8]) != 0 then Err(BadFlags)
    else
      var n := FromLittleEndian(b[40..44]);
      if n == 0 || n > MAX_PROOF_BYTES then Err(BadProofLength)
      else if |b| != HEADER_SIZE + n then Err(BadLength)
      else Ok(Payload(b[8..40], b[HEADER_SIZE..]))
  }

  lemma PayloadParses(p: Payload)
    requires p.Valid()
    ensures FromCanonicalBytes(p.CanonicalBytes()) == Ok(p)
  {
    var b, n := p.CanonicalBytes(), |p.arithmeticProof|;
    Widths();
    assert b[0..4] == Ascii(MAGIC);
    assert b[4..6] == LittleEndian(PROTOCOL_VERSION, 2);
    assert b[6..8] == LittleEndian(0, 2);
    assert b[8..40] == p.statementDigest;
    assert b[40..44] == LittleEndian(n, 4);
    assert b[44..] == p.arithmeticProof;
    LittleEndianRoundTrip(PROTOCOL_VERSION, 2);
    LittleEndianRoundTrip(0, 2);
    LittleEndianRoundTrip(n, 4);
  }

  lemma PayloadPrints(b: Bytes)
    requires FromCanonicalBytes(b).Ok?
    ensures FromCanonicalBytes(b).payload.Valid()
    ensures FromCanonicalBytes(b).payload.CanonicalBytes() == b
  {
    var p := FromCanonicalBytes(b).payload;
    FromLittleEndianRoundTrip(b[4..6]);
    FromLittleEndianRoundTrip(b[6..8]);
    FromLittleEndianRoundTrip(b[40..44]);
    assert b == b[0..4] + b[4..6] + b[6..8] + b[8..40] + b[40..44] + b[44..];
  }

  /** Byte form: parser and printer undo each other, so exactly the canonical
      encodings are accepted. */
  lemma PayloadBytesExact(b: Bytes, p: Payload)
    ensures FromCanonicalBytes(b) == Ok(p) <==> p.Valid() && b == p.CanonicalBytes()
  {
    if p.Valid() && b == p.CanonicalBytes() {
      PayloadParses(p);
    }
    if FromCanonicalBytes(b) == Ok(p) {
      PayloadPrints(b);
    }
  }

  // ---------------------------------------------------------------------- hex

  function HexDigit(n: nat): char
    requires n < 16
  {
    if n < 10 then ('0' as int + n) as char else ('a' as int + n - 10) as char
  }

  function HexValue(c: char): Option<nat> {
    if '0' <= c <= '9' then Some(c as int - '0' as int)
    else if 'a' <= c <= 'f' then Some(c as int - 'a' as int + 10)
    else if 'A' <= c <= 'F' then Some(c as int - 'A' as int + 10)
    else None
  }

  predicate IsSpace(c: char) {
    c == ' ' || '\t' <= c <= '\r'
  }

  function Hex(b: Bytes): (s: string)
    ensures |s| == 2 * |b|
  {
    if |b| == 0 then [] else [HexDigit(b[0] / 16), HexDigit(b[0] % 16)] + Hex(b[1..])
  }

  /** `bytes.fromhex`, which also takes capitals and skips white space between
      bytes. */
  function FromHex(s: string): (r: Option<Bytes>)
  {
    if |s| == 0 then Some([])
    else if IsSpace(s[0]) then FromHex(s[1..])
    else if |s| < 2 || HexValue(s[0]).None? || HexValue(s[1]).None? then None
    else
      var head: int := HexValue(s[0]).value * 16 + HexValue(s[1]).value;
      match FromHex(s[2..])
      case None => None
      case Some(rest) => if head < 256 then Some([head] + rest) else None
  }

  lemma FromHexPair(n: byte, rest: string, b: Bytes)
    requires FromHex(rest) == Some(b)
    ensures FromHex([HexDigit(n / 16), HexDigit(n % 16)] + rest) == Some([n] + b)
  {
    var s := [HexDigit(n / 16), HexDigit(n % 16)] + rest;
    assert s[2..] == rest;
  }

  lemma {:induction false} HexRoundTrip(b: Bytes)
    ensures FromHex(Hex(b)) == Some(b)
  {
    if |b| > 0 {
      HexRoundTrip(b[1..]);
      FromHexPair(b[0], Hex(b[1..]), b[1..]);
      assert b == [b[0]] + b[1..];
    }
  }

  // ------------------------------------------------------------------ mapping

  /** A value of the decoded JSON mapping. */
  datatype Value = Str(text: string) | Int(number: int) | Float(value: real) | Bool(flag: bool) | Other

  /** `version == 2` for a value that is not a Boolean. */
  predicate EqualsVersion(v: Value) {
    v == Int(PROTOCOL_VERSION) || v == Float(PROTOCOL_VERSION as real)
  }

  function FromMapping(m: map<string, Value>): PayloadResult {
    if m.Keys != {"format", "protocol_version", "payload"} then Err(BadFields)
    else if m["format"] != Str(FORMAT) then Err(BadFormat)
    else if !EqualsVersion(m["protocol_version"]) then Err(BadVersion)
    else if !m["payload"].Str? || m["payload"].text == "" then Err(BadHex)
    else
      var text := m["payload"].text;
      if "0x" <= text || |text| % 2 != 0 then Err(BadHex)
      else match FromHex(text)
        case None => Err(BadHex)
        case Some(encoded) => if text != Hex(encoded) then Err(BadHex) else FromCanonicalBytes(encoded)
  }

  /** A mapping printed from p, its version of any number type. */
  predicate Printed(m: map<string, Value>, p: Payload) {
    && m.Keys == {"format", "protocol_version", "payload"}
    && m["format"] == Str(FORMAT)
    && (m["protocol_version"] == Int(2) || m["protocol_version"] == Float(2.0))
    && m["payload"] == Str(Hex(p.CanonicalBytes()))
  }

  lemma PrintedParses(m: map<string, Value>, p: Payload)
    requires p.Valid() && Printed(m, p)
    ensures FromMapping(m) == Ok(p)
  {
    hide FromCanonicalBytes;
    var b := p.CanonicalBytes();
    HexRoundTrip(b);
    PayloadParses(p);
    assert b[0] == 'H' as int;
    assert Hex(b)[1] == HexDigit(8);
  }

  /** Exactly the printed mappings are accepted, up to the number type of the
      version. */
  lemma MappingExact(m: map<string, Value>, p: Payload)
    ensures FromMapping(m) == Ok(p) <==> (p.Valid() && Printed(m, p))
  {
    if p.Valid() && Printed(m, p) {
      PrintedParses(m, p);
    }
    if FromMapping(m) == Ok(p) {
      PayloadPrints(FromHex(m["payload"].text).value);
    }
  }

  /** So a mapping is the printed one just when its version is an integer. */
  lemma MappingCanonicalIffInteger(m: map<string, Value>, p: Payload)
    requires FromMapping(m) == Ok(p)
    ensures m == p.ToMapping() <==> m["protocol_version"].Int?
  {
    MappingExact(m, p);
    var canonical := p.ToMapping();
    if m["protocol_version"].Int? {
      assert m["protocol_version"] == canonical["protocol_version"];
    }
  }

  /** The float 2.0 passes the version check. */
  lemma FloatVersionAccepted(p: Payload)
    requires p.Valid()
    ensures var m := p.ToMapping()["protocol_version" := Float(2.0)];
            FromMapping(m) == Ok(p) && m != p.ToMapping()
  {
    var m := p.ToMapping()["protocol_version" := Float(2.0)];
    MappingExact(m, p);
    assert m["protocol_version"] != p.ToMapping()["protocol_version"];
  }
}
