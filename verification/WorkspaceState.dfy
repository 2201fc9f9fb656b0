/** Matrix blocks as tree payloads: the interleaved A/B state block, the i32 Q
    block, and the trees over all blocks of the matrices. */
module WorkspaceState {
  import opened Arithmetic
  import opened ByteStrings
  import opened MerkleTree
  import opened WorkspaceTree

  type Matrix = seq<seq<int>>

  predicate Rect(m: Matrix, rows: nat, columns: nat) {
    |m| == rows && forall r :: 0 <= r < rows ==> |m[r]| == columns
  }

  predicate WithinRow(row: seq<int>, lo: int, hi: int) {
    forall c :: 0 <= c < |row| ==> lo <= row[c] <= hi
  }

  predicate Within(m: Matrix, lo: int, hi: int) {
    forall r :: 0 <= r < |m| ==> WithinRow(m[r], lo, hi)
  }

  predicate Int8(m: Matrix) {
    Within(m, -128, 127)
  }

  predicate Int32(m: Matrix) {
    Within(m, -0x8000_0000, 0x7FFF_FFFF)
  }

  // --------------------------------------------------------------------- tags

  /** `_fixed_tag` */
  function FixedTag(tag: string): Bytes
    requires |tag| <= 32
  {
    Ascii(tag) + Zeros(32 - |tag|)
  }

  const STATE_KIND := Kind(
    FixedTag("VERATHOS_AB_STATE_BLOCK_V1"),
    FixedTag("VERATHOS_AB_STATE_LEAF_V1"),
    FixedTag("VERATHOS_AB_STATE_NODE_V1"))

  const Q_KIND := Kind(
    Ascii("VERATHOS_Q_BLOCK_V1"),
    Ascii("VERATHOS_Q_LEAF_V1"),
    Ascii("VERATHOS_Q_NODE_V1"))

  lemma KindsSeparated()
    ensures STATE_KIND.Separated() && Q_KIND.Separated()
    ensures |STATE_KIND.blockTag| == 32 && |STATE_KIND.leafTag| == 32 && |STATE_KIND.nodeTag| == 32
  {
    assert STATE_KIND.leafTag[18] == 'L' as int && STATE_KIND.nodeTag[18] == 'N' as int;
    assert Q_KIND.leafTag[11] == 'L' as int && Q_KIND.nodeTag[11] == 'N' as int;
  }

  // ------------------------------------------------------------- state blocks

  function RowBytes(row: seq<int>): (b: Bytes)
    ensures |b| == |row|
  {
    seq(|row|, c requires 0 <= c < |row| => U8(row[c]))
  }

  function BytesRow(b: Bytes): (row: seq<int>)
    ensures |row| == |b| && WithinRow(row, -128, 127)
  {
    seq(|b|, c requires 0 <= c < |b| => I8(b[c]))
  }

  /** `tobytes` of an array of bytes, row after row. */
  function PackRows(m: Matrix): Bytes {
    if |m| == 0 then [] else RowBytes(m[0]) + PackRows(m[1..])
  }

  /** `reshape`: the byte string cut into rows. */
  function CutRows(raw: Bytes, rows: nat, width: nat): (r: seq<Bytes>)
    requires |raw| == rows * width
    ensures |r| == rows && forall k :: 0 <= k < rows ==> |r[k]| == width
  {
    if rows == 0 then []
    else
      assert rows * width == width + (rows - 1) * width;
      MulOrder(0, rows - 1, width);
      [raw[..width]] + CutRows(raw[width..], rows - 1, width)
  }

  /** Rows of A at even, rows of B at odd positions. */
  function Alternate(a: Matrix, b: Matrix): (m: Matrix)
    requires |a| == |b|
    ensures |m| == 2 * |a|
  {
    seq(2 * |a|, k requires 0 <= k < 2 * |a| => if k % 2 == 0 then a[k / 2] else b[k / 2])
  }

  /** The packed state block. */
  function Interleave(a: Matrix, b: Matrix): Bytes
    requires |a| == |b|
  {
    PackRows(Alternate(a, b))
  }

  /** The even (parity 0) or odd (parity 1) rows of a packed block. */
  function Unpack(raw: Bytes, size: nat, width: nat, parity: nat): (m: Matrix)
    requires |raw| == 2 * size * width && parity < 2
    ensures Rect(m, size, width) && Int8(m)
  {
    var rows := CutRows(raw, 2 * size, width);
    seq(size, r requires 0 <= r < size => BytesRow(rows[2 * r + parity]))
  }

  lemma BytesRowOfRowBytes(row: seq<int>)
    requires WithinRow(row, -128, 127)
    ensures BytesRow(RowBytes(row)) == row
  {
  }

  lemma {:induction false} CutPacked(m: Matrix, width: nat)
    requires Rect(m, |m|, width)
    ensures |PackRows(m)| == |m| * width
    ensures forall k :: 0 <= k < |m| ==> CutRows(PackRows(m), |m|, width)[k] == RowBytes(m[k])
  {
    if |m| > 0 {
      CutPacked(m[1..], width);
      assert |m| * width == width + (|m| - 1) * width;
      assert PackRows(m)[width..] == PackRows(m[1..]);
      assert PackRows(m)[..width] == RowBytes(m[0]);
    }
  }

  /** The rows of a packed block are the rows of A and B in turn. */
  lemma CutInterleaved(a: Matrix, b: Matrix, size: nat, width: nat, r: nat)
    requires Rect(a, size, width) && Rect(b, size, width) && r < size
    ensures |Interleave(a, b)| == 2 * size * width
    ensures CutRows(Interleave(a, b), 2 * size, width)[2 * r] == RowBytes(a[r])
    ensures CutRows(Interleave(a, b), 2 * size, width)[2 * r + 1] == RowBytes(b[r])
  {
    hide CutRows, PackRows, RowBytes;
    var m := Alternate(a, b);
    CutPacked(m, width);
    assert m[2 * r] == a[r] && m[2 * r + 1] == b[r];
  }

  /** Unpacking undoes packing. */
  lemma UnpackInterleaved(a: Matrix, b: Matrix, size: nat, width: nat)
    requires Rect(a, size, width) && Rect(b, size, width) && Int8(a) && Int8(b)
    ensures |Interleave(a, b)| == 2 * size * width
    ensures Unpack(Interleave(a, b), size, width, 0) == a
    ensures Unpack(Interleave(a, b), size, width, 1) == b
  {
    CutPacked(Alternate(a, b), width);
    var rows := CutRows(Interleave(a, b), 2 * size, width);
    forall r | 0 <= r < size
      ensures BytesRow(rows[2 * r]) == a[r] && BytesRow(rows[2 * r + 1]) == b[r]
    {
      CutInterleaved(a, b, size, width, r);
      BytesRowOfRowBytes(a[r]);
      BytesRowOfRowBytes(b[r]);
    }
  }

  // ----------------------------------------------------------------- Q blocks

  function Word(v: int): Bytes
    requires FitsSigned(v, 4)
  {
    LittleEndian(Unsigned(v, 4), 4)
  }

  function RowWords(row: seq<int>): (b: Bytes)
    requires WithinRow(row, -0x8000_0000, 0x7FFF_FFFF)
    ensures |b| == 4 * |row|
  {
    Widths();
    if |row| == 0 then [] else Word(row[0]) + RowWords(row[1..])
  }

  function BlockWords(m: Matrix): Bytes
    requires Int32(m)
  {
    if |m| == 0 then [] else RowWords(m[0]) + BlockWords(m[1..])
  }

  lemma {:induction false} RowWordsInjective(r: seq<int>, s: seq<int>)
    requires WithinRow(r, -0x8000_0000, 0x7FFF_FFFF) && WithinRow(s, -0x8000_0000, 0x7FFF_FFFF)
    requires |r| == |s| && RowWords(r) == RowWords(s)
    ensures r == s
  {
    if |r| > 0 {
      Widths();
      CancelPrefix(Word(r[0]), RowWords(r[1..]), Word(s[0]), RowWords(s[1..]));
      LittleEndianRoundTrip(Unsigned(r[0], 4), 4);
      LittleEndianRoundTrip(Unsigned(s[0], 4), 4);
      RowWordsInjective(r[1..], s[1..]);
      assert r == [r[0]] + r[1..] && s == [s[0]] + s[1..];
    }
  }

  lemma {:induction false} BlockWordsInjective(m: Matrix, n: Matrix, columns: nat)
    requires Int32(m) && Int32(n) && |m| == |n|
    requires Rect(m, |m|, columns) && Rect(n, |n|, columns)
    requires BlockWords(m) == BlockWords(n)
    ensures m == n
  {
    if |m| > 0 {
      CancelPrefix(RowWords(m[0]), BlockWords(m[1..]), RowWords(n[0]), BlockWords(n[1..]));
      RowWordsInjective(m[0], n[0]);
      BlockWordsInjective(m[1..], n[1..], columns);
      assert m == [m[0]] + m[1..] && n == [n[0]] + n[1..];
    }
  }

  // ------------------------------------------------------------------- blocks

  /** A square matrix cut into per*per blocks of size*size. */
  datatype Grid = Grid(per: nat, size: nat) {
    function Dim(): nat {
      per * size
    }

    function Count(): nat {
      per * per
    }

    /** The index of block (i, j), row by row. */
    function At(i: nat, j: nat): nat {
      i * per + j
    }
  }

  lemma AtCoordinates(g: Grid, i: nat, j: nat)
    requires i < g.per && j < g.per
    ensures g.At(i, j) < g.Count()
    ensures g.At(i, j) / g.per == i && g.At(i, j) % g.per == j
  {
    MulOrder(i + 1, g.per, g.per);
    DivMod(i, j, g.per);
  }

  lemma Coordinates(g: Grid, k: nat)
    requires k < g.Count()
    ensures g.per > 0 && k / g.per < g.per && k % g.per < g.per
    ensures k == g.At(k / g.per, k % g.per)
  {
    DivBound(k, g.per, g.per);
  }

  lemma BlockFits(g: Grid, k: nat)
    requires k < g.per
    ensures k * g.size + g.size == (k + 1) * g.size <= g.Dim()
  {
    MulOrder(k + 1, g.per, g.size);
  }

  /** Rows i*size to (i+1)*size, columns j*size to (j+1)*size. */
  function SubBlock(m: Matrix, g: Grid, i: nat, j: nat): (b: Matrix)
    requires Rect(m, g.Dim(), g.Dim()) && i < g.per && j < g.per
    ensures Rect(b, g.size, g.size)
  {
    BlockFits(g, i);
    BlockFits(g, j);
    seq(g.size, r requires 0 <= r < g.size => m[i * g.size + r][j * g.size..(j + 1) * g.size])
  }

  lemma SubBlockWithin(m: Matrix, g: Grid, i: nat, j: nat, lo: int, hi: int)
    requires Rect(m, g.Dim(), g.Dim()) && i < g.per && j < g.per
    requires Within(m, lo, hi)
    ensures Within(SubBlock(m, g, i, j), lo, hi)
  {
    var b := SubBlock(m, g, i, j);
    BlockFits(g, i);
    BlockFits(g, j);
    forall r | 0 <= r < g.size
      ensures WithinRow(b[r], lo, hi)
    {
      assert WithinRow(m[i * g.size + r], lo, hi);
    }
  }

  predicate Squares(a: Matrix, b: Matrix, g: Grid) {
    Rect(a, g.Dim(), g.Dim()) && Rect(b, g.Dim(), g.Dim())
  }

  function StatePayload(a: Matrix, b: Matrix, g: Grid, i: nat, j: nat): Bytes
    requires Squares(a, b, g) && i < g.per && j < g.per
  {
    Interleave(SubBlock(a, g, i, j), SubBlock(b, g, i, j))
  }

  /** The payloads of `from_state_i8_matrices`, block by block in row order. */
  function StatePayloads(a: Matrix, b: Matrix, g: Grid): (p: seq<Bytes>)
    requires Squares(a, b, g)
    ensures |p| == g.Count()
  {
    seq(g.Count(), k requires 0 <= k < g.Count() =>
      Coordinates(g, k);
      StatePayload(a, b, g, k / g.per, k % g.per))
  }

  lemma StatePayloadAt(a: Matrix, b: Matrix, g: Grid, i: nat, j: nat)
    requires Squares(a, b, g) && i < g.per && j < g.per
    ensures g.At(i, j) < g.Count()
    ensures StatePayloads(a, b, g)[g.At(i, j)] == StatePayload(a, b, g, i, j)
  {
    AtCoordinates(g, i, j);
  }

  function QPayload(q: Matrix, g: Grid, i: nat, j: nat): Bytes
    requires Rect(q, g.Dim(), g.Dim()) && Int32(q) && i < g.per && j < g.per
  {
    SubBlockWithin(q, g, i, j, -0x8000_0000, 0x7FFF_FFFF);
    BlockWords(SubBlock(q, g, i, j))
  }

  /** The payloads of `from_matrix_i32`. */
  function QPayloads(q: Matrix, g: Grid): (p: seq<Bytes>)
    requires Rect(q, g.Dim(), g.Dim()) && Int32(q)
    ensures |p| == g.Count()
  {
    hide Within;
    seq(g.Count(), k requires 0 <= k < g.Count() =>
      Coordinates(g, k);
      QPayload(q, g, k / g.per, k % g.per))
  }

  lemma SomeBlock(g: Grid)
    requires g.per > 0
    ensures g.Count() > 0
  {
    MulOrder(1, g.per, g.per);
  }

  function StateRoot(h: HashFn, a: Matrix, b: Matrix, g: Grid): Bytes
    requires Squares(a, b, g) && g.per > 0
  {
    SomeBlock(g);
    Root(h, STATE_KIND.nodeTag, LeafHashes(h, STATE_KIND, StatePayloads(a, b, g)))
  }

  function QRoot(h: HashFn, q: Matrix, g: Grid): Bytes
    requires Rect(q, g.Dim(), g.Dim()) && Int32(q) && g.per > 0
  {
    SomeBlock(g);
    Root(h, Q_KIND.nodeTag, LeafHashes(h, Q_KIND, QPayloads(q, g)))
  }

  /** The grid of a matrix dimension that a block size divides. */
  function GridOf(n: nat, size: nat): (g: Grid)
    requires size > 0 && n % size == 0
    ensures g.Dim() == n && g.size == size
    ensures n > 0 ==> g.per > 0
  {
    assert n == n / size * size;
    Grid(n / size, size)
  }

  // -------------------------------------------------------------------- loops

  /** `from_state_i8_matrices`; null where it raises. */
  method FromStateMatrices(h: HashFn, a: Matrix, b: Matrix, size: nat) returns (t: Tree?)
    ensures t != null <==> |a| > 0 && Rect(a, |a|, |a|) && Rect(b, |a|, |a|) && size > 0 && |a| % size == 0
    ensures t != null ==> fresh(t) && t.Valid() && t.h == h && t.tag == STATE_KIND.nodeTag
    ensures t != null ==>
      t.nodes == Flat(h, STATE_KIND.nodeTag, LeafHashes(h, STATE_KIND, StatePayloads(a, b, GridOf(|a|, size))))
  {
    var n := |a|;
    if n == 0 || |b| != n {
      return null;
    }
    if (exists r :: 0 <= r < n && |a[r]| != n) || (exists r :: 0 <= r < n && |b[r]| != n) {
      return null;
    }
    if size == 0 || n % size != 0 {
      return null;
    }
    var g := GridOf(n, size);
    SomeBlock(g);
    var leaves := StateLeaves(h, a, b, g);
    t := new Tree(h, STATE_KIND.nodeTag, leaves);
  }

  /** The loop over the blocks of one block row. */
  method StateLeafRow(h: HashFn, a: Matrix, b: Matrix, g: Grid, i: nat) returns (row: seq<Bytes>)
    requires Squares(a, b, g) && i < g.per
    ensures |row| == g.per
    ensures forall j :: 0 <= j < g.per ==> row[j] == LeafHash(h, STATE_KIND, StatePayload(a, b, g, i, j))
  {
    row := [];
    for j := 0 to g.per
      invariant |row| == j
      invariant forall k :: 0 <= k < j ==> row[k] == LeafHash(h, STATE_KIND, StatePayload(a, b, g, i, k))
    {
      var aRows := SubBlock(a, g, i, j);
      var bRows := SubBlock(b, g, i, j);
      row := row + [LeafHash(h, STATE_KIND, Interleave(aRows, bRows))];
    }
  }

  /** One block row of leaf hashes in the list of all. */
  lemma RowOfLeaves(h: HashFn, a: Matrix, b: Matrix, g: Grid, i: nat, row: seq<Bytes>)
    requires Squares(a, b, g) && i < g.per && |row| == g.per
    requires forall j :: 0 <= j < g.per ==> row[j] == LeafHash(h, STATE_KIND, StatePayload(a, b, g, i, j))
    ensures g.At(i, 0) <= g.At(i + 1, 0) <= g.Count()
    ensures LeafHashes(h, STATE_KIND, StatePayloads(a, b, g))[g.At(i, 0)..g.At(i + 1, 0)] == row
  {
    hide StatePayload, LeafHash, Rect;
    MulOrder(i + 1, g.per, g.per);
    var expected := LeafHashes(h, STATE_KIND, StatePayloads(a, b, g));
    forall j | 0 <= j < g.per
      ensures g.At(i, 0) + j < |expected| && expected[g.At(i, 0) + j] == row[j]
    {
      StatePayloadAt(a, b, g, i, j);
    }
  }

  /** The loop over block rows. */
  method StateLeaves(h: HashFn, a: Matrix, b: Matrix, g: Grid) returns (leaves: seq<Bytes>)
    requires Squares(a, b, g)
    ensures leaves == LeafHashes(h, STATE_KIND, StatePayloads(a, b, g))
  {
    hide StatePayload, StatePayloads, LeafHash, LeafHashes, Interleave, SubBlock, Rect;
    ghost var expected := LeafHashes(h, STATE_KIND, StatePayloads(a, b, g));
    leaves := [];
    for i := 0 to g.per
      invariant g.At(i, 0) <= |expected|
      invariant leaves == expected[..g.At(i, 0)]
    {
      var row := StateLeafRow(h, a, b, g, i);
      RowOfLeaves(h, a, b, g, i, row);
      assert expected[..g.At(i + 1, 0)] == expected[..g.At(i, 0)] + expected[g.At(i, 0)..g.At(i + 1, 0)];
      leaves := leaves + row;
    }
    assert expected[..|expected|] == expected;
  }
}
