/** Reassembly of the challenged row band of A and column band of B from opened
    state blocks, and the opening of the challenged Q block. */
module TransitionBands {
  import opened ByteStrings
  import opened MerkleTree
  import opened Sorting
  import opened Wrappers
  import opened WorkspaceState
  import opened CapacityEncoding

  // ---------------------------------------------------------- required blocks

  ghost predicate Ascending(s: seq<nat>) {
    forall i, j :: 0 <= i < j < |s| ==> s[i] < s[j]
  }

  /** `sorted` of a set of indices. */
  ghost function Sorted(s: set<nat>): (q: seq<nat>)
    ensures |q| == |s| && Ascending(q)
    ensures forall x :: x in q <==> x in s
    decreases |s|
  {
    if s == {} then []
    else
      assert exists m :: IsLeast(m, s) by { var m := LeastExists(s); }
      var m :| IsLeast(m, s);
      var rest := Sorted(s - {m});
      assert forall i :: 0 <= i < |rest| ==> rest[i] in rest;
      [m] + rest
  }

  /** The blocks of block row i. */
  function RowBlocks(g: Grid, i: nat): set<nat> {
    set j | 0 <= j < g.per :: g.At(i, j)
  }

  /** The blocks of block column j. */
  function ColumnBlocks(g: Grid, j: nat): set<nat> {
    set i | 0 <= i < g.per :: g.At(i, j)
  }

  ghost function RequiredBlocks(g: Grid, row: nat, column: nat): seq<nat> {
    Sorted(RowBlocks(g, row) + ColumnBlocks(g, column))
  }

  lemma {:induction false} RowBlockCount(g: Grid, i: nat, n: nat)
    requires i < g.per && n <= g.per
    ensures |set j | 0 <= j < n :: g.At(i, j)| == n
  {
    if n > 0 {
      RowBlockCount(g, i, n - 1);
      var before := set j | 0 <= j < n - 1 :: g.At(i, j);
      assert (set j | 0 <= j < n :: g.At(i, j)) == before + {g.At(i, n - 1)};
    }
  }

  lemma {:induction false} ColumnBlockCount(g: Grid, j: nat, n: nat)
    requires j < g.per && n <= g.per
    ensures |set i | 0 <= i < n :: g.At(i, j)| == n
  {
    if n > 0 {
      ColumnBlockCount(g, j, n - 1);
      var before := set i | 0 <= i < n - 1 :: g.At(i, j);
      AtCoordinates(g, n - 1, j);
      forall i | 0 <= i < n - 1
        ensures g.At(i, j) != g.At(n - 1, j)
      {
        AtCoordinates(g, i, j);
      }
      assert (set i | 0 <= i < n :: g.At(i, j)) == before + {g.At(n - 1, j)};
    }
  }

  lemma RequiredAt(g: Grid, row: nat, column: nat, i: nat, j: nat)
    requires row < g.per && column < g.per && i < g.per && j < g.per
    ensures g.At(i, j) in RowBlocks(g, row) <==> i == row
    ensures g.At(i, j) in ColumnBlocks(g, column) <==> j == column
    ensures g.At(i, j) in RequiredBlocks(g, row, column) <==> (i == row || j == column)
  {
    AtCoordinates(g, i, j);
    if g.At(i, j) in RowBlocks(g, row) {
      var c :| 0 <= c < g.per && g.At(row, c) == g.At(i, j);
      AtCoordinates(g, row, c);
    }
    if g.At(i, j) in ColumnBlocks(g, column) {
      var r :| 0 <= r < g.per && g.At(r, column) == g.At(i, j);
      AtCoordinates(g, r, column);
    }
  }

  lemma RequiredInRange(g: Grid, row: nat, column: nat)
    requires row < g.per && column < g.per
    ensures forall k :: k in RequiredBlocks(g, row, column) ==> k < g.Count()
  {
    forall k | k in RequiredBlocks(g, row, column)
      ensures k < g.Count()
    {
      if k in RowBlocks(g, row) {
        var c :| 0 <= c < g.per && g.At(row, c) == k;
        AtCoordinates(g, row, c);
      } else {
        var r :| 0 <= r < g.per && g.At(r, column) == k;
        AtCoordinates(g, r, column);
      }
    }
  }

  lemma RequiredByIndex(g: Grid, row: nat, column: nat, k: nat)
    requires row < g.per && column < g.per && k < g.Count()
    ensures k in RequiredBlocks(g, row, column) <==> (k / g.per == row || k % g.per == column)
  {
    Coordinates(g, k);
    var i, j := k / g.per, k % g.per;
    assert k == g.At(i, j);
    RequiredAt(g, row, column, i, j);
  }

  lemma CrossPoint(g: Grid, row: nat, column: nat)
    requires row < g.per && column < g.per
    ensures RowBlocks(g, row) * ColumnBlocks(g, column) == {g.At(row, column)}
  {
    forall k | k in RowBlocks(g, row) && k in ColumnBlocks(g, column)
      ensures k == g.At(row, column)
    {
      var j :| 0 <= j < g.per && g.At(row, j) == k;
      RequiredAt(g, row, column, row, j);
    }
    assert g.At(row, column) in RowBlocks(g, row) && g.At(row, column) in ColumnBlocks(g, column);
  }

  lemma RequiredCount(g: Grid, row: nat, column: nat)
    requires row < g.per && column < g.per
    ensures |RequiredBlocks(g, row, column)| == 2 * g.per - 1
  {
    var rows, columns := RowBlocks(g, row), ColumnBlocks(g, column);
    RowBlockCount(g, row, g.per);
    ColumnBlockCount(g, column, g.per);
    CrossPoint(g, row, column);
    assert |rows + columns| == |rows| + |columns| - |rows * columns|;
  }

  /** The opened set is the cross of a block row and a block column. */
  lemma RequiredExactly(g: Grid, row: nat, column: nat)
    requires row < g.per && column < g.per
    ensures |RequiredBlocks(g, row, column)| == 2 * g.per - 1
    ensures Ascending(RequiredBlocks(g, row, column))
    ensures forall k: nat :: k in RequiredBlocks(g, row, column)
              <==> (k < g.Count() && (k / g.per == row || k % g.per == column))
  {
    RequiredCount(g, row, column);
    RequiredInRange(g, row, column);
    forall k: nat | k < g.Count()
      ensures k in RequiredBlocks(g, row, column) <==> (k / g.per == row || k % g.per == column)
    {
      RequiredByIndex(g, row, column, k);
    }
  }

  // ----------------------------------------------------------------- openings

  /** One opened block: its index, the decoded packed bytes and its path. */
  datatype Opening = Opening(blockIndex: int, packed: Bytes, path: PathData)

  datatype BandsError = WrongBlockSet | WrongBlockLength | BadPath(error: PathError) | PathRejected

  datatype BandsResult = Bands(x: Matrix, w: Matrix) | Failed(error: BandsError)

  predicate Sized(g: Grid, o: Opening) {
    |o.packed| == 2 * g.size * g.size
  }

  /** The A and the B block of an opening. */
  function BlocksOf(g: Grid, o: Opening): (ab: (Matrix, Matrix))
    requires Sized(g, o)
    ensures Rect(ab.0, g.size, g.size) && Rect(ab.1, g.size, g.size) && Int8(ab.0) && Int8(ab.1)
  {
    (Unpack(o.packed, g.size, g.size, 0), Unpack(o.packed, g.size, g.size, 1))
  }

  /** The bytes an opening is hashed from. */
  function OpenedPayload(g: Grid, o: Opening): Bytes
    requires Sized(g, o)
  {
    Interleave(BlocksOf(g, o).0, BlocksOf(g, o).1)
  }

  /** The checks on one opening, in order. */
  function OpeningError(h: HashFn, g: Grid, root: Bytes, o: Opening, expected: nat): Option<BandsError> {
    if o.blockIndex != expected then Some(WrongBlockSet)
    else if !Sized(g, o) then Some(WrongBlockLength)
    else match StrictPath(o.path, expected, g.Count())
      case PathErr(e) => Some(BadPath(e))
      case PathOk(path) =>
        if Fold(h, STATE_KIND.nodeTag, LeafHash(h, STATE_KIND, OpenedPayload(g, o)), path) != root
        then Some(PathRejected)
        else None
  }

  function FirstError(h: HashFn, g: Grid, root: Bytes, openings: seq<Opening>, indices: seq<nat>): Option<BandsError>
    requires |openings| == |indices|
    decreases |openings|
  {
    if |openings| == 0 then None
    else match OpeningError(h, g, root, openings[0], indices[0])
      case Some(e) => Some(e)
      case None => FirstError(h, g, root, openings[1..], indices[1..])
  }

  ghost predicate AllPass(h: HashFn, g: Grid, root: Bytes, openings: seq<Opening>, indices: seq<nat>)
    requires |openings| == |indices|
  {
    forall k :: 0 <= k < |openings| ==> OpeningError(h, g, root, openings[k], indices[k]).None?
  }

  lemma {:induction false} FirstErrorNone(h: HashFn, g: Grid, root: Bytes, openings: seq<Opening>, indices: seq<nat>)
    requires |openings| == |indices|
    ensures FirstError(h, g, root, openings, indices).None? <==> AllPass(h, g, root, openings, indices)
    decreases |openings|
  {
    if |openings| > 0 {
      var restO, restI := openings[1..], indices[1..];
      FirstErrorNone(h, g, root, restO, restI);
      if AllPass(h, g, root, openings, indices) {
        forall k | 0 <= k < |restO|
          ensures OpeningError(h, g, root, restO[k], restI[k]).None?
        {
          assert OpeningError(h, g, root, openings[k + 1], indices[k + 1]).None?;
        }
      } else if OpeningError(h, g, root, openings[0], indices[0]).None? {
        var k :| 0 <= k < |openings| && OpeningError(h, g, root, openings[k], indices[k]).Some?;
        assert restO[k - 1] == openings[k] && restI[k - 1] == indices[k];
      }
    }
  }

  /** The unpacked blocks by block index. */
  type Blocks = map<nat, (Matrix, Matrix)>

  function BlocksUpTo(g: Grid, openings: seq<Opening>, indices: seq<nat>, k: nat): Blocks
    requires k <= |openings| == |indices|
    requires forall j :: 0 <= j < k ==> Sized(g, openings[j])
  {
    if k == 0 then map[]
    else BlocksUpTo(g, openings, indices, k - 1)[indices[k - 1] := BlocksOf(g, openings[k - 1])]
  }

  lemma {:induction false} BlocksAt(g: Grid, openings: seq<Opening>, indices: seq<nat>, k: nat)
    requires k <= |openings| == |indices| && Ascending(indices)
    requires forall j :: 0 <= j < k ==> Sized(g, openings[j])
    ensures forall x :: x in BlocksUpTo(g, openings, indices, k) <==> x in indices[..k]
    ensures forall j :: 0 <= j < k ==> indices[j] in BlocksUpTo(g, openings, indices, k)
    ensures forall j :: 0 <= j < k ==> BlocksUpTo(g, openings, indices, k)[indices[j]] == BlocksOf(g, openings[j])
  {
    if k > 0 {
      BlocksAt(g, openings, indices, k - 1);
      assert indices[..k] == indices[..k - 1] + [indices[k - 1]];
    }
  }

  // ----------------------------------------------------------------- assembly

  predicate ShapedAt(g: Grid, blocks: Blocks, k: nat) {
    k in blocks && Rect(blocks[k].0, g.size, g.size) && Rect(blocks[k].1, g.size, g.size)
  }

  /** Every block of the cross is present and has its shape. */
  ghost predicate Complete(g: Grid, row: nat, column: nat, blocks: Blocks) {
    forall k :: 0 <= k < g.per ==> ShapedAt(g, blocks, g.At(row, k)) && ShapedAt(g, blocks, g.At(k, column))
  }

  /** Row r of the row band after the first k block columns. */
  function XRow(g: Grid, row: nat, blocks: Blocks, r: nat, k: nat): (x: seq<int>)
    requires r < g.size && k <= g.per
    requires forall j :: 0 <= j < k ==> ShapedAt(g, blocks, g.At(row, j))
    ensures |x| == k * g.size
  {
    if k == 0 then []
    else
      assert ShapedAt(g, blocks, g.At(row, k - 1));
      assert k * g.size == (k - 1) * g.size + g.size;
      XRow(g, row, blocks, r, k - 1) + blocks[g.At(row, k - 1)].0[r]
  }

  function XBand(g: Grid, row: nat, blocks: Blocks): (x: Matrix)
    requires forall j :: 0 <= j < g.per ==> ShapedAt(g, blocks, g.At(row, j))
    ensures Rect(x, g.size, g.Dim())
  {
    seq(g.size, r requires 0 <= r < g.size => XRow(g, row, blocks, r, g.per))
  }

  /** The column band after the first k block rows. */
  function WRows(g: Grid, column: nat, blocks: Blocks, k: nat): (w: Matrix)
    requires k <= g.per
    requires forall i :: 0 <= i < k ==> ShapedAt(g, blocks, g.At(i, column))
    ensures Rect(w, k * g.size, g.size)
  {
    if k == 0 then []
    else
      assert ShapedAt(g, blocks, g.At(k - 1, column));
      assert k * g.size == (k - 1) * g.size + g.size;
      WRows(g, column, blocks, k - 1) + blocks[g.At(k - 1, column)].1
  }

  lemma AcceptedComplete(h: HashFn, g: Grid, root: Bytes, row: nat, column: nat, openings: seq<Opening>)
    requires row < g.per && column < g.per
    requires |openings| == |RequiredBlocks(g, row, column)|
    requires FirstError(h, g, root, openings, RequiredBlocks(g, row, column)).None?
    ensures forall j :: 0 <= j < |openings| ==> Sized(g, openings[j])
    ensures Complete(g, row, column, BlocksUpTo(g, openings, RequiredBlocks(g, row, column), |openings|))
  {
    var indices := RequiredBlocks(g, row, column);
    FirstErrorNone(h, g, root, openings, indices);
    forall j | 0 <= j < |openings|
      ensures Sized(g, openings[j])
    {
      assert OpeningError(h, g, root, openings[j], indices[j]).None?;
    }
    BlocksAt(g, openings, indices, |openings|);
    var blocks := BlocksUpTo(g, openings, indices, |openings|);
    forall k: nat | k in indices
      ensures ShapedAt(g, blocks, k)
    {
      var j :| 0 <= j < |indices| && indices[j] == k;
    }
    forall k | 0 <= k < g.per
      ensures ShapedAt(g, blocks, g.At(row, k)) && ShapedAt(g, blocks, g.At(k, column))
    {
      RequiredAt(g, row, column, row, k);
      RequiredAt(g, row, column, k, column);
    }
  }

  /** What `_transition_bands` computes for a transition context. */
  ghost function AssembleBands(h: HashFn, g: Grid, root: Bytes, row: nat, column: nat, openings: seq<Opening>): BandsResult
    requires row < g.per && column < g.per
  {
    var indices := RequiredBlocks(g, row, column);
    if |openings| != |indices| then Failed(WrongBlockSet)
    else match FirstError(h, g, root, openings, indices)
      case Some(e) => Failed(e)
      case None =>
        AcceptedComplete(h, g, root, row, column, openings);
        var blocks := BlocksUpTo(g, openings, indices, |openings|);
        Bands(XBand(g, row, blocks), WRows(g, column, blocks, g.per))
  }

  // ------------------------------------------------------------------ binding

  /** The challenged rows of A. */
  function RowBand(g: Grid, row: nat, a: Matrix): Matrix
    requires row < g.per && Rect(a, g.Dim(), g.Dim())
  {
    BlockFits(g, row);
    a[row * g.size..(row + 1) * g.size]
  }

  /** The challenged columns of B, down to the given row. */
  function ColumnBandTo(g: Grid, column: nat, b: Matrix, rows: nat): Matrix
    requires column < g.per && Rect(b, g.Dim(), g.Dim()) && rows <= g.Dim()
  {
    BlockFits(g, column);
    seq(rows, r requires 0 <= r < rows => b[r][column * g.size..(column + 1) * g.size])
  }

  function ColumnBand(g: Grid, column: nat, b: Matrix): Matrix
    requires column < g.per && Rect(b, g.Dim(), g.Dim())
  {
    ColumnBandTo(g, column, b, g.Dim())
  }

  /** The collision given away by the first opening whose block is not the
      committed one. */
  function BandsCollision(h: HashFn, g: Grid, payloads: seq<Bytes>, openings: seq<Opening>): Collision
    requires |payloads| > 0
    decreases |openings|
  {
    if |openings| == 0 then Collision([], [])
    else
      var o := openings[0];
      if Sized(g, o) && IsCollision(h, PayloadCollision(h, STATE_KIND, payloads, OpenedPayload(g, o), o.path.siblings))
      then PayloadCollision(h, STATE_KIND, payloads, OpenedPayload(g, o), o.path.siblings)
      else BandsCollision(h, g, payloads, openings[1..])
  }

  lemma {:induction false} SomeCollision(h: HashFn, g: Grid, payloads: seq<Bytes>, openings: seq<Opening>, k: nat)
    requires |payloads| > 0 && k < |openings| && Sized(g, openings[k])
    requires IsCollision(h, PayloadCollision(h, STATE_KIND, payloads, OpenedPayload(g, openings[k]), openings[k].path.siblings))
    ensures IsCollision(h, BandsCollision(h, g, payloads, openings))
    decreases |openings|
  {
    if k > 0 {
      SomeCollision(h, g, payloads, openings[1..], k - 1);
    }
  }

  ghost predicate StateMatrices(g: Grid, a: Matrix, b: Matrix) {
    Squares(a, b, g) && Int8(a) && Int8(b) && g.per > 0
  }

  /** The committed pair of blocks at (i, j). */
  function CommittedBlocks(g: Grid, a: Matrix, b: Matrix, i: nat, j: nat): (Matrix, Matrix)
    requires Squares(a, b, g) && i < g.per && j < g.per
  {
    (SubBlock(a, g, i, j), SubBlock(b, g, i, j))
  }

  lemma PayloadDeterminesBlocks(g: Grid, a: Matrix, b: Matrix, i: nat, j: nat, o: Opening)
    requires StateMatrices(g, a, b) && i < g.per && j < g.per && Sized(g, o)
    requires OpenedPayload(g, o) == StatePayload(a, b, g, i, j)
    ensures BlocksOf(g, o) == CommittedBlocks(g, a, b, i, j)
  {
    SubBlockWithin(a, g, i, j, -128, 127);
    SubBlockWithin(b, g, i, j, -128, 127);
    UnpackInterleaved(BlocksOf(g, o).0, BlocksOf(g, o).1, g.size, g.size);
    UnpackInterleaved(SubBlock(a, g, i, j), SubBlock(b, g, i, j), g.size, g.size);
  }

  /** One accepted opening yields the committed blocks or a collision. */
  lemma OpeningBinding(h: HashFn, g: Grid, a: Matrix, b: Matrix, o: Opening, i: nat, j: nat)
    requires Digests(h) && StateMatrices(g, a, b) && i < g.per && j < g.per
    requires OpeningError(h, g, StateRoot(h, a, b, g), o, g.At(i, j)).None?
    ensures BlocksOf(g, o) == CommittedBlocks(g, a, b, i, j)
         || (|StatePayloads(a, b, g)| > 0
             && IsCollision(h, PayloadCollision(h, STATE_KIND, StatePayloads(a, b, g), OpenedPayload(g, o), o.path.siblings)))
  {
    SomeBlock(g);
    KindsSeparated();
    StatePayloadAt(a, b, g, i, j);
    StrictPayloadBinding(h, STATE_KIND, StatePayloads(a, b, g), g.At(i, j), OpenedPayload(g, o), o.path);
    if OpenedPayload(g, o) == StatePayload(a, b, g, i, j) {
      PayloadDeterminesBlocks(g, a, b, i, j, o);
    }
  }

  /** Every block of the cross is the committed one. */
  ghost predicate Faithful(g: Grid, row: nat, column: nat, a: Matrix, b: Matrix, blocks: Blocks)
    requires Squares(a, b, g) && row < g.per && column < g.per
  {
    forall k :: 0 <= k < g.per ==> FaithfulAt(g, a, b, blocks, row, k) && FaithfulAt(g, a, b, blocks, k, column)
  }

  ghost predicate FaithfulAt(g: Grid, a: Matrix, b: Matrix, blocks: Blocks, i: nat, j: nat)
    requires Squares(a, b, g) && i < g.per && j < g.per
  {
    g.At(i, j) in blocks && blocks[g.At(i, j)] == CommittedBlocks(g, a, b, i, j)
  }

  lemma {:induction false} XRowIsRow(g: Grid, row: nat, a: Matrix, b: Matrix, blocks: Blocks, r: nat, k: nat)
    requires Squares(a, b, g) && row < g.per && r < g.size && k <= g.per
    requires forall j :: 0 <= j < g.per ==> FaithfulAt(g, a, b, blocks, row, j)
    ensures forall j :: 0 <= j < k ==> ShapedAt(g, blocks, g.At(row, j))
    ensures k * g.size <= g.Dim() && row * g.size + r < g.Dim()
    ensures XRow(g, row, blocks, r, k) == a[row * g.size + r][..k * g.size]
  {
    BlockFits(g, row);
    forall j | 0 <= j < k
      ensures ShapedAt(g, blocks, g.At(row, j))
    {
      assert FaithfulAt(g, a, b, blocks, row, j);
    }
    if k > 0 {
      XRowIsRow(g, row, a, b, blocks, r, k - 1);
      BlockFits(g, k - 1);
      assert FaithfulAt(g, a, b, blocks, row, k - 1);
      var line := a[row * g.size + r];
      assert blocks[g.At(row, k - 1)].0[r] == line[(k - 1) * g.size..k * g.size];
      assert line[..k * g.size] == line[..(k - 1) * g.size] + line[(k - 1) * g.size..k * g.size];
    }
  }

  lemma JoinedRows(whole: Matrix, front: Matrix, block: Matrix)
    requires |whole| == |front| + |block|
    requires forall r :: 0 <= r < |front| ==> whole[r] == front[r]
    requires forall r :: 0 <= r < |block| ==> whole[|front| + r] == block[r]
    ensures whole == front + block
  {
  }

  /** A block more of the column band. */
  lemma ColumnBandGrows(g: Grid, column: nat, b: Matrix, k: nat)
    requires column < g.per && Rect(b, g.Dim(), g.Dim()) && k < g.per
    ensures k * g.size <= (k + 1) * g.size <= g.Dim()
    ensures ColumnBandTo(g, column, b, (k + 1) * g.size)
         == ColumnBandTo(g, column, b, k * g.size) + SubBlock(b, g, k, column)
  {
    BlockFits(g, k);
    BlockFits(g, column);
    JoinedRows(ColumnBandTo(g, column, b, (k + 1) * g.size), ColumnBandTo(g, column, b, k * g.size), SubBlock(b, g, k, column));
  }

  lemma {:induction false} WRowsAreColumns(g: Grid, column: nat, a: Matrix, b: Matrix, blocks: Blocks, k: nat)
    requires Squares(a, b, g) && column < g.per && k <= g.per
    requires forall i :: 0 <= i < g.per ==> FaithfulAt(g, a, b, blocks, i, column)
    ensures forall i :: 0 <= i < k ==> ShapedAt(g, blocks, g.At(i, column))
    ensures k * g.size <= g.Dim()
    ensures WRows(g, column, blocks, k) == ColumnBandTo(g, column, b, k * g.size)
  {
    forall i | 0 <= i < k
      ensures ShapedAt(g, blocks, g.At(i, column))
    {
      assert FaithfulAt(g, a, b, blocks, i, column);
    }
    if k > 0 {
      WRowsAreColumns(g, column, a, b, blocks, k - 1);
      ColumnBandGrows(g, column, b, k - 1);
      assert FaithfulAt(g, a, b, blocks, k - 1, column);
    }
  }

  lemma FaithfulBands(g: Grid, row: nat, column: nat, a: Matrix, b: Matrix, blocks: Blocks)
    requires Squares(a, b, g) && row < g.per && column < g.per
    requires Faithful(g, row, column, a, b, blocks)
    ensures Complete(g, row, column, blocks)
    ensures XBand(g, row, blocks) == RowBand(g, row, a)
    ensures WRows(g, column, blocks, g.per) == ColumnBand(g, column, b)
  {
    forall k | 0 <= k < g.per
      ensures ShapedAt(g, blocks, g.At(row, k)) && ShapedAt(g, blocks, g.At(k, column))
    {
      assert FaithfulAt(g, a, b, blocks, row, k) && FaithfulAt(g, a, b, blocks, k, column);
    }
    WRowsAreColumns(g, column, a, b, blocks, g.per);
    BlockFits(g, row);
    forall r | 0 <= r < g.size
      ensures XBand(g, row, blocks)[r] == RowBand(g, row, a)[r]
    {
      XRowIsRow(g, row, a, b, blocks, r, g.per);
    }
  }

  /** Accepted openings give the committed pair at every place of the cross
      where no collision is given away. */
  lemma AcceptedFaithful(h: HashFn, g: Grid, row: nat, column: nat, a: Matrix, b: Matrix, openings: seq<Opening>, i: nat, j: nat)
    requires Digests(h) && StateMatrices(g, a, b) && row < g.per && column < g.per
    requires AssembleBands(h, g, StateRoot(h, a, b, g), row, column, openings).Bands?
    requires i < g.per && j < g.per && (i == row || j == column)
    requires |StatePayloads(a, b, g)| > 0 && !IsCollision(h, BandsCollision(h, g, StatePayloads(a, b, g), openings))
    ensures forall k :: 0 <= k < |openings| ==> Sized(g, openings[k])
    ensures FaithfulAt(g, a, b, BlocksUpTo(g, openings, RequiredBlocks(g, row, column), |openings|), i, j)
  {
    var root, indices := StateRoot(h, a, b, g), RequiredBlocks(g, row, column);
    AcceptedComplete(h, g, root, row, column, openings);
    FirstErrorNone(h, g, root, openings, indices);
    BlocksAt(g, openings, indices, |openings|);
    RequiredAt(g, row, column, i, j);
    var k :| 0 <= k < |indices| && indices[k] == g.At(i, j);
    assert OpeningError(h, g, root, openings[k], indices[k]).None?;
    OpeningBinding(h, g, a, b, openings[k], i, j);
    if IsCollision(h, PayloadCollision(h, STATE_KIND, StatePayloads(a, b, g), OpenedPayload(g, openings[k]), openings[k].path.siblings)) {
      SomeCollision(h, g, StatePayloads(a, b, g), openings, k);
    }
  }

  /** State binding, end to end: against the root of A and B, every accepted
      opening list yields A's row band and B's column band, or a collision. */
  lemma StateBinding(h: HashFn, g: Grid, row: nat, column: nat, a: Matrix, b: Matrix, openings: seq<Opening>)
    requires Digests(h) && StateMatrices(g, a, b) && row < g.per && column < g.per
    requires AssembleBands(h, g, StateRoot(h, a, b, g), row, column, openings).Bands?
    ensures AssembleBands(h, g, StateRoot(h, a, b, g), row, column, openings)
              == Bands(RowBand(g, row, a), ColumnBand(g, column, b))
         || (|StatePayloads(a, b, g)| > 0
             && IsCollision(h, BandsCollision(h, g, StatePayloads(a, b, g), openings)))
  {
    SomeBlock(g);
    AcceptedComplete(h, g, StateRoot(h, a, b, g), row, column, openings);
    var blocks := BlocksUpTo(g, openings, RequiredBlocks(g, row, column), |openings|);
    if !IsCollision(h, BandsCollision(h, g, StatePayloads(a, b, g), openings)) {
      forall k | 0 <= k < g.per
        ensures FaithfulAt(g, a, b, blocks, row, k) && FaithfulAt(g, a, b, blocks, k, column)
      {
        AcceptedFaithful(h, g, row, column, a, b, openings, row, k);
        AcceptedFaithful(h, g, row, column, a, b, openings, k, column);
      }
      FaithfulBands(g, row, column, a, b, blocks);
    }
  }

  // ------------------------------------------------------------- completeness

  /** The opening an honest prover makes of block k. */
  function HonestBlock(h: HashFn, g: Grid, a: Matrix, b: Matrix, k: nat): Opening
    requires Squares(a, b, g) && k < g.Count()
  {
    var payloads := StatePayloads(a, b, g);
    Opening(k, payloads[k], PathData(k, Path(h, STATE_KIND.nodeTag, LeafHashes(h, STATE_KIND, payloads), k)))
  }

  ghost function HonestOpenings(h: HashFn, g: Grid, row: nat, column: nat, a: Matrix, b: Matrix): (openings: seq<Opening>)
    requires Squares(a, b, g) && row < g.per && column < g.per
    ensures |openings| == |RequiredBlocks(g, row, column)|
  {
    RequiredInRange(g, row, column);
    var indices := RequiredBlocks(g, row, column);
    assert forall j :: 0 <= j < |indices| ==> indices[j] in indices;
    seq(|indices|, j requires 0 <= j < |indices| => HonestBlock(h, g, a, b, indices[j]))
  }

  lemma HonestBlockAccepted(h: HashFn, g: Grid, a: Matrix, b: Matrix, i: nat, j: nat)
    requires StateMatrices(g, a, b) && i < g.per && j < g.per
    ensures g.At(i, j) < g.Count()
    ensures OpeningError(h, g, StateRoot(h, a, b, g), HonestBlock(h, g, a, b, g.At(i, j)), g.At(i, j)).None?
    ensures BlocksOf(g, HonestBlock(h, g, a, b, g.At(i, j))) == CommittedBlocks(g, a, b, i, j)
  {
    StatePayloadAt(a, b, g, i, j);
    SubBlockWithin(a, g, i, j, -128, 127);
    SubBlockWithin(b, g, i, j, -128, 127);
    UnpackInterleaved(SubBlock(a, g, i, j), SubBlock(b, g, i, j), g.size, g.size);
    HonestPath(h, STATE_KIND.nodeTag, LeafHashes(h, STATE_KIND, StatePayloads(a, b, g)), g.At(i, j));
  }

  lemma HonestPass(h: HashFn, g: Grid, a: Matrix, b: Matrix, k: nat)
    requires StateMatrices(g, a, b) && k < g.Count()
    ensures OpeningError(h, g, StateRoot(h, a, b, g), HonestBlock(h, g, a, b, k), k).None?
  {
    Coordinates(g, k);
    HonestBlockAccepted(h, g, a, b, k / g.per, k % g.per);
  }

  lemma HonestAllPass(h: HashFn, g: Grid, row: nat, column: nat, a: Matrix, b: Matrix)
    requires StateMatrices(g, a, b) && row < g.per && column < g.per
    ensures AllPass(h, g, StateRoot(h, a, b, g), HonestOpenings(h, g, row, column, a, b), RequiredBlocks(g, row, column))
  {
    var indices, openings := RequiredBlocks(g, row, column), HonestOpenings(h, g, row, column, a, b);
    RequiredInRange(g, row, column);
    forall k | 0 <= k < |indices|
      ensures OpeningError(h, g, StateRoot(h, a, b, g), openings[k], indices[k]).None?
    {
      assert indices[k] in indices;
      HonestPass(h, g, a, b, indices[k]);
    }
  }

  /** The honest openings of the required blocks are accepted and give the
      bands. */
  lemma StateCompleteness(h: HashFn, g: Grid, row: nat, column: nat, a: Matrix, b: Matrix)
    requires StateMatrices(g, a, b) && row < g.per && column < g.per
    ensures AssembleBands(h, g, StateRoot(h, a, b, g), row, column, HonestOpenings(h, g, row, column, a, b))
         == Bands(RowBand(g, row, a), ColumnBand(g, column, b))
  {
    var root, indices, openings := StateRoot(h, a, b, g), RequiredBlocks(g, row, column), HonestOpenings(h, g, row, column, a, b);
    HonestAllPass(h, g, row, column, a, b);
    FirstErrorNone(h, g, root, openings, indices);
    AcceptedComplete(h, g, root, row, column, openings);
    var blocks := BlocksUpTo(g, openings, indices, |openings|);
    forall k | 0 <= k < g.per
      ensures FaithfulAt(g, a, b, blocks, row, k) && FaithfulAt(g, a, b, blocks, k, column)
    {
      HonestFaithfulAt(h, g, row, column, a, b, row, k);
      HonestFaithfulAt(h, g, row, column, a, b, k, column);
    }
    FaithfulBands(g, row, column, a, b, blocks);
  }

  lemma HonestFaithfulAt(h: HashFn, g: Grid, row: nat, column: nat, a: Matrix, b: Matrix, i: nat, j: nat)
    requires StateMatrices(g, a, b) && row < g.per && column < g.per
    requires i < g.per && j < g.per && (i == row || j == column)
    requires forall k :: 0 <= k < |HonestOpenings(h, g, row, column, a, b)| ==> Sized(g, HonestOpenings(h, g, row, column, a, b)[k])
    ensures var openings := HonestOpenings(h, g, row, column, a, b);
            FaithfulAt(g, a, b, BlocksUpTo(g, openings, RequiredBlocks(g, row, column), |openings|), i, j)
  {
    var indices, openings := RequiredBlocks(g, row, column), HonestOpenings(h, g, row, column, a, b);
    BlocksAt(g, openings, indices, |openings|);
    RequiredAt(g, row, column, i, j);
    var k :| 0 <= k < |indices| && indices[k] == g.At(i, j);
    HonestBlockAccepted(h, g, a, b, i, j);
  }

  // ------------------------------------------------------- context and loops

  ghost predicate TransitionContext(ctx: Context) {
    ctx.Dimensions() && ctx.transitionMixRounds != 0
  }

  function ContextGrid(ctx: Context): (g: Grid)
    requires ctx.Dimensions()
    ensures g.Dim() == ctx.matrixDim && g.size == ctx.blockSize
    ensures ctx.rowBlock < g.per && ctx.columnBlock < g.per
  {
    GridOf(ctx.matrixDim, ctx.blockSize)
  }

  predicate Below(a: nat, b: nat) {
    a < b
  }

  lemma InsertElements(e: nat, s: seq<nat>)
    ensures forall x :: x in Insert(Below, e, s) <==> x == e || x in s
  {
    hide Insert;
    forall x
      ensures x in Insert(Below, e, s) <==> x == e || x in s
    {
      assert multiset(Insert(Below, e, s))[x] == multiset([e])[x] + multiset(s)[x];
    }
  }

  lemma {:induction false} InsertAscends(e: nat, s: seq<nat>)
    requires Ascending(s) && e !in s
    ensures Ascending(Insert(Below, e, s))
    decreases |s|
  {
    if |s| > 0 && !Below(e, s[0]) {
      var rest := Insert(Below, e, s[1..]);
      InsertAscends(e, s[1..]);
      InsertElements(e, s[1..]);
      forall k | 0 <= k < |rest|
        ensures s[0] < rest[k]
      {
        assert rest[k] in rest;
      }
    }
  }

  lemma {:induction false} SortAscends(s: seq<nat>)
    requires Distinct(s)
    ensures Ascending(Sort(Below, s))
    ensures forall x :: x in Sort(Below, s) <==> x in s
    decreases |s|
  {
    if |s| > 0 {
      var front := s[..|s| - 1];
      SortAscends(front);
      assert s == front + [s[|s| - 1]];
      InsertAscends(s[|s| - 1], Sort(Below, front));
      InsertElements(s[|s| - 1], Sort(Below, front));
    }
  }

  lemma FirstIn(s: seq<nat>)
    ensures |s| > 0 ==> s[0] in s
  {
  }

  /** Only one ascending list has given elements. */
  lemma {:induction false} AscendingUnique(p: seq<nat>, q: seq<nat>)
    requires Ascending(p) && Ascending(q) && forall x :: x in p <==> x in q
    ensures p == q
    decreases |p|
  {
    FirstIn(p);
    FirstIn(q);
    if |p| > 0 {
      assert p == [p[0]] + p[1..] && q == [q[0]] + q[1..];
      forall x
        ensures x in p[1..] <==> x in q[1..]
      {
        assert x in p <==> x in q;
        assert x in p[1..] ==> x > p[0];
        assert x in q[1..] ==> x > q[0];
      }
      AscendingUnique(p[1..], q[1..]);
    }
  }

  /** `required_transition_state_blocks`: the row's blocks, the column's blocks
      not yet among them, sorted. */
  method RequiredStateBlocks(ctx: Context) returns (indices: seq<nat>)
    requires ctx.Dimensions()
    ensures ctx.transitionMixRounds == 0 ==> indices == []
    ensures ctx.transitionMixRounds != 0 ==> indices == RequiredBlocks(ContextGrid(ctx), ctx.rowBlock, ctx.columnBlock)
  {
    if ctx.transitionMixRounds == 0 {
      return [];
    }
    var g := ContextGrid(ctx);
    var found: seq<nat> := [];
    ghost var rows, columns := RowBlocks(g, ctx.rowBlock), ColumnBlocks(g, ctx.columnBlock);
    for column := 0 to g.per
      invariant Distinct(found)
      invariant forall x :: x in found <==> x in set j | 0 <= j < column :: g.At(ctx.rowBlock, j)
    {
      if g.At(ctx.rowBlock, column) !in found {
        found := found + [g.At(ctx.rowBlock, column)];
      }
    }
    assert forall x :: x in found <==> x in rows;
    for row := 0 to g.per
      invariant Distinct(found)
      invariant forall x :: x in found <==> x in rows + set i | 0 <= i < row :: g.At(i, ctx.columnBlock)
    {
      if g.At(row, ctx.columnBlock) !in found {
        found := found + [g.At(row, ctx.columnBlock)];
      }
    }
    assert forall x :: x in found <==> x in rows + columns;
    SortAscends(found);
    indices := Sort(Below, found);
    AscendingUnique(indices, RequiredBlocks(g, ctx.rowBlock, ctx.columnBlock));
  }

  /** `_transition_bands`: the exact block list, the opening loop, then the two
      assembly loops. */
  method TransitionBands(h: HashFn, ctx: Context, openings: seq<Opening>) returns (r: BandsResult)
    requires TransitionContext(ctx)
    ensures r == AssembleBands(h, ContextGrid(ctx), ctx.stateRoot, ctx.rowBlock, ctx.columnBlock, openings)
  {
    var indices := RequiredStateBlocks(ctx);
    if |openings| != |indices| {
      return Failed(WrongBlockSet);
    }
    var g := ContextGrid(ctx);
    var failed, blocks := CheckOpenings(h, g, ctx.stateRoot, openings, indices);
    if failed.Some? {
      return Failed(failed.value);
    }
    AcceptedComplete(h, g, ctx.stateRoot, ctx.rowBlock, ctx.columnBlock, openings);
    var x := AssembleX(g, ctx.rowBlock, blocks);
    var w := AssembleW(g, ctx.columnBlock, blocks);
    r := Bands(x, w);
  }

  method CheckOpenings(h: HashFn, g: Grid, root: Bytes, openings: seq<Opening>, indices: seq<nat>)
    returns (failed: Option<BandsError>, blocks: Blocks)
    requires |openings| == |indices|
    ensures failed == FirstError(h, g, root, openings, indices)
    ensures failed.None? ==> forall j :: 0 <= j < |openings| ==> Sized(g, openings[j])
    ensures failed.None? ==> blocks == BlocksUpTo(g, openings, indices, |openings|)
  {
    blocks := map[];
    for k := 0 to |openings|
      invariant forall j :: 0 <= j < k ==> Sized(g, openings[j])
      invariant blocks == BlocksUpTo(g, openings, indices, k)
      invariant FirstError(h, g, root, openings, indices) == FirstError(h, g, root, openings[k..], indices[k..])
    {
      var o := openings[k];
      assert openings[k..][1..] == openings[k + 1..] && indices[k..][1..] == indices[k + 1..];
      if o.blockIndex != indices[k] {
        return Some(WrongBlockSet), blocks;
      }
      if |o.packed| != 2 * g.size * g.size {
        return Some(WrongBlockLength), blocks;
      }
      var path := CheckStrictPath(o.path, indices[k], g.Count());
      if path.PathErr? {
        return Some(BadPath(path.error)), blocks;
      }
      var leafHash := LeafHash(h, STATE_KIND, OpenedPayload(g, o));
      var ok := VerifyPath(h, STATE_KIND.nodeTag, root, leafHash, path.path);
      if !ok {
        return Some(PathRejected), blocks;
      }
      blocks := blocks[indices[k] := BlocksOf(g, o)];
    }
    failed := None;
  }

  /** Fills the row band block column by block column. */
  method AssembleX(g: Grid, row: nat, blocks: Blocks) returns (x: Matrix)
    requires forall j :: 0 <= j < g.per ==> ShapedAt(g, blocks, g.At(row, j))
    ensures x == XBand(g, row, blocks)
  {
    x := seq(g.size, _ => []);
    for blockColumn := 0 to g.per
      invariant |x| == g.size
      invariant forall r :: 0 <= r < g.size ==> x[r] == XRow(g, row, blocks, r, blockColumn)
    {
      var block := blocks[g.At(row, blockColumn)].0;
      assert ShapedAt(g, blocks, g.At(row, blockColumn));
      x := seq(g.size, r requires 0 <= r < g.size && |x| == |block| == g.size => x[r] + block[r]);
    }
  }

  /** Fills the column band block row by block row. */
  method AssembleW(g: Grid, column: nat, blocks: Blocks) returns (w: Matrix)
    requires forall i :: 0 <= i < g.per ==> ShapedAt(g, blocks, g.At(i, column))
    ensures w == WRows(g, column, blocks, g.per)
  {
    w := [];
    for blockRow := 0 to g.per
      invariant w == WRows(g, column, blocks, blockRow)
    {
      w := w + blocks[g.At(blockRow, column)].1;
    }
  }

  // ------------------------------------------------------------- the Q block

  datatype QResult = QOpened(block: Matrix, leafHash: Bytes) | QFailed(error: QError)

  datatype QError = BadShape | OutOfRange | QBadPath(error: PathError) | QPathRejected

  /** `_verify_q_opening` */
  function OpenQ(h: HashFn, g: Grid, root: Bytes, row: nat, column: nat, block: Matrix, data: PathData): QResult {
    if !Rect(block, g.size, g.size) then QFailed(BadShape)
    else if !Int32(block) then QFailed(OutOfRange)
    else match StrictPath(data, g.At(row, column), g.Count())
      case PathErr(e) => QFailed(QBadPath(e))
      case PathOk(path) =>
        var leaf := LeafHash(h, Q_KIND, BlockWords(block));
        if Fold(h, Q_KIND.nodeTag, leaf, path) != root then QFailed(QPathRejected)
        else QOpened(block, leaf)
  }

  lemma QPayloadAt(q: Matrix, g: Grid, i: nat, j: nat)
    requires Rect(q, g.Dim(), g.Dim()) && Int32(q) && i < g.per && j < g.per
    ensures g.At(i, j) < g.Count()
    ensures QPayloads(q, g)[g.At(i, j)] == QPayload(q, g, i, j)
  {
    AtCoordinates(g, i, j);
  }

  /** An accepted Q block is the committed block at the challenged position, or
      gives away a collision. */
  lemma QBinding(h: HashFn, g: Grid, row: nat, column: nat, q: Matrix, block: Matrix, data: PathData)
    requires Digests(h) && row < g.per && column < g.per
    requires Rect(q, g.Dim(), g.Dim()) && Int32(q)
    requires OpenQ(h, g, QRoot(h, q, g), row, column, block, data).QOpened?
    ensures block == SubBlock(q, g, row, column)
         || (|QPayloads(q, g)| > 0
             && IsCollision(h, PayloadCollision(h, Q_KIND, QPayloads(q, g), BlockWords(block), data.siblings)))
  {
    SomeBlock(g);
    KindsSeparated();
    QPayloadAt(q, g, row, column);
    StrictPayloadBinding(h, Q_KIND, QPayloads(q, g), g.At(row, column), BlockWords(block), data);
    SubBlockWithin(q, g, row, column, -0x8000_0000, 0x7FFF_FFFF);
    if BlockWords(block) == QPayload(q, g, row, column) {
      BlockWordsInjective(block, SubBlock(q, g, row, column), g.size);
    }
  }

  function HonestQPath(h: HashFn, g: Grid, row: nat, column: nat, q: Matrix): PathData
    requires row < g.per && column < g.per && Rect(q, g.Dim(), g.Dim()) && Int32(q)
  {
    QPayloadAt(q, g, row, column);
    PathData(g.At(row, column), Path(h, Q_KIND.nodeTag, LeafHashes(h, Q_KIND, QPayloads(q, g)), g.At(row, column)))
  }

  /** And the committed block with its own path is accepted. */
  lemma QCompleteness(h: HashFn, g: Grid, row: nat, column: nat, q: Matrix)
    requires row < g.per && column < g.per && Rect(q, g.Dim(), g.Dim()) && Int32(q)
    ensures OpenQ(h, g, QRoot(h, q, g), row, column, SubBlock(q, g, row, column), HonestQPath(h, g, row, column, q))
         == QOpened(SubBlock(q, g, row, column), LeafHash(h, Q_KIND, QPayload(q, g, row, column)))
  {
    hide SubBlock, BlockWords, Fold, Path, StrictDirections;
    QPayloadAt(q, g, row, column);
    SubBlockWithin(q, g, row, column, -0x8000_0000, 0x7FFF_FFFF);
    HonestPath(h, Q_KIND.nodeTag, LeafHashes(h, Q_KIND, QPayloads(q, g)), g.At(row, column));
  }
}
