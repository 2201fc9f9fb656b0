/** The sampled GEMM check from end to end: openings accepted against the state
    root and the round root, and the relation the terminal evaluations test. */
module CapacityGemm {
  import opened Arithmetic
  import opened CapacityEncoding
  import opened MerkleTree
  import opened Multilinear
  import opened TransitionBands
  import opened WorkspaceState

  /** A column of the column band is the column of B. */
  lemma BandColumn(g: Grid, j: nat, b: Matrix, c: nat)
    requires j < g.per && c < g.size && Rect(b, g.Dim(), g.Dim())
    ensures j * g.size + c < g.Dim()
    ensures Rect(ColumnBand(g, j, b), g.Dim(), g.size)
    ensures Column(ColumnBand(g, j, b), g.size, c) == Column(b, g.Dim(), j * g.size + c)
  {
    BlockFits(g, j);
  }

  lemma BandRow(g: Grid, i: nat, a: Matrix, r: nat)
    requires i < g.per && r < g.size && Rect(a, g.Dim(), g.Dim())
    ensures i * g.size + r < g.Dim()
    ensures Rect(RowBand(g, i, a), g.size, g.Dim())
    ensures RowBand(g, i, a)[r] == a[i * g.size + r]
  {
    BlockFits(g, i);
  }

  lemma BandShapes(g: Grid, i: nat, j: nat, a: Matrix, b: Matrix)
    requires Squares(a, b, g) && i < g.per && j < g.per
    ensures Rect(RowBand(g, i, a), g.size, g.Dim()) && Rect(ColumnBand(g, j, b), g.Dim(), g.size)
    ensures Rect(Product(a, b, g.Dim()), g.Dim(), g.Dim())
  {
    hide Dot, Column;
    RowBandShape(g, i, a);
    ColumnBandShape(g, j, b);
    hide RowBand, ColumnBand;
  }

  lemma RowBandShape(g: Grid, i: nat, a: Matrix)
    requires Rect(a, g.Dim(), g.Dim()) && i < g.per
    ensures Rect(RowBand(g, i, a), g.size, g.Dim())
  {
    BlockFits(g, i);
  }

  lemma ColumnBandShape(g: Grid, j: nat, b: Matrix)
    requires Rect(b, g.Dim(), g.Dim()) && j < g.per
    ensures Rect(ColumnBand(g, j, b), g.Dim(), g.size)
  {
    BlockFits(g, j);
  }

  /** A block of A·B is the product of A's row band and B's column band. */
  lemma ProductBlock(g: Grid, i: nat, j: nat, a: Matrix, b: Matrix)
    requires Squares(a, b, g) && i < g.per && j < g.per
    ensures Rect(RowBand(g, i, a), g.size, g.Dim()) && Rect(ColumnBand(g, j, b), g.Dim(), g.size)
    ensures Rect(Product(a, b, g.Dim()), g.Dim(), g.Dim())
    ensures SubBlock(Product(a, b, g.Dim()), g, i, j) == Product(RowBand(g, i, a), ColumnBand(g, j, b), g.size)
  {
    hide RowBand, ColumnBand, Column, Dot;
    BandShapes(g, i, j, a, b);
    var q, x, w := Product(a, b, g.Dim()), RowBand(g, i, a), ColumnBand(g, j, b);
    var block, product := SubBlock(q, g, i, j), Product(x, w, g.size);
    BlockFits(g, i);
    BlockFits(g, j);
    forall r, c | 0 <= r < g.size && 0 <= c < g.size
      ensures block[r][c] == product[r][c]
    {
      BandRow(g, i, a, r);
      BandColumn(g, j, b, c);
      assert block[r][c] == q[i * g.size + r][j * g.size + c];
    }
    forall r | 0 <= r < g.size
      ensures block[r] == product[r]
    {
      assert |block[r]| == |product[r]| == g.size;
    }
  }

  /** A·B for committed int8 matrices below the largest dimension, which fits the
      32-bit entries the round root commits to. */
  function ProductMatrix(g: Grid, a: Matrix, b: Matrix): (q: Matrix)
    requires Squares(a, b, g) && Int8(a) && Int8(b) && g.Dim() < MAX_MATRIX_DIM
    ensures Rect(q, g.Dim(), g.Dim()) && Int32(q)
  {
    ProductFits(a, b, g.Dim());
    Product(a, b, g.Dim())
  }

  /** When A, B and their product are what the two roots commit to, whatever
      openings are accepted yield a Q block that is the product of the yielded
      bands, and its evaluation at (r, c) is the sum over the padded inner cube
      that the terminal checks compare; or one of them gives away a collision. */
  lemma TerminalRelation(h: HashFn, g: Grid, i: nat, j: nat, a: Matrix, b: Matrix, openings: seq<Opening>,
                         block: Matrix, path: PathData, rows: Vec, columns: Vec, p: nat)
    requires Digests(h) && StateMatrices(g, a, b) && i < g.per && j < g.per
    requires 1 < g.Dim() < MAX_MATRIX_DIM && g.size == Pow2(|rows|) == Pow2(|columns|)
    requires p > 0 && IsPoint(rows, p) && IsPoint(columns, p)
    requires AssembleBands(h, g, StateRoot(h, a, b, g), i, j, openings).Bands?
    requires OpenQ(h, g, QRoot(h, ProductMatrix(g, a, b), g), i, j, block, path).QOpened?
    ensures var bands, payloads := AssembleBands(h, g, StateRoot(h, a, b, g), i, j, openings), QPayloads(ProductMatrix(g, a, b), g);
            || (&& bands == Bands(RowBand(g, i, a), ColumnBand(g, j, b))
                && Rect(bands.x, g.size, g.Dim()) && Rect(bands.w, g.Dim(), g.size)
                && block == Product(bands.x, bands.w, g.size)
                && MatrixMle(block, rows + columns, p) == Value(PaddedSum(bands.x, bands.w, rows, columns) % p))
            || (|StatePayloads(a, b, g)| > 0 && IsCollision(h, BandsCollision(h, g, StatePayloads(a, b, g), openings)))
            || (|payloads| > 0 && IsCollision(h, PayloadCollision(h, Q_KIND, payloads, BlockWords(block), path.siblings)))
  {
    hide AssembleBands, StateRoot, QRoot, OpenQ, RowBand, ColumnBand, Product, BandsCollision, PayloadCollision, MatrixMle, PaddedSum;
    StateBinding(h, g, i, j, a, b, openings);
    QBinding(h, g, i, j, ProductMatrix(g, a, b), block, path);
    ProductBlock(g, i, j, a, b);
    GemmRelation(RowBand(g, i, a), ColumnBand(g, j, b), rows, columns, p);
  }
}
