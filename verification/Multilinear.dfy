/** Multilinear extensions by table folding, and the identity between the
    extension of a matrix product and those of its factors. */
module Multilinear {
  import opened Arithmetic
  import opened WorkspaceState
  import CapacityEncoding

  type Vec = seq<int>

  // ------------------------------------------------------------------ vectors

  function Dot(a: Vec, b: Vec): int
    requires |a| == |b|
  {
    if |a| == 0 then 0 else a[0] * b[0] + Dot(a[1..], b[1..])
  }

  function Add(a: Vec, b: Vec): (r: Vec)
    requires |a| == |b|
    ensures |r| == |a|
  {
    seq(|a|, i requires 0 <= i < |a| => a[i] + b[i])
  }

  function Scale(c: int, a: Vec): (r: Vec)
    ensures |r| == |a|
  {
    seq(|a|, i requires 0 <= i < |a| => c * a[i])
  }

  function ZeroVec(n: nat): (r: Vec)
    ensures |r| == n
  {
    seq(n, _ => 0)
  }

  lemma {:induction false} DotAdd(a: Vec, b: Vec, y: Vec)
    requires |a| == |b| == |y|
    ensures Dot(Add(a, b), y) == Dot(a, y) + Dot(b, y)
    decreases |a|
  {
    if |a| > 0 {
      DotAdd(a[1..], b[1..], y[1..]);
      assert Add(a, b)[1..] == Add(a[1..], b[1..]);
    }
  }

  lemma {:induction false} DotScale(c: int, a: Vec, y: Vec)
    requires |a| == |y|
    ensures Dot(Scale(c, a), y) == c * Dot(a, y)
    decreases |a|
  {
    if |a| > 0 {
      DotScale(c, a[1..], y[1..]);
      assert Scale(c, a)[1..] == Scale(c, a[1..]);
      assert c * a[0] * y[0] + c * Dot(a[1..], y[1..]) == c * (a[0] * y[0] + Dot(a[1..], y[1..]));
    }
  }

  lemma {:induction false} DotZero(y: Vec)
    ensures Dot(ZeroVec(|y|), y) == 0 && Dot(y, ZeroVec(|y|)) == 0
    decreases |y|
  {
    if |y| > 0 {
      DotZero(y[1..]);
      assert ZeroVec(|y|)[1..] == ZeroVec(|y| - 1);
    }
  }

  lemma {:induction false} DotConcat(a: Vec, b: Vec, x: Vec, y: Vec)
    requires |a| == |x| && |b| == |y|
    ensures Dot(a + b, x + y) == Dot(a, x) + Dot(b, y)
    decreases |a|
  {
    if |a| == 0 {
      assert a + b == b && x + y == y;
    } else {
      DotConcat(a[1..], b, x[1..], y);
      assert (a + b)[1..] == a[1..] + b && (x + y)[1..] == x[1..] + y;
    }
  }

  lemma {:induction false} DotCommutes(a: Vec, b: Vec)
    requires |a| == |b|
    ensures Dot(a, b) == Dot(b, a)
    decreases |a|
  {
    if |a| > 0 {
      DotCommutes(a[1..], b[1..]);
    }
  }

  // ------------------------------------------------------------------ folding

  /** One round of the halving loop. */
  function FoldOnce(table: Vec, c: int, p: nat): (t: Vec)
    requires p > 0 && |table| % 2 == 0
    ensures |t| == |table| / 2
  {
    var half := |table| / 2;
    seq(half, i requires 0 <= i < half => (table[i] + c * (table[i + half] - table[i])) % p)
  }

  function FoldTable(table: Vec, point: Vec, p: nat): int
    requires p > 0 && |table| == Pow2(|point|)
    decreases |point|
  {
    if |point| == 0 then table[0] else FoldTable(FoldOnce(table, point[0], p), point[1..], p)
  }

  function Reduce(values: Vec, p: nat): (t: Vec)
    requires p > 0
    ensures |t| == |values|
  {
    seq(|values|, i requires 0 <= i < |values| => values[i] % p)
  }

  predicate IsPoint(point: Vec, p: nat) {
    forall i :: 0 <= i < |point| ==> 0 <= point[i] < p
  }

  datatype MleResult = Value(v: int) | SizeMismatch | BadCoordinate | BadMatrix | ValueOutOfRange

  /** `_mle_evaluate`: the loop replaces its table every round. */
  method MleEvaluate(values: Vec, point: Vec, p: nat) returns (r: MleResult)
    requires p > 0
    ensures r == Mle(values, point, p)
  {
    var table := Reduce(values, p);
    var size := 1;
    for k := 0 to |point|
      invariant size == Pow2(k)
    {
      size := 2 * size;
    }
    if |table| != size {
      return SizeMismatch;
    }
    for k := 0 to |point|
      invariant IsPoint(point[..k], p)
      invariant |table| == Pow2(|point| - k)
      invariant FoldTable(table, point[k..], p) == FoldTable(Reduce(values, p), point, p)
    {
      var c := point[k];
      if c < 0 || c >= p {
        return BadCoordinate;
      }
      assert point[k..][1..] == point[k + 1..];
      table := FoldOnce(table, c, p);
      assert point[..k + 1] == point[..k] + [c];
    }
    assert point[..|point|] == point;
    r := Value(table[0]);
  }

  function Mle(values: Vec, point: Vec, p: nat): MleResult
    requires p > 0
  {
    if |values| != Pow2(|point|) then SizeMismatch
    else if !IsPoint(point, p) then BadCoordinate
    else Value(FoldTable(Reduce(values, p), point, p))
  }

  // ------------------------------------------------- the extension as a sum

  /** The weights of all indices at a point: first coordinate on the top bit. */
  function Weights(point: Vec): (w: Vec)
    ensures |w| == Pow2(|point|)
    decreases |point|
  {
    if |point| == 0 then [1]
    else Scale(1 - point[0], Weights(point[1..])) + Scale(point[0], Weights(point[1..]))
  }

  /** eq(bit, x) */
  function Eq(bit: bool, x: int): int {
    if bit then x else 1 - x
  }

  /** The product of eq(bit_j(b), point_j), the first coordinate against the
      top bit of b. */
  function EqProduct(b: nat, point: Vec): int
    decreases |point|
  {
    if |point| == 0 then 1
    else
      var half := Pow2(|point| - 1);
      Eq(b / half % 2 == 1, point[0]) * EqProduct(b % half, point[1..])
  }

  /** The sum over all indices b < n of values[b] times the product of eqs. */
  function EqSum(values: Vec, point: Vec, n: nat): int
    requires n <= |values|
  {
    if n == 0 then 0 else EqSum(values, point, n - 1) + values[n - 1] * EqProduct(n - 1, point)
  }

  lemma TopBit(b: nat, half: nat)
    requires 0 < half && b < 2 * half
    ensures b / half == (if b < half then 0 else 1)
    ensures b % half == (if b < half then b else b - half)
  {
    if b < half {
      DivMod(0, b, half);
    } else {
      DivMod(1, b - half, half);
    }
  }

  lemma {:induction false} WeightIsEqProduct(b: nat, point: Vec)
    requires b < Pow2(|point|)
    ensures Weights(point)[b] == EqProduct(b, point)
    decreases |point|
  {
    if |point| > 0 {
      var half, w := Pow2(|point| - 1), Weights(point[1..]);
      TopBit(b, half);
      WeightIsEqProduct(b % half, point[1..]);
      assert Weights(point)[b] == (if b < half then (1 - point[0]) * w[b] else point[0] * w[b - half]);
    }
  }

  lemma {:induction false} DotIsEqSum(values: Vec, point: Vec, n: nat)
    requires |values| == Pow2(|point|) && n <= |values|
    ensures Dot(values[..n], Weights(point)[..n]) == EqSum(values, point, n)
  {
    if n > 0 {
      DotIsEqSum(values, point, n - 1);
      DotSnoc(values, Weights(point), n);
      WeightIsEqProduct(n - 1, point);
    }
  }

  lemma ExtensionIsEqSum(values: Vec, point: Vec)
    requires |values| == Pow2(|point|)
    ensures Dot(values, Weights(point)) == EqSum(values, point, |values|)
  {
    DotIsEqSum(values, point, |values|);
    assert values[..|values|] == values && Weights(point)[..|values|] == Weights(point);
  }

  // ----------------------------------------------------------------- residues

  lemma SumsAgree(a: int, b: int, k: int, p: nat)
    requires p > 0 && a == b + k * p
    ensures a % p == b % p
  {
    var q, r := b / p, b % p;
    assert a == (q + k) * p + r;
    var a' := a - (q + k) * p;
    assert a' == r;
    ModUnique(a, q + k, r, p);
  }

  lemma ModUnique(a: int, q: int, r: nat, p: nat)
    requires p > 0 && r < p && a == q * p + r
    ensures a % p == r
  {
    var k := a / p;
    assert a == k * p + a % p;
    if k < q {
      MulOrder(k + 1, q, p);
    } else if k > q {
      MulOrder(q + 1, k, p);
    }
  }

  lemma CongruentDifference(a: int, b: int, p: nat) returns (k: int)
    requires p > 0 && a % p == b % p
    ensures a == b + k * p
  {
    k := a / p - b / p;
    assert a == a / p * p + a % p && b == b / p * p + b % p;
  }

  lemma ModOfMod(a: int, p: nat)
    requires p > 0
    ensures (a % p) % p == a % p
  {
    ModUnique(a % p, 0, a % p, p);
  }

  ghost predicate SameResidues(s: Vec, t: Vec, p: nat)
    requires p > 0
  {
    |s| == |t| && forall i :: 0 <= i < |s| ==> s[i] % p == t[i] % p
  }

  /** The fold without reduction. */
  function PlainFold(table: Vec, c: int): (t: Vec)
    requires |table| % 2 == 0
    ensures |t| == |table| / 2
  {
    var half := |table| / 2;
    Add(Scale(1 - c, table[..half]), Scale(c, table[half..2 * half]))
  }

  lemma StepResidue(a: int, b: int, a': int, b': int, c: int, p: nat)
    requires p > 0 && a % p == a' % p && b % p == b' % p
    ensures ((a + c * (b - a)) % p) % p == ((1 - c) * a' + c * b') % p
  {
    var k := CongruentDifference(a, a', p);
    var l := CongruentDifference(b, b', p);
    var m := k + c * (l - k);
    assert a + c * (b - a) == ((1 - c) * a' + c * b') + m * p by {
      assert c * (b - a) == c * (b' - a') + c * ((l - k) * p);
      assert c * ((l - k) * p) == (c * (l - k)) * p;
      assert m * p == k * p + (c * (l - k)) * p;
    }
    SumsAgree(a + c * (b - a), (1 - c) * a' + c * b', m, p);
    ModOfMod(a + c * (b - a), p);
  }

  lemma FoldEntry(table: Vec, c: int, p: nat, i: nat)
    requires p > 0 && |table| % 2 == 0 && i < |table| / 2
    ensures FoldOnce(table, c, p)[i] == (table[i] + c * (table[i + |table| / 2] - table[i])) % p
  {
  }

  lemma PlainEntry(plain: Vec, c: int, i: nat)
    requires |plain| % 2 == 0 && i < |plain| / 2
    ensures PlainFold(plain, c)[i] == (1 - c) * plain[i] + c * plain[i + |plain| / 2]
  {
  }

  lemma FoldResidueAt(table: Vec, plain: Vec, c: int, p: nat, i: nat)
    requires p > 0 && |table| == |plain| && |table| % 2 == 0 && i < |table| / 2
    requires table[i] % p == plain[i] % p && table[i + |table| / 2] % p == plain[i + |table| / 2] % p
    ensures FoldOnce(table, c, p)[i] % p == PlainFold(plain, c)[i] % p
  {
    hide FoldOnce, PlainFold;
    var half := |table| / 2;
    FoldEntry(table, c, p, i);
    PlainEntry(plain, c, i);
    StepResidue(table[i], table[i + half], plain[i], plain[i + half], c, p);
  }

  lemma FoldResidues(table: Vec, plain: Vec, c: int, p: nat)
    requires p > 0 && SameResidues(table, plain, p) && |table| % 2 == 0
    ensures SameResidues(FoldOnce(table, c, p), PlainFold(plain, c), p)
  {
    hide FoldOnce, PlainFold;
    forall i | 0 <= i < |table| / 2
      ensures FoldOnce(table, c, p)[i] % p == PlainFold(plain, c)[i] % p
    {
      FoldResidueAt(table, plain, c, p, i);
    }
  }

  lemma DotScaled(c: int, w: Vec, a: Vec)
    requires |a| == |w|
    ensures Dot(a, Scale(c, w)) == c * Dot(a, w)
  {
    DotCommutes(a, Scale(c, w));
    DotScale(c, w, a);
    DotCommutes(w, a);
  }

  /** A pair of half vectors, against the weights of one more coordinate. */
  lemma DotHalves(lo: Vec, hi: Vec, c: int, w: Vec)
    requires |lo| == |hi| == |w|
    ensures Dot(lo + hi, Scale(1 - c, w) + Scale(c, w)) == (1 - c) * Dot(lo, w) + c * Dot(hi, w)
    ensures Dot(Add(Scale(1 - c, lo), Scale(c, hi)), w) == (1 - c) * Dot(lo, w) + c * Dot(hi, w)
  {
    DotConcat(lo, hi, Scale(1 - c, w), Scale(c, w));
    DotScaled(1 - c, w, lo);
    DotScaled(c, w, hi);
    DotAdd(Scale(1 - c, lo), Scale(c, hi), w);
    DotScale(1 - c, lo, w);
    DotScale(c, hi, w);
  }

  lemma PlainFoldDot(plain: Vec, c: int, w: Vec)
    requires |plain| == 2 * |w|
    ensures Dot(PlainFold(plain, c), w) == Dot(plain, Scale(1 - c, w) + Scale(c, w))
  {
    var lo, hi := plain[..|w|], plain[|w|..];
    assert plain[|w|..2 * |w|] == hi && plain == lo + hi;
    DotHalves(lo, hi, c, w);
  }

  lemma {:induction false} FoldIsDot(table: Vec, plain: Vec, point: Vec, p: nat)
    requires p > 0 && SameResidues(table, plain, p) && |table| == Pow2(|point|)
    ensures FoldTable(table, point, p) % p == Dot(plain, Weights(point)) % p
    decreases |point|
  {
    if |point| == 0 {
      assert Dot(plain[1..], Weights(point)[1..]) == 0;
    } else {
      FoldResidues(table, plain, point[0], p);
      FoldIsDot(FoldOnce(table, point[0], p), PlainFold(plain, point[0]), point[1..], p);
      PlainFoldDot(plain, point[0], Weights(point[1..]));
    }
  }

  lemma {:induction false} FoldIsReduced(table: Vec, point: Vec, p: nat)
    requires p > 0 && |table| == Pow2(|point|)
    requires forall i :: 0 <= i < |table| ==> 0 <= table[i] < p
    ensures 0 <= FoldTable(table, point, p) < p
    decreases |point|
  {
    if |point| > 0 {
      FoldIsReduced(FoldOnce(table, point[0], p), point[1..], p);
    }
  }

  /** Fold correctness: the halving loop computes the multilinear extension,
      the sum over all indices of value times the product of eqs, modulo p. */
  lemma MleIsExtension(values: Vec, point: Vec, p: nat)
    requires p > 0 && |values| == Pow2(|point|) && IsPoint(point, p)
    ensures Mle(values, point, p) == Value(EqSum(values, point, |values|) % p)
    ensures Mle(values, point, p) == Value(Dot(values, Weights(point)) % p)
  {
    var table := Reduce(values, p);
    forall i | 0 <= i < |values|
      ensures table[i] % p == values[i] % p
    {
      ModOfMod(values[i], p);
    }
    FoldIsDot(table, values, point, p);
    FoldIsReduced(table, point, p);
    ModUnique(FoldTable(table, point, p), 0, FoldTable(table, point, p), p);
    ExtensionIsEqSum(values, point);
  }

  // ----------------------------------------------------------------- matrices

  function Flatten(m: Matrix): Vec {
    if |m| == 0 then [] else m[0] + Flatten(m[1..])
  }

  function Column(m: Matrix, n: nat, j: nat): (c: Vec)
    requires Rect(m, |m|, n) && j < n
    ensures |c| == |m|
  {
    seq(|m|, i requires 0 <= i < |m| => m[i][j])
  }

  function Transpose(m: Matrix, n: nat): (t: Matrix)
    requires Rect(m, |m|, n)
    ensures Rect(t, n, |m|)
  {
    seq(n, j requires 0 <= j < n => Column(m, n, j))
  }

  /** M·y */
  function MatVec(m: Matrix, y: Vec): (r: Vec)
    requires Rect(m, |m|, |y|)
    ensures |r| == |m|
  {
    seq(|m|, i requires 0 <= i < |m| => Dot(m[i], y))
  }

  /** u·M */
  function VecMat(u: Vec, m: Matrix, n: nat): (r: Vec)
    requires Rect(m, |u|, n)
    ensures |r| == n
    decreases |u|
  {
    if |u| == 0 then ZeroVec(n) else Add(Scale(u[0], m[0]), VecMat(u[1..], m[1..], n))
  }

  /** X·W, entry by entry. */
  function Product(x: Matrix, w: Matrix, n: nat): (q: Matrix)
    requires Rect(w, |w|, n) && Rect(x, |x|, |w|)
    ensures Rect(q, |x|, n)
  {
    seq(|x|, i requires 0 <= i < |x| => seq(n, j requires 0 <= j < n => Dot(x[i], Column(w, n, j))))
  }

  lemma {:induction false} VecMatColumn(u: Vec, m: Matrix, n: nat, j: nat)
    requires Rect(m, |u|, n) && j < n
    ensures VecMat(u, m, n)[j] == Dot(u, Column(m, n, j))
    decreases |u|
  {
    if |u| > 0 {
      VecMatColumn(u[1..], m[1..], n, j);
      assert Column(m, n, j)[1..] == Column(m[1..], n, j);
    }
  }

  /** (u·M)·y == u·(M·y) */
  lemma {:induction false} Adjoint(u: Vec, m: Matrix, y: Vec)
    requires Rect(m, |u|, |y|)
    ensures Dot(VecMat(u, m, |y|), y) == Dot(u, MatVec(m, y))
    decreases |u|
  {
    if |u| == 0 {
      DotZero(y);
    } else {
      Adjoint(u[1..], m[1..], y);
      DotAdd(Scale(u[0], m[0]), VecMat(u[1..], m[1..], |y|), y);
      DotScale(u[0], m[0], y);
      assert MatVec(m, y)[1..] == MatVec(m[1..], y);
    }
  }

  lemma {:induction false} FlattenLength(m: Matrix, n: nat)
    requires Rect(m, |m|, n)
    ensures |Flatten(m)| == |m| * n
    decreases |m|
  {
    if |m| > 0 {
      FlattenLength(m[1..], n);
      assert |m| * n == n + (|m| - 1) * n;
    }
  }

  lemma FlattenSplit(a: Matrix, b: Matrix)
    ensures Flatten(a + b) == Flatten(a) + Flatten(b)
    decreases |a|
  {
    if |a| == 0 {
      assert a + b == b;
    } else {
      assert (a + b)[1..] == a[1..] + b;
      FlattenSplit(a[1..], b);
    }
  }

  lemma MatVecConcat(a: Matrix, b: Matrix, y: Vec)
    requires Rect(a, |a|, |y|) && Rect(b, |b|, |y|)
    ensures MatVec(a + b, y) == MatVec(a, y) + MatVec(b, y)
  {
  }

  /** One more row coordinate splits the matrix in two. */
  lemma ExtensionStep(lo: Matrix, hi: Matrix, c: int, u: Vec, w: Vec, y: Vec)
    requires Rect(lo, |u|, |y|) && Rect(hi, |u|, |y|)
    requires |Flatten(lo)| == |Flatten(hi)| == |w|
    requires Dot(Flatten(lo), w) == Dot(u, MatVec(lo, y))
    requires Dot(Flatten(hi), w) == Dot(u, MatVec(hi, y))
    ensures |Flatten(lo + hi)| == 2 * |w|
    ensures Dot(Flatten(lo + hi), Scale(1 - c, w) + Scale(c, w))
         == Dot(Scale(1 - c, u) + Scale(c, u), MatVec(lo + hi, y))
  {
    FlattenSplit(lo, hi);
    MatVecConcat(lo, hi, y);
    DotHalves(Flatten(lo), Flatten(hi), c, w);
    DotHalves(MatVec(lo, y), MatVec(hi, y), c, u);
    DotCommutes(MatVec(lo, y), u);
    DotCommutes(MatVec(hi, y), u);
    DotCommutes(MatVec(lo, y) + MatVec(hi, y), Scale(1 - c, u) + Scale(c, u));
  }

  lemma OneRowExtension(m: Matrix, y: Vec)
    requires Rect(m, 1, |y|)
    ensures Flatten(m) == m[0]
    ensures Dot(m[0], y) == Dot([1], MatVec(m, y))
  {
    assert Flatten(m[1..]) == [];
    assert MatVec(m, y) == [Dot(m[0], y)];
    assert Dot([], []) == 0;
  }

  /** The extension of a row-major matrix at a row point and a column point is
      the bilinear form of the two weight vectors. */
  lemma {:induction false} MatrixExtension(m: Matrix, rows: Vec, columns: Vec)
    requires Rect(m, Pow2(|rows|), Pow2(|columns|))
    ensures |Flatten(m)| == Pow2(|rows + columns|)
    ensures Dot(Flatten(m), Weights(rows + columns)) == Dot(Weights(rows), MatVec(m, Weights(columns)))
    decreases |rows|
  {
    hide Dot, MatVec, Flatten;
    if |rows| == 0 {
      assert rows + columns == columns;
      OneRowExtension(m, Weights(columns));
    } else {
      var half, rest := Pow2(|rows| - 1), rows[1..];
      var lo, hi := m[..half], m[half..];
      assert m == lo + hi;
      assert (rows + columns)[1..] == rest + columns;
      MatrixExtension(lo, rest, columns);
      MatrixExtension(hi, rest, columns);
      ExtensionStep(lo, hi, rows[0], Weights(rest), Weights(rest + columns), Weights(columns));
    }
  }

  lemma VecMatIsTransposed(u: Vec, m: Matrix, n: nat)
    requires Rect(m, |u|, n)
    ensures VecMat(u, m, n) == MatVec(Transpose(m, n), u)
  {
    forall j | 0 <= j < n
      ensures VecMat(u, m, n)[j] == MatVec(Transpose(m, n), u)[j]
    {
      VecMatColumn(u, m, n, j);
      DotCommutes(u, Column(m, n, j));
    }
  }

  /** Transposing the matrix and swapping the point halves changes nothing. */
  lemma TransposedExtension(m: Matrix, rows: Vec, columns: Vec)
    requires Rect(m, Pow2(|rows|), Pow2(|columns|))
    ensures var t := Transpose(m, Pow2(|columns|));
            && |Flatten(m)| == Pow2(|rows + columns|) && |Flatten(t)| == Pow2(|columns + rows|)
            && Dot(Flatten(t), Weights(columns + rows)) == Dot(Flatten(m), Weights(rows + columns))
  {
    var u, y := Weights(rows), Weights(columns);
    var t := Transpose(m, |y|);
    MatrixExtension(m, rows, columns);
    MatrixExtension(t, columns, rows);
    Adjoint(u, m, y);
    VecMatIsTransposed(u, m, |y|);
    DotCommutes(VecMat(u, m, |y|), y);
  }

  // ------------------------------------------------------------- native path

  /** Coordinates of the rows and of the columns of a point. */
  function Log2(n: nat): nat {
    if n <= 1 then 0 else 1 + Log2(n / 2)
  }

  lemma {:induction false} PowerOfTwoLog(n: nat)
    requires CapacityEncoding.PowerOfTwo(n)
    ensures Pow2(Log2(n)) == n
  {
    if n > 1 {
      PowerOfTwoLog(n / 2);
    }
  }

  /** `_matrix_mle_evaluate`, the fallback. */
  function MatrixMle(m: Matrix, point: Vec, p: nat): MleResult
    requires p > 0
  {
    Mle(Flatten(m), point, p)
  }

  /** `_matrix_i8_mle_evaluate_native`; the foreign row-major evaluation of the
      int8 matrix is taken to be the extension itself. */
  function NativeMle(m: Matrix, n: nat, point: Vec, p: nat): MleResult
    requires p > 0 && Rect(m, |m|, n)
  {
    if |m| == 0 || n == 0 then BadMatrix
    else if !CapacityEncoding.PowerOfTwo(|m|) || !CapacityEncoding.PowerOfTwo(n) then BadMatrix
    else if |point| != Log2(|m|) + Log2(n) then SizeMismatch
    else if !IsPoint(point, p) then BadCoordinate
    else
      var rowPoint, columnPoint := point[..Log2(|m|)], point[Log2(|m|)..];
      var (values, foreignPoint) :=
        if |m| > n then (Transpose(m, n), columnPoint + rowPoint) else (m, rowPoint + columnPoint);
      if !Int8(m) then ValueOutOfRange
      else MatrixMle(values, foreignPoint, p)
  }

  lemma SwappedHalves(m: Matrix, rows: Vec, columns: Vec, p: nat)
    requires p > 0 && Rect(m, Pow2(|rows|), Pow2(|columns|))
    requires IsPoint(rows, p) && IsPoint(columns, p)
    ensures MatrixMle(Transpose(m, Pow2(|columns|)), columns + rows, p) == MatrixMle(m, rows + columns, p)
  {
    TransposedExtension(m, rows, columns);
    MleIsExtension(Flatten(m), rows + columns, p);
    MleIsExtension(Flatten(Transpose(m, Pow2(|columns|))), columns + rows, p);
  }

  /** On every int8 matrix and point the native path, transposing or not, gives
      what the fallback gives, errors included when the sides are powers of two;
      both refuse every other matrix. */
  lemma NativeRefinesFallback(m: Matrix, n: nat, point: Vec, p: nat)
    requires p > 0 && Rect(m, |m|, n) && Int8(m)
    ensures if CapacityEncoding.PowerOfTwo(|m|) && CapacityEncoding.PowerOfTwo(n)
            then NativeMle(m, n, point, p) == MatrixMle(m, point, p)
            else !NativeMle(m, n, point, p).Value? && !MatrixMle(m, point, p).Value?
  {
    hide Flatten, Transpose, FoldTable, Reduce, Log2;
    FlattenLength(m, n);
    if CapacityEncoding.PowerOfTwo(|m|) && CapacityEncoding.PowerOfTwo(n) {
      NativeOnPowers(m, n, point, p);
    } else if |m| * n == Pow2(|point|) {
      FactorsOfPower(|m|, n, |point|);
    }
  }

  lemma NativeOnPowers(m: Matrix, n: nat, point: Vec, p: nat)
    requires p > 0 && Rect(m, |m|, n) && Int8(m)
    requires CapacityEncoding.PowerOfTwo(|m|) && CapacityEncoding.PowerOfTwo(n)
    ensures NativeMle(m, n, point, p) == MatrixMle(m, point, p)
  {
    hide Flatten, Transpose, FoldTable, Reduce, Log2;
    var a, b := Log2(|m|), Log2(n);
    PowerOfTwoLog(|m|);
    PowerOfTwoLog(n);
    FlattenLength(m, n);
    Pow2Sum(a, b);
    Pow2Injective(a + b, |point|);
    if |point| == a + b && IsPoint(point, p) {
      assert point == point[..a] + point[a..];
      SwappedHalves(m, point[..a], point[a..], p);
    }
  }

  lemma OddProduct(x: nat, y: nat)
    ensures (2 * x + 1) * (2 * y + 1) % 2 == 1
  {
    assert (2 * x + 1) * (2 * y + 1) == 2 * (2 * x * y + x + y) + 1;
  }

  lemma HalfProduct(a: nat, b: nat)
    requires a % 2 == 0
    ensures a * b == 2 * (a / 2 * b)
  {
    assert a == 2 * (a / 2);
  }

  /** The factors of a power of two are powers of two. */
  lemma {:induction false} FactorsOfPower(a: nat, b: nat, k: nat)
    requires a * b == Pow2(k)
    ensures CapacityEncoding.PowerOfTwo(a) && CapacityEncoding.PowerOfTwo(b)
    decreases k
  {
    assert a > 0 && b > 0;
    if k == 0 {
      MulOrder(1, a, b);
      MulOrder(1, b, a);
    } else {
      OddProduct(a / 2, b / 2);
      assert a % 2 == 0 || b % 2 == 0;
      if a % 2 == 0 {
        HalfProduct(a, b);
        FactorsOfPower(a / 2, b, k - 1);
      } else {
        HalfProduct(b, a);
        FactorsOfPower(b / 2, a, k - 1);
      }
    }
  }

  lemma {:induction false} Pow2Injective(a: nat, b: nat)
    ensures Pow2(a) == Pow2(b) ==> a == b
    decreases a
  {
    if a > 0 && b > 0 {
      Pow2Injective(a - 1, b - 1);
    }
  }

  // -------------------------------------------------------- the GEMM relation

  /** The point of the hypercube that index k names, top bit first. */
  function Bits(k: nat, n: nat): (b: Vec)
    ensures |b| == n
    decreases n
  {
    if n == 0 then []
    else
      var half := Pow2(n - 1);
      if k < half then [0] + Bits(k, n - 1) else [1] + Bits(k - half, n - 1)
  }

  function Unit(k: nat, n: nat): (u: Vec)
    ensures |u| == n
  {
    seq(n, i => if i == k then 1 else 0)
  }

  lemma {:induction false} WeightsOfBits(k: nat, n: nat)
    requires k < Pow2(n)
    ensures Weights(Bits(k, n)) == Unit(k, Pow2(n))
    decreases n
  {
    if n > 0 {
      var half, b := Pow2(n - 1), Bits(k, n);
      var low := if k < half then k else k - half;
      assert b[1..] == Bits(low, n - 1);
      WeightsOfBits(low, n - 1);
    }
  }

  lemma {:induction false} DotUnit(a: Vec, k: nat)
    requires k < |a|
    ensures Dot(a, Unit(k, |a|)) == a[k] && Dot(Unit(k, |a|), a) == a[k]
    decreases |a|
  {
    var u := Unit(k, |a|);
    DotCommutes(a, u);
    if k == 0 {
      assert u[1..] == ZeroVec(|a| - 1);
      DotZero(a[1..]);
    } else {
      assert u[1..] == Unit(k - 1, |a| - 1);
      DotUnit(a[1..], k - 1);
    }
  }

  /** X at a row point and an inner vertex; W at an inner vertex and a column
      point. */
  lemma AtVertex(x: Matrix, w: Matrix, rows: Vec, columns: Vec, inner: nat, k: nat)
    requires Rect(x, Pow2(|rows|), Pow2(inner)) && Rect(w, Pow2(inner), Pow2(|columns|))
    requires k < Pow2(inner)
    ensures |Flatten(x)| == Pow2(|rows + Bits(k, inner)|) && |Flatten(w)| == Pow2(|Bits(k, inner) + columns|)
    ensures Dot(Flatten(x), Weights(rows + Bits(k, inner))) == VecMat(Weights(rows), x, Pow2(inner))[k]
    ensures Dot(Flatten(w), Weights(Bits(k, inner) + columns)) == MatVec(w, Weights(columns))[k]
  {
    var e, u := Bits(k, inner), Weights(rows);
    WeightsOfBits(k, inner);
    MatrixExtension(x, rows, e);
    MatrixExtension(w, e, columns);
    Adjoint(u, x, Weights(e));
    DotUnit(VecMat(u, x, Pow2(inner)), k);
    DotUnit(MatVec(w, Weights(columns)), k);
  }

  /** The sum over the first n inner vertices of X(r, k)·W(k, c). */
  function InnerSum(x: Matrix, w: Matrix, rows: Vec, columns: Vec, inner: nat, n: nat): int
    requires Rect(x, Pow2(|rows|), Pow2(inner)) && Rect(w, Pow2(inner), Pow2(|columns|))
    requires n <= Pow2(inner)
  {
    if n == 0 then 0
    else
      AtVertex(x, w, rows, columns, inner, n - 1);
      InnerSum(x, w, rows, columns, inner, n - 1)
      + Dot(Flatten(x), Weights(rows + Bits(n - 1, inner))) * Dot(Flatten(w), Weights(Bits(n - 1, inner) + columns))
  }

  lemma DotSnoc(a: Vec, b: Vec, n: nat)
    requires |a| == |b| && 0 < n <= |a|
    ensures Dot(a[..n], b[..n]) == Dot(a[..n - 1], b[..n - 1]) + a[n - 1] * b[n - 1]
  {
    assert a[..n] == a[..n - 1] + [a[n - 1]] && b[..n] == b[..n - 1] + [b[n - 1]];
    DotConcat(a[..n - 1], [a[n - 1]], b[..n - 1], [b[n - 1]]);
  }

  lemma InnerSumStep(x: Matrix, w: Matrix, rows: Vec, columns: Vec, inner: nat, n: nat)
    requires Rect(x, Pow2(|rows|), Pow2(inner)) && Rect(w, Pow2(inner), Pow2(|columns|))
    requires 0 < n <= Pow2(inner)
    ensures InnerSum(x, w, rows, columns, inner, n) == InnerSum(x, w, rows, columns, inner, n - 1)
              + VecMat(Weights(rows), x, Pow2(inner))[n - 1] * MatVec(w, Weights(columns))[n - 1]
  {
    AtVertex(x, w, rows, columns, inner, n - 1);
  }

  lemma {:induction false} InnerSumIsDot(x: Matrix, w: Matrix, rows: Vec, columns: Vec, inner: nat, n: nat)
    requires Rect(x, Pow2(|rows|), Pow2(inner)) && Rect(w, Pow2(inner), Pow2(|columns|))
    requires n <= Pow2(inner)
    ensures InnerSum(x, w, rows, columns, inner, n)
         == Dot(VecMat(Weights(rows), x, Pow2(inner))[..n], MatVec(w, Weights(columns))[..n])
    decreases n
  {
    hide VecMat, MatVec, Weights, Flatten;
    if n > 0 {
      InnerSumIsDot(x, w, rows, columns, inner, n - 1);
      InnerSumStep(x, w, rows, columns, inner, n);
      DotSnoc(VecMat(Weights(rows), x, Pow2(inner)), MatVec(w, Weights(columns)), n);
    }
  }

  lemma ProductVec(x: Matrix, w: Matrix, y: Vec)
    requires Rect(w, |w|, |y|) && Rect(x, |x|, |w|)
    ensures MatVec(Product(x, w, |y|), y) == MatVec(x, MatVec(w, y))
  {
    forall i | 0 <= i < |x|
      ensures Dot(Product(x, w, |y|)[i], y) == Dot(x[i], MatVec(w, y))
    {
      var line := VecMat(x[i], w, |y|);
      forall j | 0 <= j < |y|
        ensures Product(x, w, |y|)[i][j] == line[j]
      {
        VecMatColumn(x[i], w, |y|, j);
      }
      assert Product(x, w, |y|)[i] == line;
      Adjoint(x[i], w, y);
    }
  }

  /** The extension of a product is the sum over the inner hypercube of the
      products of the factors' extensions. */
  lemma ProductExtension(x: Matrix, w: Matrix, rows: Vec, columns: Vec, inner: nat)
    requires Rect(x, Pow2(|rows|), Pow2(inner)) && Rect(w, Pow2(inner), Pow2(|columns|))
    ensures var q := Product(x, w, Pow2(|columns|));
            && |Flatten(q)| == Pow2(|rows + columns|)
            && Dot(Flatten(q), Weights(rows + columns)) == InnerSum(x, w, rows, columns, inner, Pow2(inner))
  {
    var u, y := Weights(rows), Weights(columns);
    var q := Product(x, w, |y|);
    MatrixExtension(q, rows, columns);
    ProductVec(x, w, y);
    Adjoint(u, x, MatVec(w, y));
    InnerSumIsDot(x, w, rows, columns, inner, Pow2(inner));
    var a, b := VecMat(u, x, Pow2(inner)), MatVec(w, y);
    assert a[..Pow2(inner)] == a && b[..Pow2(inner)] == b;
  }

  // ------------------------------------------------------------------ padding

  /** `_next_power_of_two` */
  function NextPow2(n: nat): nat
    requires n > 0
  {
    Pow2(BitLength(n - 1))
  }

  function BitLength(n: nat): nat {
    if n == 0 then 0 else 1 + BitLength(n / 2)
  }

  lemma {:induction false} BitLengthBounds(n: nat)
    ensures n < Pow2(BitLength(n))
    ensures n > 0 ==> Pow2(BitLength(n)) <= 2 * n
  {
    if n > 0 {
      BitLengthBounds(n / 2);
    }
  }

  /** The padded inner dimension is the least power of two that is not below
      the matrix dimension. */
  lemma PaddedInner(n: nat)
    requires n > 1
    ensures n <= NextPow2(n) < 2 * n
  {
    BitLengthBounds(n - 1);
  }

  /** `_pad_inner_bands` */
  function PadX(x: Matrix, padding: nat): (r: Matrix)
    ensures |r| == |x|
    ensures forall i :: 0 <= i < |x| ==> r[i] == x[i] + ZeroVec(padding)
  {
    seq(|x|, i requires 0 <= i < |x| => x[i] + ZeroVec(padding))
  }

  function PadW(w: Matrix, n: nat, padding: nat): (r: Matrix)
    ensures |r| == |w| + padding
  {
    w + seq(padding, _ => ZeroVec(n))
  }

  lemma PaddedShapes(x: Matrix, w: Matrix, n: nat, padding: nat)
    requires Rect(w, |w|, n) && Rect(x, |x|, |w|)
    ensures Rect(PadW(w, n, padding), |w| + padding, n) && Rect(PadX(x, padding), |x|, |w| + padding)
  {
    var px := PadX(x, padding);
    forall i | 0 <= i < |px|
      ensures |px[i]| == |w| + padding
    {
      assert |x[i]| == |w|;
    }
  }

  lemma PaddedEntry(row: Vec, w: Matrix, n: nat, padding: nat, j: nat)
    requires Rect(w, |w|, n) && |row| == |w| && j < n
    requires Rect(PadW(w, n, padding), |w| + padding, n)
    ensures Dot(row + ZeroVec(padding), Column(PadW(w, n, padding), n, j)) == Dot(row, Column(w, n, j))
  {
    assert Column(PadW(w, n, padding), n, j) == Column(w, n, j) + ZeroVec(padding);
    DotConcat(row, ZeroVec(padding), Column(w, n, j), ZeroVec(padding));
    DotZero(ZeroVec(padding));
  }

  /** Zero-padding the inner dimension keeps the product. */
  lemma PaddingKeepsProduct(x: Matrix, w: Matrix, n: nat, padding: nat)
    requires Rect(w, |w|, n) && Rect(x, |x|, |w|)
    ensures Rect(PadW(w, n, padding), |w| + padding, n) && Rect(PadX(x, padding), |x|, |w| + padding)
    ensures Product(PadX(x, padding), PadW(w, n, padding), n) == Product(x, w, n)
  {
    PaddedShapes(x, w, n, padding);
    var px, pw := PadX(x, padding), PadW(w, n, padding);
    forall i | 0 <= i < |x|
      ensures Product(px, pw, n)[i] == Product(x, w, n)[i]
    {
      forall j | 0 <= j < n
        ensures Product(px, pw, n)[i][j] == Product(x, w, n)[i][j]
      {
        PaddedEntry(x[i], w, n, padding, j);
      }
    }
  }

  /** The sum over the padded inner cube of the padded bands' extensions. */
  function PaddedSum(x: Matrix, w: Matrix, rows: Vec, columns: Vec): int
    requires |w| > 1
    requires Rect(x, Pow2(|rows|), |w|) && Rect(w, |w|, Pow2(|columns|))
  {
    var n, inner := Pow2(|columns|), BitLength(|w| - 1);
    PaddedInner(|w|);
    var padding := NextPow2(|w|) - |w|;
    PaddedShapes(x, w, n, padding);
    InnerSum(PadX(x, padding), PadW(w, n, padding), rows, columns, inner, Pow2(inner))
  }

  lemma PaddedProductExtension(x: Matrix, w: Matrix, rows: Vec, columns: Vec)
    requires |w| > 1
    requires Rect(x, Pow2(|rows|), |w|) && Rect(w, |w|, Pow2(|columns|))
    ensures |Flatten(Product(x, w, Pow2(|columns|)))| == Pow2(|rows + columns|)
    ensures Dot(Flatten(Product(x, w, Pow2(|columns|))), Weights(rows + columns)) == PaddedSum(x, w, rows, columns)
  {
    var n := Pow2(|columns|);
    PaddedInner(|w|);
    var padding := NextPow2(|w|) - |w|;
    PaddingKeepsProduct(x, w, n, padding);
    ProductExtension(PadX(x, padding), PadW(w, n, padding), rows, columns, BitLength(|w| - 1));
  }

  /** The GEMM relation behind the terminal checks. When the Q block is the
      product of the unpadded bands, its folded evaluation at (r, c) is, modulo
      p, the sum over the padded inner cube of the bands' extensions. */
  lemma GemmRelation(x: Matrix, w: Matrix, rows: Vec, columns: Vec, p: nat)
    requires p > 0 && |w| > 1 && IsPoint(rows, p) && IsPoint(columns, p)
    requires Rect(x, Pow2(|rows|), |w|) && Rect(w, |w|, Pow2(|columns|))
    ensures MatrixMle(Product(x, w, Pow2(|columns|)), rows + columns, p)
         == Value(PaddedSum(x, w, rows, columns) % p)
  {
    PaddedProductExtension(x, w, rows, columns);
    MleIsExtension(Flatten(Product(x, w, Pow2(|columns|))), rows + columns, p);
  }

  // -------------------------------------------------------------------- range

  lemma TermBound(a: int, b: int)
    requires -128 <= a <= 127 && -128 <= b <= 127
    ensures -16256 <= a * b <= 16384
    ensures a * b == 16384 ==> a == -128 && b == -128
  {
    if a >= 0 {
      MulOrder(-128, b, a);
      MulOrder(b, 127, a);
    } else {
      MulOrder(-128, b, -a);
      MulOrder(b, 127, -a);
    }
  }

  predicate AllLowest(a: Vec) {
    forall i :: 0 <= i < |a| ==> a[i] == -128
  }

  lemma {:induction false} DotBound(a: Vec, b: Vec)
    requires |a| == |b| && WithinRow(a, -128, 127) && WithinRow(b, -128, 127)
    ensures -16256 * |a| <= Dot(a, b) <= 16384 * |a|
    ensures Dot(a, b) == 16384 * |a| <==> (AllLowest(a) && AllLowest(b))
    decreases |a|
  {
    if |a| > 0 {
      TermBound(a[0], b[0]);
      DotBound(a[1..], b[1..]);
      if AllLowest(a[1..]) && AllLowest(b[1..]) && a[0] == b[0] == -128 {
        assert a == [a[0]] + a[1..] && b == [b[0]] + b[1..];
      }
    }
  }

  /** Up to the largest matrix dimension an entry of the product leaves the i32
      range demanded of Q only in one case: the dimension is 2^17 and every
      factor is -128. */
  lemma EntryFitsExactly(a: Vec, b: Vec)
    requires |a| == |b| <= CapacityEncoding.MAX_MATRIX_DIM
    requires WithinRow(a, -128, 127) && WithinRow(b, -128, 127)
    ensures -0x8000_0000 <= Dot(a, b) <= 0x7FFF_FFFF
       <==> !(|a| == CapacityEncoding.MAX_MATRIX_DIM && AllLowest(a) && AllLowest(b))
  {
    DotBound(a, b);
  }

  lemma ProductFits(x: Matrix, w: Matrix, n: nat)
    requires Rect(w, |w|, n) && Rect(x, |x|, |w|) && Int8(x) && Int8(w)
    requires |w| < CapacityEncoding.MAX_MATRIX_DIM
    ensures Int32(Product(x, w, n))
  {
    var q := Product(x, w, n);
    forall i, j | 0 <= i < |x| && 0 <= j < n
      ensures -0x8000_0000 <= q[i][j] <= 0x7FFF_FFFF
    {
      var c := Column(w, n, j);
      assert WithinRow(x[i], -128, 127);
      forall k | 0 <= k < |c|
        ensures -128 <= c[k] <= 127
      {
        assert WithinRow(w[k], -128, 127);
      }
      EntryFitsExactly(x[i], c);
    }
    forall i | 0 <= i < |x|
      ensures WithinRow(q[i], -0x8000_0000, 0x7FFF_FFFF)
    {
    }
  }

  /** At dimension 2^17 the all-lowest bands have no admissible Q. */
  lemma OverflowAtLimit()
    ensures var a := seq(CapacityEncoding.MAX_MATRIX_DIM, _ => -128);
            WithinRow(a, -128, 127) && Dot(a, a) == 0x8000_0000
  {
    var a := seq(CapacityEncoding.MAX_MATRIX_DIM, _ => -128);
    DotBound(a, a);
  }
}
