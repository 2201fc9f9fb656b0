/** The tree object: one flat node list with level offsets, built from leaf
    hashes or restored from its serialized nodes. The Q tree and the A/B state
    tree run the same code with different node tags. */
module WorkspaceTree {
  import opened ByteStrings
  import opened MerkleTree

  // ------------------------------------------------------------------ layout

  function SizeAt(n: nat, k: nat): nat {
    if k == 0 then n else Half(SizeAt(n, k - 1))
  }

  function OffsetAt(n: nat, k: nat): nat {
    if k == 0 then 0 else OffsetAt(n, k - 1) + SizeAt(n, k - 1)
  }

  function IndexAt(i: nat, k: nat): nat {
    if k == 0 then i else IndexAt(i, k - 1) / 2
  }

  function LevelSizes(n: nat): seq<nat> {
    seq(Height(n) + 1, k requires 0 <= k => SizeAt(n, k))
  }

  function LevelOffsets(n: nat): seq<nat> {
    seq(Height(n) + 1, k requires 0 <= k => OffsetAt(n, k))
  }

  function NodeCount(n: nat): nat {
    OffsetAt(n, Height(n) + 1)
  }

  /** Levels 0 to k, one after the other. */
  function FlatUpTo(h: HashFn, tag: Bytes, leaves: seq<Bytes>, k: nat): seq<Bytes> {
    if k == 0 then leaves else FlatUpTo(h, tag, leaves, k - 1) + LevelAt(h, tag, leaves, k)
  }

  function Flat(h: HashFn, tag: Bytes, leaves: seq<Bytes>): seq<Bytes> {
    FlatUpTo(h, tag, leaves, Height(|leaves|))
  }

  lemma {:induction false} SizeHeight(n: nat, k: nat)
    requires k <= Height(n)
    ensures Height(SizeAt(n, k)) == Height(n) - k
    ensures n > 0 ==> SizeAt(n, k) > 0
  {
    if k > 0 {
      SizeHeight(n, k - 1);
    }
  }

  lemma {:induction false} LevelAtSize(h: HashFn, tag: Bytes, leaves: seq<Bytes>, k: nat)
    ensures |LevelAt(h, tag, leaves, k)| == SizeAt(|leaves|, k)
  {
    if k > 0 {
      LevelAtSize(h, tag, leaves, k - 1);
      LevelAtStep(h, tag, leaves, k - 1);
    }
  }

  lemma {:induction false} OffsetsGrow(n: nat, j: nat, k: nat)
    requires j <= k
    ensures OffsetAt(n, j) <= OffsetAt(n, k)
  {
    if j < k {
      OffsetsGrow(n, j, k - 1);
    }
  }

  /** Layout: level k occupies its size from its offset on. */
  lemma {:induction false} Layout(h: HashFn, tag: Bytes, leaves: seq<Bytes>, j: nat, k: nat)
    requires k <= j
    ensures |FlatUpTo(h, tag, leaves, j)| == OffsetAt(|leaves|, j + 1)
    ensures OffsetAt(|leaves|, k + 1) <= OffsetAt(|leaves|, j + 1)
    ensures FlatUpTo(h, tag, leaves, j)[OffsetAt(|leaves|, k)..OffsetAt(|leaves|, k + 1)] == LevelAt(h, tag, leaves, k)
  {
    LevelAtSize(h, tag, leaves, j);
    OffsetsGrow(|leaves|, k + 1, j + 1);
    if j > 0 {
      var before := FlatUpTo(h, tag, leaves, j - 1);
      if k < j {
        Layout(h, tag, leaves, j - 1, k);
        assert FlatUpTo(h, tag, leaves, j)[..|before|] == before;
      } else {
        Layout(h, tag, leaves, j - 1, j - 1);
      }
    }
  }

  lemma FlatIsFull(h: HashFn, tag: Bytes, leaves: seq<Bytes>)
    ensures |Flat(h, tag, leaves)| == NodeCount(|leaves|)
  {
    Layout(h, tag, leaves, Height(|leaves|), 0);
  }

  /** The last node is the root. */
  lemma LastNodeIsRoot(h: HashFn, tag: Bytes, leaves: seq<Bytes>)
    requires |leaves| > 0
    ensures |Flat(h, tag, leaves)| > 0
    ensures Flat(h, tag, leaves)[|Flat(h, tag, leaves)| - 1] == Root(h, tag, leaves)
  {
    var top := Height(|leaves|);
    Layout(h, tag, leaves, top, top);
    LevelAtFacts(h, tag, leaves, top);
    LevelAtSize(h, tag, leaves, top);
    var level := LevelAt(h, tag, leaves, top);
    assert |level| == 1;
    assert level[0] == Flat(h, tag, leaves)[OffsetAt(|leaves|, top)..OffsetAt(|leaves|, top + 1)][0];
  }

  // ------------------------------------------------------------------- paths

  /** Where `get_path` reads the sibling of a node: the other child, or the node
      itself when it has none. */
  function SiblingIndex(size: nat, i: nat): nat {
    if i % 2 == 1 then i - 1 else if i + 1 >= size then i else i + 1
  }

  lemma {:induction false} IndexInLevel(n: nat, i: nat, k: nat)
    requires i < n
    ensures IndexAt(i, k) < SizeAt(n, k)
    ensures SiblingIndex(SizeAt(n, k), IndexAt(i, k)) < SizeAt(n, k)
  {
    if k > 0 {
      IndexInLevel(n, i, k - 1);
    }
  }

  lemma SiblingInNodes(n: nat, i: nat, k: nat)
    requires i < n && k <= Height(n)
    ensures OffsetAt(n, k) + SiblingIndex(SizeAt(n, k), IndexAt(i, k)) < NodeCount(n)
  {
    IndexInLevel(n, i, k);
    OffsetsGrow(n, k + 1, Height(n) + 1);
  }

  function PathStep(nodes: seq<Bytes>, n: nat, i: nat, k: nat): Step
    requires i < n && |nodes| == NodeCount(n) && k <= Height(n)
  {
    SiblingInNodes(n, i, k);
    (nodes[OffsetAt(n, k) + SiblingIndex(SizeAt(n, k), IndexAt(i, k))], IndexAt(i, k) % 2 == 1)
  }

  /** The path read out of any node list of the right length. */
  function PathIn(nodes: seq<Bytes>, n: nat, i: nat): (path: seq<Step>)
    requires i < n && |nodes| == NodeCount(n)
    ensures |path| == Height(n)
  {
    seq(Height(n), k requires 0 <= k < Height(n) => PathStep(nodes, n, i, k))
  }

  lemma {:induction false} IndexShift(i: nat, k: nat)
    requires k > 0
    ensures IndexAt(i, k) == IndexAt(i / 2, k - 1)
  {
    if k > 1 {
      IndexShift(i, k - 1);
    }
  }

  lemma {:induction false} PathStepHonest(h: HashFn, tag: Bytes, level: seq<Bytes>, i: nat, k: nat)
    requires i < |level| && k < Height(|level|)
    ensures var up, j := LevelAt(h, tag, level, k), IndexAt(i, k);
            j < |up| && Path(h, tag, level, i)[k] == (up[SiblingIndex(|up|, j)], j % 2 == 1)
    decreases k
  {
    if k > 0 {
      var next := NextLevel(h, tag, level);
      PathStepHonest(h, tag, next, i / 2, k - 1);
      IndexShift(i, k);
      assert Path(h, tag, level, i)[1..] == Path(h, tag, next, i / 2);
    }
  }

  /** `get_path` on the nodes of an honest tree is the opening of that leaf. */
  lemma HonestPathIn(h: HashFn, tag: Bytes, leaves: seq<Bytes>, i: nat)
    requires i < |leaves|
    ensures |Flat(h, tag, leaves)| == NodeCount(|leaves|)
    ensures PathIn(Flat(h, tag, leaves), |leaves|, i) == Path(h, tag, leaves, i)
  {
    var n, nodes := |leaves|, Flat(h, tag, leaves);
    FlatIsFull(h, tag, leaves);
    forall k | 0 <= k < Height(n)
      ensures PathIn(nodes, n, i)[k] == Path(h, tag, leaves, i)[k]
    {
      PathStepHonest(h, tag, leaves, i, k);
      Layout(h, tag, leaves, Height(n), k);
      LevelAtSize(h, tag, leaves, k);
      IndexInLevel(n, i, k);
      var j := SiblingIndex(SizeAt(n, k), IndexAt(i, k));
      assert nodes[OffsetAt(n, k)..OffsetAt(n, k + 1)][j] == nodes[OffsetAt(n, k) + j];
    }
  }

  // ------------------------------------------------------------ serialization

  function JoinNodes(nodes: seq<Bytes>): Bytes {
    if |nodes| == 0 then [] else nodes[0] + JoinNodes(nodes[1..])
  }

  function SplitNodes(flat: Bytes): (nodes: seq<Bytes>)
    ensures |nodes| == |flat| / 32
  {
    seq(|flat| / 32, k requires 0 <= k < |flat| / 32 => flat[32 * k..32 * (k + 1)])
  }

  lemma {:induction false} SplitJoined(nodes: seq<Bytes>)
    requires AllDigests(nodes)
    ensures |JoinNodes(nodes)| == 32 * |nodes|
    ensures SplitNodes(JoinNodes(nodes)) == nodes
  {
    if |nodes| > 0 {
      var rest := JoinNodes(nodes[1..]);
      var flat := JoinNodes(nodes);
      SplitJoined(nodes[1..]);
      forall k | 0 <= k < |nodes|
        ensures SplitNodes(flat)[k] == nodes[k]
      {
        if k > 0 {
          assert flat[32 * k..32 * (k + 1)] == rest[32 * (k - 1)..32 * k];
          assert SplitNodes(rest)[k - 1] == nodes[1..][k - 1];
        }
      }
    }
  }

  lemma FlatDigests(h: HashFn, tag: Bytes, leaves: seq<Bytes>)
    requires Digests(h) && AllDigests(leaves) && |leaves| > 0
    ensures AllDigests(Flat(h, tag, leaves))
  {
    FlatUpToDigests(h, tag, leaves, Height(|leaves|));
  }

  lemma {:induction false} FlatUpToDigests(h: HashFn, tag: Bytes, leaves: seq<Bytes>, k: nat)
    requires Digests(h) && AllDigests(leaves) && |leaves| > 0 && k <= Height(|leaves|)
    ensures AllDigests(FlatUpTo(h, tag, leaves, k))
  {
    if k > 0 {
      FlatUpToDigests(h, tag, leaves, k - 1);
      LevelAtFacts(h, tag, leaves, k);
    }
  }

  // -------------------------------------------------------------------- loops

  method ComputeLevelSizes(numLeaves: nat) returns (sizes: seq<nat>)
    ensures sizes == LevelSizes(numLeaves)
  {
    sizes := [numLeaves];
    var n := numLeaves;
    while n > 1
      invariant |sizes| >= 1 && n == SizeAt(numLeaves, |sizes| - 1)
      invariant Height(n) == Height(numLeaves) - (|sizes| - 1)
      invariant sizes == seq(|sizes|, k requires 0 <= k => SizeAt(numLeaves, k))
    {
      n := (n + 1) / 2;
      sizes := sizes + [n];
    }
    assert |sizes| == Height(numLeaves) + 1;
  }

  method ComputeLevelOffsets(numLeaves: nat) returns (offsets: seq<nat>)
    ensures offsets == LevelOffsets(numLeaves)
  {
    offsets := [0];
    var sizes := ComputeLevelSizes(numLeaves);
    for k := 0 to |sizes| - 1
      invariant offsets == seq(k + 1, j requires 0 <= j => OffsetAt(numLeaves, j))
    {
      assert sizes[k] == SizeAt(numLeaves, k);
      offsets := offsets + [offsets[k] + sizes[k]];
    }
  }

  /** One pass of the pairing loop. */
  method PairUp(h: HashFn, tag: Bytes, level: seq<Bytes>) returns (next: seq<Bytes>)
    ensures next == NextLevel(h, tag, level)
  {
    next := [];
    var idx := 0;
    while idx < |level|
      invariant idx == 2 * |next| && |next| <= Half(|level|)
      invariant forall i :: 0 <= i < |next| ==> next[i] == h(NodeInput(tag, level, i))
    {
      var left := level[idx];
      var right := if idx + 1 < |level| then level[idx + 1] else left;
      next := next + [h(tag + left + right)];
      idx := idx + 2;
    }
  }

  /** `workspace_merkle_root_from_leaves`; the source raises on no leaves. */
  method RootFromLeaves(h: HashFn, tag: Bytes, leaves: seq<Bytes>) returns (root: Bytes)
    requires |leaves| > 0
    ensures root == Root(h, tag, leaves)
  {
    var level := leaves;
    while |level| > 1
      invariant |level| > 0 && Root(h, tag, level) == Root(h, tag, leaves)
      decreases |level|
    {
      level := PairUp(h, tag, level);
    }
    root := level[0];
  }

  class Tree {
    const h: HashFn
    const tag: Bytes
    var numLeaves: nat
    var nodes: seq<Bytes>
    var offsets: seq<nat>

    ghost predicate Valid()
      reads this
    {
      && |nodes| == NodeCount(numLeaves)
      && offsets == LevelOffsets(numLeaves) + [|nodes|]
    }

    /** The source raises on an empty leaf list. */
    constructor (h: HashFn, tag: Bytes, leafHashes: seq<Bytes>)
      requires |leafHashes| > 0
      ensures Valid()
      ensures this.h == h && this.tag == tag && numLeaves == |leafHashes|
      ensures nodes == Flat(h, tag, leafHashes)
    {
      var level, flat, starts := leafHashes, leafHashes, [0];
      ghost var k := 0;
      while |level| > 1
        invariant k <= Height(|leafHashes|) && Height(|level|) == Height(|leafHashes|) - k
        invariant level == LevelAt(h, tag, leafHashes, k)
        invariant flat == FlatUpTo(h, tag, leafHashes, k)
        invariant |flat| == OffsetAt(|leafHashes|, k + 1)
        invariant starts == seq(k + 1, j requires 0 <= j => OffsetAt(|leafHashes|, j))
        decreases |level|
      {
        LevelAtStep(h, tag, leafHashes, k);
        LevelAtSize(h, tag, leafHashes, k + 1);
        starts := starts + [|flat|];
        level := PairUp(h, tag, level);
        flat := flat + level;
        k := k + 1;
      }
      this.h, this.tag, numLeaves := h, tag, |leafHashes|;
      nodes, offsets := flat, starts + [|flat|];
    }

    constructor Restored(h: HashFn, tag: Bytes, numLeaves: nat, nodes: seq<Bytes>, offsets: seq<nat>)
      ensures this.h == h && this.tag == tag
      ensures this.numLeaves == numLeaves && this.nodes == nodes && this.offsets == offsets
    {
      this.h, this.tag := h, tag;
      this.numLeaves, this.nodes, this.offsets := numLeaves, nodes, offsets;
    }

    /** `from_flat_tree`; null where the source raises. A negative count never
        matches the node count. */
    static method FromFlatTree(h: HashFn, tag: Bytes, flat: Bytes, numLeaves: int) returns (t: Tree?)
      ensures t != null <==> numLeaves >= 0 && |flat| == 32 * NodeCount(numLeaves)
      ensures t != null ==> fresh(t) && t.Valid() && t.h == h && t.tag == tag
      ensures t != null ==> t.numLeaves == numLeaves && t.nodes == SplitNodes(flat)
    {
      if numLeaves < 0 {
        return null;
      }
      var sizes := ComputeLevelSizes(numLeaves);
      var expected := 0;
      for k := 0 to |sizes|
        invariant expected == OffsetAt(numLeaves, k)
      {
        expected := expected + sizes[k];
      }
      if |flat| % 32 != 0 || |flat| / 32 != expected {
        return null;
      }
      var offsets := ComputeLevelOffsets(numLeaves);
      t := new Tree.Restored(h, tag, numLeaves, SplitNodes(flat), offsets + [expected]);
    }

    /** `root`; the empty restored tree has none. */
    method GetRoot() returns (r: Bytes)
      requires Valid() && numLeaves > 0
      ensures |nodes| > 0 && r == nodes[|nodes| - 1]
    {
      OffsetsGrow(numLeaves, 1, Height(numLeaves) + 1);
      r := nodes[|nodes| - 1];
    }

    /** `get_path` of an index in range; the state tree checks the range. */
    method GetPath(i: nat) returns (path: PathData)
      requires Valid() && i < numLeaves
      ensures path == PathData(i, PathIn(nodes, numLeaves, i))
    {
      var siblings: seq<Step> := [];
      var idx := i;
      var sizes := ComputeLevelSizes(numLeaves);
      var levelOffsets := ComputeLevelOffsets(numLeaves);
      for level := 0 to |sizes| - 1
        invariant idx == IndexAt(i, level)
        invariant siblings == PathIn(nodes, numLeaves, i)[..level]
      {
        SiblingInNodes(numLeaves, i, level);
        var sibIdx, isLeft;
        if idx % 2 == 0 {
          sibIdx, isLeft := idx + 1, false;
          if sibIdx >= sizes[level] {
            sibIdx := idx;
          }
        } else {
          sibIdx, isLeft := idx - 1, true;
        }
        siblings := siblings + [(nodes[levelOffsets[level] + sibIdx], isLeft)];
        idx := idx / 2;
      }
      path := PathData(i, siblings);
    }
  }

  /** Completeness. Every opening of a built tree passes the strict check and
      verifies against the tree's last node. */
  lemma HonestOpening(h: HashFn, tag: Bytes, leaves: seq<Bytes>, i: nat)
    requires i < |leaves|
    ensures |Flat(h, tag, leaves)| == NodeCount(|leaves|)
    ensures var path := PathIn(Flat(h, tag, leaves), |leaves|, i);
            && StrictPath(PathData(i, path), i, |leaves|) == PathOk(path)
            && Fold(h, tag, leaves[i], path) == Root(h, tag, leaves)
  {
    HonestPathIn(h, tag, leaves, i);
    HonestPath(h, tag, leaves, i);
  }

  /** A built tree, serialized and restored: same nodes, same openings, same
      root. */
  method RoundTrip(h: HashFn, tag: Bytes, leaves: seq<Bytes>, i: nat) returns (root: Bytes, path: PathData)
    requires Digests(h) && AllDigests(leaves)
    requires i < |leaves|
    ensures root == Root(h, tag, leaves)
    ensures path == PathData(i, Path(h, tag, leaves, i))
    ensures StrictPath(path, i, |leaves|).PathOk?
    ensures Fold(h, tag, leaves[i], path.siblings) == root
  {
    var built := new Tree(h, tag, leaves);
    FlatDigests(h, tag, leaves);
    SplitJoined(built.nodes);
    var restored := Tree.FromFlatTree(h, tag, JoinNodes(built.nodes), |leaves|);
    LastNodeIsRoot(h, tag, leaves);
    HonestPathIn(h, tag, leaves, i);
    HonestOpening(h, tag, leaves, i);
    root := restored.GetRoot();
    path := restored.GetPath(i);
  }
}
