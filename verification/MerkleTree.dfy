/** Binary Merkle trees over any number of leaves, the odd node paired with
    itself; the flat node array; opening paths; and what an accepted path binds.

    The hash is a parameter. No injectivity is assumed of it: where an accepted
    opening differs from what was committed, a pair of colliding hash inputs is
    computed from the opening. */
module MerkleTree {
  import opened Arithmetic
  import opened ByteStrings

  type HashFn = Bytes -> Bytes

  /** The hash returns 32-byte digests. */
  ghost predicate Digests(h: HashFn) {
    forall x: Bytes :: |h(x)| == 32
  }

  datatype Collision = Collision(x: Bytes, y: Bytes)

  predicate IsCollision(h: HashFn, c: Collision) {
    c.x != c.y && h(c.x) == h(c.y)
  }

  /** A sibling digest and whether it stands to the left. */
  type Step = (Bytes, bool)

  // ------------------------------------------------------------------ levels

  function Half(n: nat): nat {
    (n + 1) / 2
  }

  /** `_tree_height` */
  function Height(n: nat): nat {
    if n <= 1 then 0 else 1 + Height(Half(n))
  }

  /** The right child of parent i; an odd last node is its own sibling. */
  function RightChild(level: seq<Bytes>, i: nat): Bytes
    requires 2 * i < |level|
  {
    if 2 * i + 1 < |level| then level[2 * i + 1] else level[2 * i]
  }

  function NodeInput(tag: Bytes, level: seq<Bytes>, i: nat): Bytes
    requires 2 * i < |level|
  {
    tag + level[2 * i] + RightChild(level, i)
  }

  function NextLevel(h: HashFn, tag: Bytes, level: seq<Bytes>): (next: seq<Bytes>)
    ensures |next| == Half(|level|)
  {
    seq(Half(|level|), i requires 0 <= i < Half(|level|) => h(NodeInput(tag, level, i)))
  }

  function Root(h: HashFn, tag: Bytes, level: seq<Bytes>): Bytes
    requires |level| > 0
    decreases |level|
  {
    if |level| == 1 then level[0] else Root(h, tag, NextLevel(h, tag, level))
  }

  /** The k-th level above the given one. */
  function LevelAt(h: HashFn, tag: Bytes, level: seq<Bytes>, k: nat): seq<Bytes>
    decreases k
  {
    if k == 0 then level else LevelAt(h, tag, NextLevel(h, tag, level), k - 1)
  }

  ghost predicate AllDigests(level: seq<Bytes>) {
    forall i :: 0 <= i < |level| ==> |level[i]| == 32
  }

  // ------------------------------------------------------------------- paths

  /** The hash input an opening step claims for the parent. */
  function StepInput(tag: Bytes, current: Bytes, step: Step): Bytes {
    if step.1 then tag + step.0 + current else tag + current + step.0
  }

  function Fold(h: HashFn, tag: Bytes, current: Bytes, path: seq<Step>): Bytes
    decreases |path|
  {
    if |path| == 0 then current
    else Fold(h, tag, h(StepInput(tag, current, path[0])), path[1..])
  }

  /** The opening of leaf i. */
  function Path(h: HashFn, tag: Bytes, level: seq<Bytes>, i: nat): (path: seq<Step>)
    requires i < |level|
    ensures |path| == Height(|level|)
    decreases |level|
  {
    if |level| == 1 then []
    else
      var step := if i % 2 == 0 then (RightChild(level, i / 2), false) else (level[i - 1], true);
      [step] + Path(h, tag, NextLevel(h, tag, level), i / 2)
  }

  /** Every direction is the matching bit of the index. */
  predicate StrictDirections(path: seq<Step>, i: nat)
    decreases |path|
  {
    |path| == 0 || (path[0].1 == (i % 2 == 1) && StrictDirections(path[1..], i / 2))
  }

  /** The leaf of an n-leaf tree that the directions of a full-height path lead
      to; a step into the copy of an odd last node leads to that node. */
  function Resolve(n: nat, path: seq<Step>): (i: nat)
    requires n > 0 && |path| == Height(n)
    ensures i < n
    decreases n
  {
    if n == 1 then 0
    else
      var up := Resolve(Half(n), path[1..]);
      var i := 2 * up + if path[0].1 then 1 else 0;
      if i < n then i else n - 1
  }

  lemma {:induction false} StrictResolves(n: nat, i: nat, path: seq<Step>)
    requires i < n && |path| == Height(n) && StrictDirections(path, i)
    ensures Resolve(n, path) == i
    decreases n
  {
    if n > 1 {
      StrictResolves(Half(n), i / 2, path[1..]);
    }
  }

  lemma {:induction false} HonestPath(h: HashFn, tag: Bytes, level: seq<Bytes>, i: nat)
    requires i < |level|
    ensures StrictDirections(Path(h, tag, level, i), i)
    ensures Fold(h, tag, level[i], Path(h, tag, level, i)) == Root(h, tag, level)
    decreases |level|
  {
    if |level| > 1 {
      var path := Path(h, tag, level, i);
      var next := NextLevel(h, tag, level);
      assert StepInput(tag, level[i], path[0]) == NodeInput(tag, level, i / 2);
      assert path[1..] == Path(h, tag, next, i / 2);
      HonestPath(h, tag, next, i / 2);
    }
  }

  lemma {:induction false} FoldConcat(h: HashFn, tag: Bytes, current: Bytes, p: seq<Step>, q: seq<Step>)
    ensures Fold(h, tag, current, p + q) == Fold(h, tag, Fold(h, tag, current, p), q)
    decreases |p|
  {
    if |p| == 0 {
      assert p + q == q;
    } else {
      assert (p + q)[1..] == p[1..] + q;
      FoldConcat(h, tag, h(StepInput(tag, current, p[0])), p[1..], q);
    }
  }

  // ----------------------------------------------------------------- binding

  /** Walks an opening up next to the tree and returns the first pair of hash
      inputs that differ although their hashes agree. */
  function NodeCollision(h: HashFn, tag: Bytes, level: seq<Bytes>, current: Bytes, path: seq<Step>): Collision
    requires |level| > 0 && |path| == Height(|level|)
    decreases |path|
  {
    if |level| == 1 then Collision([], [])
    else
      var claimed := StepInput(tag, current, path[0]);
      var honest := NodeInput(tag, level, Resolve(Half(|level|), path[1..]));
      if IsCollision(h, Collision(claimed, honest)) then Collision(claimed, honest)
      else NodeCollision(h, tag, NextLevel(h, tag, level), h(claimed), path[1..])
  }

  lemma CancelStep(tag: Bytes, current: Bytes, step: Step, left: Bytes, right: Bytes)
    requires |current| == 32 && |left| == 32 && |right| == 32
    requires StepInput(tag, current, step) == tag + left + right
    ensures current == if step.1 then right else left
  {
    var (a, b) := if step.1 then (step.0, current) else (current, step.0);
    assert tag + a + b == tag + (a + b);
    assert tag + left + right == tag + (left + right);
    CancelPrefix(tag, a + b, tag, left + right);
    CancelPrefix(a, b, left, right);
  }

  lemma NextLevelDigests(h: HashFn, tag: Bytes, level: seq<Bytes>)
    requires Digests(h)
    ensures AllDigests(NextLevel(h, tag, level))
  {
    var next := NextLevel(h, tag, level);
    forall i | 0 <= i < |next|
      ensures |next[i]| == 32
    {
      assert next[i] == h(NodeInput(tag, level, i));
    }
  }

  lemma StepBinding(h: HashFn, tag: Bytes, level: seq<Bytes>, current: Bytes, step: Step, up: nat)
    requires 2 * up < |level| && AllDigests(level) && |current| == 32
    requires StepInput(tag, current, step) == NodeInput(tag, level, up)
    ensures current == if step.1 then RightChild(level, up) else level[2 * up]
  {
    CancelStep(tag, current, step, level[2 * up], RightChild(level, up));
  }

  /** A path of the tree's height that folds to the root starts at the leaf its
      directions lead to, or exhibits a collision. Sibling digests may have any
      length: the hash input of an honest node fixes it. */
  lemma {:induction false} PathBinding(h: HashFn, tag: Bytes, level: seq<Bytes>, current: Bytes, path: seq<Step>)
    requires Digests(h)
    requires |level| > 0 && |path| == Height(|level|)
    requires AllDigests(level) && |current| == 32
    requires Fold(h, tag, current, path) == Root(h, tag, level)
    ensures current == level[Resolve(|level|, path)]
         || IsCollision(h, NodeCollision(h, tag, level, current, path))
    decreases |path|
  {
    hide StepInput, NodeInput;
    if |level| > 1 {
      var next := NextLevel(h, tag, level);
      NextLevelDigests(h, tag, level);
      PathBinding(h, tag, next, h(StepInput(tag, current, path[0])), path[1..]);
      var up := Resolve(|next|, path[1..]);
      if StepInput(tag, current, path[0]) == NodeInput(tag, level, up) {
        StepBinding(h, tag, level, current, path[0], up);
      }
    }
  }

  lemma {:induction false} LevelAtFacts(h: HashFn, tag: Bytes, level: seq<Bytes>, k: nat)
    requires |level| > 0 && k <= Height(|level|)
    ensures var up := LevelAt(h, tag, level, k);
            |up| > 0 && Height(|up|) == Height(|level|) - k && Root(h, tag, up) == Root(h, tag, level)
    ensures Digests(h) && AllDigests(level) ==> AllDigests(LevelAt(h, tag, level, k))
    decreases k
  {
    if k > 0 {
      if Digests(h) {
        NextLevelDigests(h, tag, level);
      }
      LevelAtFacts(h, tag, NextLevel(h, tag, level), k - 1);
    }
  }

  lemma {:induction false} LevelAtStep(h: HashFn, tag: Bytes, level: seq<Bytes>, k: nat)
    ensures LevelAt(h, tag, level, k + 1) == NextLevel(h, tag, LevelAt(h, tag, level, k))
    decreases k
  {
    if k > 0 {
      LevelAtStep(h, tag, NextLevel(h, tag, level), k - 1);
    }
  }

  // ------------------------------------------------------------ leaf content

  /** The three domain tags of a tree. */
  datatype Kind = Kind(blockTag: Bytes, leafTag: Bytes, nodeTag: Bytes) {
    /** Leaf and node inputs start with different tags of one length. */
    predicate Separated() {
      |leafTag| == |nodeTag| && leafTag != nodeTag
    }
  }

  function LeafHash(h: HashFn, kind: Kind, payload: Bytes): Bytes {
    h(kind.leafTag + h(kind.blockTag + payload))
  }

  function LeafHashes(h: HashFn, kind: Kind, payloads: seq<Bytes>): (leaves: seq<Bytes>)
    ensures |leaves| == |payloads|
  {
    seq(|payloads|, i requires 0 <= i < |payloads| => LeafHash(h, kind, payloads[i]))
  }

  /** The hash input behind a leaf hash. */
  function LeafInput(h: HashFn, kind: Kind, payload: Bytes): Bytes {
    kind.leafTag + h(kind.blockTag + payload)
  }

  /** A leaf stands in for an inner node hashed from the level `below`. */
  function NodeFromLeaf(h: HashFn, kind: Kind, below: seq<Bytes>, payload: Bytes, path: seq<Step>): Collision
    requires |below| > 0 && |path| == Height(Half(|below|))
  {
    var level := NextLevel(h, kind.nodeTag, below);
    var c := NodeCollision(h, kind.nodeTag, level, LeafHash(h, kind, payload), path);
    if IsCollision(h, c) then c
    else Collision(LeafInput(h, kind, payload), NodeInput(kind.nodeTag, below, Resolve(|level|, path)))
  }

  /** A path below the tree's height ends a leaf in an inner node. */
  function ShortCollision(h: HashFn, kind: Kind, leaves: seq<Bytes>, payload: Bytes, path: seq<Step>): Collision
    requires |path| < Height(|leaves|)
  {
    var k := Height(|leaves|) - |path| - 1;
    LevelAtFacts(h, kind.nodeTag, leaves, k);
    NodeFromLeaf(h, kind, LevelAt(h, kind.nodeTag, leaves, k), payload, path)
  }

  /** A path above the tree's height passes off an inner node, hashed from
      `last`, as a leaf. */
  function LeafFromNode(h: HashFn, kind: Kind, payloads: seq<Bytes>, last: Bytes, rest: seq<Step>): Collision
    requires |payloads| > 0 && |rest| == Height(|payloads|)
  {
    var leaves := LeafHashes(h, kind, payloads);
    var c := NodeCollision(h, kind.nodeTag, leaves, h(last), rest);
    if IsCollision(h, c) then c
    else Collision(last, LeafInput(h, kind, payloads[Resolve(|leaves|, rest)]))
  }

  function LongCollision(h: HashFn, kind: Kind, payloads: seq<Bytes>, payload: Bytes, path: seq<Step>): Collision
    requires |payloads| > 0 && |path| > Height(|payloads|)
  {
    var k := |path| - Height(|payloads|);
    var before := Fold(h, kind.nodeTag, LeafHash(h, kind, payload), path[..k - 1]);
    LeafFromNode(h, kind, payloads, StepInput(kind.nodeTag, before, path[k - 1]), path[k..])
  }

  function FullCollision(h: HashFn, kind: Kind, payloads: seq<Bytes>, payload: Bytes, path: seq<Step>): Collision
    requires |payloads| > 0 && |path| == Height(|payloads|)
  {
    var leaves := LeafHashes(h, kind, payloads);
    var c := NodeCollision(h, kind.nodeTag, leaves, LeafHash(h, kind, payload), path);
    var honest := payloads[Resolve(|leaves|, path)];
    var outer := Collision(LeafInput(h, kind, payload), LeafInput(h, kind, honest));
    if IsCollision(h, c) then c
    else if IsCollision(h, outer) then outer
    else Collision(kind.blockTag + payload, kind.blockTag + honest)
  }

  /** The collision an accepted opening gives away when its payload is not the
      committed one. */
  function PayloadCollision(h: HashFn, kind: Kind, payloads: seq<Bytes>, payload: Bytes, path: seq<Step>): Collision
    requires |payloads| > 0
  {
    if |path| < Height(|payloads|) then ShortCollision(h, kind, LeafHashes(h, kind, payloads), payload, path)
    else if |path| > Height(|payloads|) then LongCollision(h, kind, payloads, payload, path)
    else FullCollision(h, kind, payloads, payload, path)
  }

  ghost predicate Verifies(h: HashFn, kind: Kind, payloads: seq<Bytes>, payload: Bytes, path: seq<Step>)
    requires |payloads| > 0
  {
    Fold(h, kind.nodeTag, LeafHash(h, kind, payload), path) == Root(h, kind.nodeTag, LeafHashes(h, kind, payloads))
  }

  lemma LeafAndNodeDiffer(h: HashFn, kind: Kind, payload: Bytes, x: Bytes, y: Bytes)
    requires kind.Separated()
    ensures LeafInput(h, kind, payload) != kind.nodeTag + x + y
  {
    assert kind.nodeTag + x + y == kind.nodeTag + (x + y);
    if LeafInput(h, kind, payload) == kind.nodeTag + x + y {
      CancelPrefix(kind.leafTag, h(kind.blockTag + payload), kind.nodeTag, x + y);
    }
  }

  lemma LeavesAreDigests(h: HashFn, kind: Kind, payloads: seq<Bytes>)
    requires Digests(h)
    ensures AllDigests(LeafHashes(h, kind, payloads))
  {
    forall i | 0 <= i < |payloads|
      ensures |LeafHashes(h, kind, payloads)[i]| == 32
    {
      assert LeafHashes(h, kind, payloads)[i] == h(LeafInput(h, kind, payloads[i]));
    }
  }

  lemma LeafIsDigest(h: HashFn, kind: Kind, payload: Bytes)
    requires Digests(h)
    ensures |LeafHash(h, kind, payload)| == 32
  {
    assert LeafHash(h, kind, payload) == h(LeafInput(h, kind, payload));
  }

  lemma LeafAsNode(h: HashFn, kind: Kind, below: seq<Bytes>, payload: Bytes, path: seq<Step>)
    requires Digests(h) && kind.Separated()
    requires |below| > 1 && |path| == Height(Half(|below|))
    requires Fold(h, kind.nodeTag, LeafHash(h, kind, payload), path) == Root(h, kind.nodeTag, below)
    ensures IsCollision(h, NodeFromLeaf(h, kind, below, payload, path))
  {
    var level := NextLevel(h, kind.nodeTag, below);
    NextLevelDigests(h, kind.nodeTag, below);
    LeafIsDigest(h, kind, payload);
    PathBinding(h, kind.nodeTag, level, LeafHash(h, kind, payload), path);
    var i := Resolve(|level|, path);
    assert level[i] == h(NodeInput(kind.nodeTag, below, i));
    LeafAndNodeDiffer(h, kind, payload, below[2 * i], RightChild(below, i));
  }

  lemma ShortPath(h: HashFn, kind: Kind, leaves: seq<Bytes>, payload: Bytes, path: seq<Step>)
    requires Digests(h) && kind.Separated()
    requires |path| < Height(|leaves|)
    requires Fold(h, kind.nodeTag, LeafHash(h, kind, payload), path) == Root(h, kind.nodeTag, leaves)
    ensures IsCollision(h, ShortCollision(h, kind, leaves, payload, path))
  {
    hide Fold, Root, LeafHash, LevelAt, NextLevel, NodeFromLeaf, NodeCollision;
    var k := Height(|leaves|) - |path| - 1;
    LevelAtFacts(h, kind.nodeTag, leaves, k);
    LeafAsNode(h, kind, LevelAt(h, kind.nodeTag, leaves, k), payload, path);
  }

  lemma NodeAsLeaf(h: HashFn, kind: Kind, payloads: seq<Bytes>, before: Bytes, step: Step, rest: seq<Step>)
    requires Digests(h) && kind.Separated()
    requires |payloads| > 0 && |rest| == Height(|payloads|)
    requires Fold(h, kind.nodeTag, h(StepInput(kind.nodeTag, before, step)), rest)
          == Root(h, kind.nodeTag, LeafHashes(h, kind, payloads))
    ensures IsCollision(h, LeafFromNode(h, kind, payloads, StepInput(kind.nodeTag, before, step), rest))
  {
    var leaves, last := LeafHashes(h, kind, payloads), StepInput(kind.nodeTag, before, step);
    LeavesAreDigests(h, kind, payloads);
    PathBinding(h, kind.nodeTag, leaves, h(last), rest);
    var honest := payloads[Resolve(|leaves|, rest)];
    if step.1 {
      LeafAndNodeDiffer(h, kind, honest, step.0, before);
    } else {
      LeafAndNodeDiffer(h, kind, honest, before, step.0);
    }
  }

  lemma FoldSplit(h: HashFn, tag: Bytes, current: Bytes, path: seq<Step>, k: nat)
    requires k < |path|
    ensures Fold(h, tag, current, path)
         == Fold(h, tag, h(StepInput(tag, Fold(h, tag, current, path[..k]), path[k])), path[k + 1..])
  {
    assert path == path[..k] + path[k..];
    FoldConcat(h, tag, current, path[..k], path[k..]);
    assert path[k..][1..] == path[k + 1..];
  }

  lemma LongPath(h: HashFn, kind: Kind, payloads: seq<Bytes>, payload: Bytes, path: seq<Step>)
    requires Digests(h) && kind.Separated()
    requires |payloads| > 0 && |path| > Height(|payloads|)
    requires Verifies(h, kind, payloads, payload, path)
    ensures IsCollision(h, LongCollision(h, kind, payloads, payload, path))
  {
    var k := |path| - Height(|payloads|);
    FoldSplit(h, kind.nodeTag, LeafHash(h, kind, payload), path, k - 1);
    NodeAsLeaf(h, kind, payloads, Fold(h, kind.nodeTag, LeafHash(h, kind, payload), path[..k - 1]), path[k - 1], path[k..]);
  }

  /** Main binding result. Whatever its length and directions, an opening that
      verifies against the root of committed payloads has the tree's height and
      opens the payload its directions lead to, or it gives away a collision. */
  lemma PayloadBinding(h: HashFn, kind: Kind, payloads: seq<Bytes>, payload: Bytes, path: seq<Step>)
    requires Digests(h) && kind.Separated()
    requires |payloads| > 0
    requires Verifies(h, kind, payloads, payload, path)
    ensures (|path| == Height(|payloads|) && payload == payloads[Resolve(|payloads|, path)])
         || IsCollision(h, PayloadCollision(h, kind, payloads, payload, path))
  {
    var leaves := LeafHashes(h, kind, payloads);
    LeavesAreDigests(h, kind, payloads);
    if |path| < Height(|payloads|) {
      ShortPath(h, kind, leaves, payload, path);
    } else if |path| > Height(|payloads|) {
      LongPath(h, kind, payloads, payload, path);
    } else {
      FullPath(h, kind, payloads, payload, path);
    }
  }

  lemma FullPath(h: HashFn, kind: Kind, payloads: seq<Bytes>, payload: Bytes, path: seq<Step>)
    requires Digests(h)
    requires |payloads| > 0 && |path| == Height(|payloads|)
    requires Verifies(h, kind, payloads, payload, path)
    ensures payload == payloads[Resolve(|payloads|, path)]
         || IsCollision(h, FullCollision(h, kind, payloads, payload, path))
  {
    var leaves := LeafHashes(h, kind, payloads);
    LeavesAreDigests(h, kind, payloads);
    LeafIsDigest(h, kind, payload);
    PathBinding(h, kind.nodeTag, leaves, LeafHash(h, kind, payload), path);
    var honest := payloads[Resolve(|payloads|, path)];
    if LeafInput(h, kind, payload) == LeafInput(h, kind, honest) {
      CancelPrefix(kind.leafTag, h(kind.blockTag + payload), kind.leafTag, h(kind.blockTag + honest));
      if kind.blockTag + payload == kind.blockTag + honest {
        CancelPrefix(kind.blockTag, payload, kind.blockTag, honest);
      }
    }
  }

  // ------------------------------------------------------------ strict paths

  /** The wire form of a path. */
  datatype PathData = PathData(leafIndex: int, siblings: seq<Step>)

  datatype PathError = LeafIndexMismatch | LengthMismatch | DirectionMismatch

  datatype PathResult = PathOk(path: seq<Step>) | PathErr(error: PathError)

  function StrictPath(data: PathData, expectedLeaf: nat, numLeaves: nat): PathResult {
    if data.leafIndex != expectedLeaf then PathErr(LeafIndexMismatch)
    else if |data.siblings| != Height(numLeaves) then PathErr(LengthMismatch)
    else if !StrictDirections(data.siblings, expectedLeaf) then PathErr(DirectionMismatch)
    else PathOk(data.siblings)
  }

  /** The height of a tree is the least number of doublings that reaches its leaves. */
  lemma {:induction false} HeightExactly(n: nat, k: nat)
    ensures Height(n) == k <==> n <= Pow2(k) && (k > 0 ==> n > Pow2(k - 1))
    decreases n
  {
    if n > 1 && k > 0 {
      HeightExactly(Half(n), k - 1);
    }
  }

  /** The direction of step k is bit k of the leaf index. */
  lemma {:induction false} DirectionsExactly(path: seq<Step>, i: nat)
    ensures StrictDirections(path, i) <==> forall k :: 0 <= k < |path| ==> (path[k].1 <==> i / Pow2(k) % 2 == 1)
    decreases |path|
  {
    if |path| > 0 {
      DirectionsExactly(path[1..], i / 2);
      assert i / Pow2(0) == i;
      forall k | 0 < k < |path|
        ensures i / Pow2(k) == i / 2 / Pow2(k - 1) && path[k] == path[1..][k - 1]
      {
        DivideTwice(i, Pow2(k - 1));
      }
      assert forall k :: 0 <= k < |path| - 1 ==> path[1..][k] == path[k + 1];
    }
  }

  /** A strict path is accepted exactly for the expected leaf, with one step for each
      doubling up to the number of leaves, and with the bits of the leaf index as its
      directions. The first of the three to fail is the one reported. */
  lemma StrictExactly(data: PathData, leaf: nat, n: nat)
    ensures var r, k := StrictPath(data, leaf, n), |data.siblings|;
            var sized := n <= Pow2(k) && (k > 0 ==> n > Pow2(k - 1));
            && (r == PathOk(data.siblings) <==>
                && data.leafIndex == leaf && sized
                && forall j :: 0 <= j < k ==> (data.siblings[j].1 <==> leaf / Pow2(j) % 2 == 1))
            && (r == PathErr(LeafIndexMismatch) <==> data.leafIndex != leaf)
            && (r == PathErr(LengthMismatch) <==> data.leafIndex == leaf && !sized)
            && (r.PathOk? || r == PathErr(LeafIndexMismatch) || r == PathErr(LengthMismatch) || r == PathErr(DirectionMismatch))
  {
    HeightExactly(n, |data.siblings|);
    DirectionsExactly(data.siblings, leaf);
    hide Height, StrictDirections;
  }

  /** A strict path of leaf i opens the payload committed at i. */
  lemma StrictPayloadBinding(h: HashFn, kind: Kind, payloads: seq<Bytes>, i: nat, payload: Bytes, data: PathData)
    requires Digests(h) && kind.Separated() && i < |payloads|
    requires StrictPath(data, i, |payloads|).PathOk?
    requires Verifies(h, kind, payloads, payload, data.siblings)
    ensures payload == payloads[i]
         || IsCollision(h, PayloadCollision(h, kind, payloads, payload, data.siblings))
  {
    PayloadBinding(h, kind, payloads, payload, data.siblings);
    StrictResolves(|payloads|, i, data.siblings);
  }

  /** Exact condition for an unchecked opening: over pairwise different payloads
      it opens index i just when its directions lead to i. */
  lemma LooseBindingExact(h: HashFn, kind: Kind, payloads: seq<Bytes>, i: nat, payload: Bytes, path: seq<Step>)
    requires Digests(h) && kind.Separated() && i < |payloads|
    requires forall j, k :: 0 <= j < k < |payloads| ==> payloads[j] != payloads[k]
    requires Verifies(h, kind, payloads, payload, path)
    requires !IsCollision(h, PayloadCollision(h, kind, payloads, payload, path))
    ensures |path| == Height(|payloads|)
    ensures payload == payloads[i] <==> Resolve(|payloads|, path) == i
  {
    PayloadBinding(h, kind, payloads, payload, path);
  }

  /** The loop of `_strict_merkle_path`. */
  method CheckStrictPath(data: PathData, expectedLeaf: nat, numLeaves: nat) returns (r: PathResult)
    ensures r == StrictPath(data, expectedLeaf, numLeaves)
  {
    if data.leafIndex != expectedLeaf {
      return PathErr(LeafIndexMismatch);
    }
    var height := TreeHeight(numLeaves);
    if |data.siblings| != height {
      return PathErr(LengthMismatch);
    }
    var siblings: seq<Step> := [];
    var nodeIndex := expectedLeaf;
    for k := 0 to |data.siblings|
      invariant siblings == data.siblings[..k]
      invariant StrictDirections(data.siblings, expectedLeaf) <==> StrictDirections(data.siblings[k..], nodeIndex)
    {
      var (digest, isLeft) := data.siblings[k];
      if isLeft != (nodeIndex % 2 == 1) {
        return PathErr(DirectionMismatch);
      }
      assert data.siblings[k..][1..] == data.siblings[k + 1..];
      siblings := siblings + [(digest, isLeft)];
      nodeIndex := nodeIndex / 2;
    }
    assert siblings == data.siblings;
    r := PathOk(siblings);
  }

  method TreeHeight(numLeaves: nat) returns (height: nat)
    ensures height == Height(numLeaves)
  {
    height := 0;
    var size := numLeaves;
    while size > 1
      invariant height + Height(size) == Height(numLeaves)
    {
      size := (size + 1) / 2;
      height := height + 1;
    }
  }

  /** The loop of `verify_workspace_merkle_path` and its state twin. */
  method VerifyPath(h: HashFn, tag: Bytes, root: Bytes, leafHash: Bytes, path: seq<Step>) returns (ok: bool)
    ensures ok <==> Fold(h, tag, leafHash, path) == root
  {
    var current := leafHash;
    for k := 0 to |path|
      invariant Fold(h, tag, current, path[k..]) == Fold(h, tag, leafHash, path)
    {
      assert path[k..][1..] == path[k + 1..];
      var (sibling, isLeft) := path[k];
      if isLeft {
        current := h(tag + sibling + current);
      } else {
        current := h(tag + current + sibling);
      }
    }
    ok := current == root;
  }
}
