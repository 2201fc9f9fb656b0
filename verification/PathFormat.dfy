/** The decoded JSON form of a Merkle path and its strict reading. */
module PathFormat {
  import opened CapacityEncoding
  import opened MerkleTree
  import opened Wrappers

  /** One sibling entry: a list of two values, or anything else. */
  datatype Entry = Entry(digest: Value, isLeft: Value) | NotAPair

  /** A mapping with exactly the two fields, or anything else; None for siblings
      that are not a list. */
  datatype RawPath = RawPath(leafIndex: Value, siblings: Option<seq<Entry>>) | OtherFields

  datatype ReadError =
    | Fields | WrongLeaf | WrongLength | MalformedEntry | MalformedDigest | MalformedDirection | WrongDirection

  datatype ReadResult = Read(path: seq<Step>) | Refused(error: ReadError)

  /** `leaf_index == i` for a value that is not a Boolean. */
  predicate EqualsIndex(v: Value, i: nat) {
    v == Int(i) || v == Float(i as real)
  }

  const DIGEST_TEXT: nat := 64

  function ReadStep(e: Entry, nodeIndex: nat): ReadResult {
    if e.NotAPair? then Refused(MalformedEntry)
    else if !e.digest.Str? || |e.digest.text| != DIGEST_TEXT then Refused(MalformedDigest)
    else if !e.isLeft.Bool? then Refused(MalformedDirection)
    else match FromHex(e.digest.text)
      case None => Refused(MalformedDigest)
      case Some(digest) =>
        if e.isLeft.flag != (nodeIndex % 2 == 1) then Refused(WrongDirection) else Read([(digest, e.isLeft.flag)])
  }

  /** The entries from the leaf up, or the first error. */
  function ReadSteps(entries: seq<Entry>, nodeIndex: nat): ReadResult {
    if |entries| == 0 then Read([])
    else match ReadStep(entries[0], nodeIndex)
      case Refused(e) => Refused(e)
      case Read(step) =>
        match ReadSteps(entries[1..], nodeIndex / 2)
        case Refused(e) => Refused(e)
        case Read(rest) => Read(step + rest)
  }

  function ReadPath(raw: RawPath, expectedLeaf: nat, numLeaves: nat): ReadResult {
    if raw.OtherFields? then Refused(Fields)
    else if !EqualsIndex(raw.leafIndex, expectedLeaf) then Refused(WrongLeaf)
    else if raw.siblings.None? || |raw.siblings.value| != Height(numLeaves) then Refused(WrongLength)
    else ReadSteps(raw.siblings.value, expectedLeaf)
  }

  /** What reading the entries from k on makes of the path read so far. */
  function Extended(path: seq<Step>, r: ReadResult): ReadResult {
    if r.Read? then Read(path + r.path) else r
  }

  /** `_strict_merkle_path` */
  method StrictMerklePath(raw: RawPath, expectedLeaf: nat, numLeaves: nat) returns (r: ReadResult)
    ensures r == ReadPath(raw, expectedLeaf, numLeaves)
  {
    if raw.OtherFields? {
      return Refused(Fields);
    }
    if !EqualsIndex(raw.leafIndex, expectedLeaf) {
      return Refused(WrongLeaf);
    }
    var height := TreeHeight(numLeaves);
    if raw.siblings.None? || |raw.siblings.value| != height {
      return Refused(WrongLength);
    }
    var entries := raw.siblings.value;
    var siblings: seq<Step> := [];
    var nodeIndex := expectedLeaf;
    for k := 0 to |entries|
      invariant ReadSteps(entries, expectedLeaf) == Extended(siblings, ReadSteps(entries[k..], nodeIndex))
    {
      hide FromHex, Height;
      assert entries[k..][0] == entries[k] && entries[k..][1..] == entries[k + 1..];
      var item := entries[k];
      if item.NotAPair? {
        return Refused(MalformedEntry);
      }
      if !item.digest.Str? || |item.digest.text| != DIGEST_TEXT {
        return Refused(MalformedDigest);
      }
      if !item.isLeft.Bool? {
        return Refused(MalformedDirection);
      }
      var digest := FromHex(item.digest.text);
      if digest.None? {
        return Refused(MalformedDigest);
      }
      if item.isLeft.flag != (nodeIndex % 2 == 1) {
        return Refused(WrongDirection);
      }
      ghost var before := siblings;
      siblings := siblings + [(digest.value, item.isLeft.flag)];
      nodeIndex := nodeIndex / 2;
      ExtendedTwice(before, [(digest.value, item.isLeft.flag)], ReadSteps(entries[k + 1..], nodeIndex));
    }
    assert entries[|entries|..] == [];
    r := Read(siblings);
  }

  lemma ExtendedTwice(p: seq<Step>, q: seq<Step>, r: ReadResult)
    ensures Extended(p, Extended(q, r)) == Extended(p + q, r)
  {
    if r.Read? {
      assert p + (q + r.path) == p + q + r.path;
    }
  }

  // ------------------------------------------------------------ what is accepted

  predicate SpellsStep(e: Entry, step: Step) {
    && e.Entry? && e.isLeft == Bool(step.1)
    && e.digest.Str? && |e.digest.text| == DIGEST_TEXT && FromHex(e.digest.text) == Some(step.0)
  }

  /** The entries are texts of the digests of the path, with its directions. */
  predicate Spells(entries: seq<Entry>, path: seq<Step>) {
    |entries| == |path| && forall k :: 0 <= k < |path| ==> SpellsStep(entries[k], path[k])
  }

  lemma {:induction false} StepsExact(entries: seq<Entry>, nodeIndex: nat, path: seq<Step>)
    ensures ReadSteps(entries, nodeIndex) == Read(path) <==> Spells(entries, path) && StrictDirections(path, nodeIndex)
    decreases |entries|
  {
    hide FromHex;
    if |entries| > 0 && |path| > 0 {
      StepsExact(entries[1..], nodeIndex / 2, path[1..]);
      SpellsFirst(entries, path);
      assert path == [path[0]] + path[1..];
      if ReadSteps(entries, nodeIndex) == Read(path) {
        var step, rest := ReadStep(entries[0], nodeIndex).path, ReadSteps(entries[1..], nodeIndex / 2).path;
        assert path == step + rest && |step| == 1;
        assert path[0] == step[0] && path[1..] == rest;
      }
    } else if |entries| > 0 {
      assert ReadSteps(entries, nodeIndex) != Read(path);
    }
  }

  lemma SpellsFirst(entries: seq<Entry>, path: seq<Step>)
    requires |entries| > 0 && |path| > 0
    ensures Spells(entries, path) <==> SpellsStep(entries[0], path[0]) && Spells(entries[1..], path[1..])
  {
    hide SpellsStep;
    if SpellsStep(entries[0], path[0]) && Spells(entries[1..], path[1..]) {
      forall k | 0 <= k < |path|
        ensures |entries| == |path| && SpellsStep(entries[k], path[k])
      {
        assert k > 0 ==> entries[k] == entries[1..][k - 1] && path[k] == path[1..][k - 1];
      }
    }
  }

  /** Exactly the spelled strict paths are read, the leaf index being any number
      equal to the expected one. */
  lemma ReadExact(raw: RawPath, expectedLeaf: nat, numLeaves: nat, path: seq<Step>)
    ensures ReadPath(raw, expectedLeaf, numLeaves) == Read(path)
       <==> (&& raw.RawPath? && (raw.leafIndex == Int(expectedLeaf) || raw.leafIndex == Float(expectedLeaf as real))
             && raw.siblings.Some? && Spells(raw.siblings.value, path)
             && StrictPath(PathData(expectedLeaf, path), expectedLeaf, numLeaves) == PathOk(path))
  {
    hide Height, FromHex, ReadStep;
    if raw.RawPath? && raw.siblings.Some? {
      StepsExact(raw.siblings.value, expectedLeaf, path);
    }
  }

  // ---------------------------------------------------------------- digest texts

  function Spaces(s: string): nat {
    if |s| == 0 then 0 else (if IsSpace(s[0]) then 1 else 0) + Spaces(s[1..])
  }

  lemma {:induction false} HexLength(s: string)
    requires FromHex(s).Some?
    ensures |s| == 2 * |FromHex(s).value| + Spaces(s)
    decreases |s|
  {
    if |s| > 0 {
      if IsSpace(s[0]) {
        HexLength(s[1..]);
      } else {
        HexLength(s[2..]);
        assert s[1..][1..] == s[2..];
      }
    }
  }

  lemma {:induction false} NoSpaces(s: string)
    ensures Spaces(s) == 0 <==> forall k :: 0 <= k < |s| ==> !IsSpace(s[k])
    decreases |s|
  {
    if |s| > 0 {
      NoSpaces(s[1..]);
      assert s == [s[0]] + s[1..];
    }
  }

  /** The length test on the text does not fix the digest's: a text of 64
      characters gives at most 32 bytes, and 32 exactly when it has no white
      space. */
  lemma DigestLengthExactly(s: string)
    requires |s| == DIGEST_TEXT && FromHex(s).Some?
    ensures |FromHex(s).value| <= 32
    ensures |FromHex(s).value| == 32 <==> forall k :: 0 <= k < |s| ==> !IsSpace(s[k])
  {
    HexLength(s);
    NoSpaces(s);
  }

  // --------------------------------------------------------------------- printing

  function PrintedEntries(path: seq<Step>): (entries: seq<Entry>)
    ensures |entries| == |path|
  {
    seq(|path|, k requires 0 <= k < |path| => Entry(Str(Hex(path[k].0)), Bool(path[k].1)))
  }

  /** A strict path of full digests is read back from its printed form. */
  lemma PrintedReads(path: seq<Step>, leaf: nat, numLeaves: nat)
    requires StrictPath(PathData(leaf, path), leaf, numLeaves).PathOk?
    requires forall k :: 0 <= k < |path| ==> |path[k].0| == 32
    ensures ReadPath(RawPath(Int(leaf), Some(PrintedEntries(path))), leaf, numLeaves) == Read(path)
  {
    hide Height, FromHex, Hex;
    forall k | 0 <= k < |path|
      ensures FromHex(Hex(path[k].0)) == Some(path[k].0)
    {
      HexRoundTrip(path[k].0);
    }
    ReadExact(RawPath(Int(leaf), Some(PrintedEntries(path))), leaf, numLeaves, path);
  }
}
