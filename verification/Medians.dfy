/** The performance sample of a miner: a median over the medians of its receipt
    signers. Floats are reals. */
module Medians {
  import opened ByteStrings
  import opened Sorting

  const MIN_PERFORMANCE_VALIDATORS := 3

  // ------------------------------------------------------------------- median

  predicate Ascending(s: seq<real>) {
    forall i, j :: 0 <= i < j < |s| ==> s[i] <= s[j]
  }

  predicate Less(a: real, b: real) {
    a < b
  }

  lemma {:induction false} OrderedApart(s: seq<real>, i: nat, j: nat)
    requires NotDescending(Less, s) && i < j < |s|
    ensures s[i] <= s[j]
    decreases j
  {
    assert !Less(s[j], s[j - 1]);
    if i < j - 1 {
      OrderedApart(s, i, j - 1);
    }
  }

  lemma SortAscends(s: seq<real>)
    ensures Ascending(Sort(Less, s))
  {
    SortSorts(Less, s);
    var sorted := Sort(Less, s);
    forall i, j | 0 <= i < j < |sorted|
      ensures sorted[i] <= sorted[j]
    {
      OrderedApart(sorted, i, j);
    }
  }

  /** `_median` */
  function Median(values: seq<real>): real {
    if |values| == 0 then 0.0
    else
      var sorted, n := Sort(Less, values), |values|;
      if n % 2 == 1 then sorted[n / 2] else (sorted[n / 2 - 1] + sorted[n / 2]) / 2.0
  }

  lemma FirstIsLeast(a: seq<real>, x: real)
    requires Ascending(a) && x in a
    ensures a[0] <= x
  {
  }

  lemma {:induction false} AscendingUnique(a: seq<real>, b: seq<real>)
    requires Ascending(a) && Ascending(b) && multiset(a) == multiset(b)
    ensures a == b
    decreases |a|
  {
    SameEnds(a, b);
    if |a| > 0 {
      FirstIsLeast(a, b[0]);
      FirstIsLeast(b, a[0]);
      SameRest(a, b);
      AscendingUnique(a[1..], b[1..]);
      assert a == [a[0]] + a[1..] && b == [b[0]] + b[1..];
    }
  }

  /** The median does not see the order of its values. */
  lemma MedianUnordered(a: seq<real>, b: seq<real>)
    requires multiset(a) == multiset(b)
    ensures Median(a) == Median(b)
  {
    hide Sort, Ascending;
    SortAscends(a);
    SortAscends(b);
    AscendingUnique(Sort(Less, a), Sort(Less, b));
    assert |a| == |Sort(Less, a)| == |Sort(Less, b)| == |b|;
  }

  /** In whatever way the values are put in ascending order, the median is the one in
      the middle, or half of the sum of the two. */
  lemma MedianIsMiddle(values: seq<real>, s: seq<real>)
    requires multiset(s) == multiset(values) && |s| > 0
    requires forall i, j :: 0 <= i < j < |s| ==> s[i] <= s[j]
    ensures var n := |s|;
            Median(values) == if n % 2 == 1 then s[(n - 1) / 2] else (s[n / 2 - 1] + s[n / 2]) / 2.0
  {
    hide Sort;
    assert Ascending(s);
    SortAscends(values);
    hide Ascending;
    AscendingUnique(s, Sort(Less, values));
    assert |values| == |Sort(Less, values)|;
  }

  lemma MedianPositive(values: seq<real>)
    requires |values| > 0 && forall i :: 0 <= i < |values| ==> values[i] > 0.0
    ensures Median(values) > 0.0
  {
    hide Sort;
    var sorted := Sort(Less, values);
    forall i | 0 <= i < |sorted|
      ensures sorted[i] > 0.0
    {
      assert sorted[i] in multiset(sorted);
      assert sorted[i] in values;
    }
  }

  // ------------------------------------------------------------ one value less

  function AtMost(s: seq<real>, m: real): nat {
    if |s| == 0 then 0 else (if s[0] <= m then 1 else 0) + AtMost(s[1..], m)
  }

  function AtLeast(s: seq<real>, m: real): nat {
    if |s| == 0 then 0 else (if s[0] >= m then 1 else 0) + AtLeast(s[1..], m)
  }

  lemma {:induction false} InsertCounts(x: real, s: seq<real>, m: real)
    ensures AtMost(Insert(Less, x, s), m) == AtMost(s, m) + if x <= m then 1 else 0
    ensures AtLeast(Insert(Less, x, s), m) == AtLeast(s, m) + if x >= m then 1 else 0
    decreases |s|
  {
    if |s| == 0 || x < s[0] {
      assert ([x] + s)[1..] == s;
    } else {
      InsertCounts(x, s[1..], m);
      assert ([s[0]] + Insert(Less, x, s[1..]))[1..] == Insert(Less, x, s[1..]);
    }
  }

  lemma {:induction false} CountsLast(s: seq<real>, m: real)
    requires |s| > 0
    ensures AtMost(s, m) == AtMost(s[..|s| - 1], m) + if s[|s| - 1] <= m then 1 else 0
    ensures AtLeast(s, m) == AtLeast(s[..|s| - 1], m) + if s[|s| - 1] >= m then 1 else 0
    decreases |s|
  {
    if |s| > 1 {
      CountsLast(s[1..], m);
      assert s[..|s| - 1][1..] == s[1..][..|s| - 2];
    }
  }

  lemma {:induction false} SortCounts(s: seq<real>, m: real)
    ensures AtMost(Sort(Less, s), m) == AtMost(s, m) && AtLeast(Sort(Less, s), m) == AtLeast(s, m)
    decreases |s|
  {
    hide Insert, AtMost, AtLeast;
    if |s| > 0 {
      SortCounts(s[..|s| - 1], m);
      InsertCounts(s[|s| - 1], Sort(Less, s[..|s| - 1]), m);
      CountsLast(s, m);
    } else {
      assert Sort(Less, s) == s;
    }
  }

  /** Two places that count. */
  lemma {:induction false} TwoAtMost(s: seq<real>, m: real, i: nat, j: nat)
    requires i < j < |s| && s[i] <= m && s[j] <= m
    ensures AtMost(s, m) >= 2
    decreases |s|
  {
    if i > 0 {
      TwoAtMost(s[1..], m, i - 1, j - 1);
    } else {
      OneAtMost(s[1..], m, j - 1);
    }
  }

  lemma {:induction false} OneAtMost(s: seq<real>, m: real, j: nat)
    requires j < |s| && s[j] <= m
    ensures AtMost(s, m) >= 1
    decreases |s|
  {
    if j > 0 {
      OneAtMost(s[1..], m, j - 1);
    }
  }

  lemma {:induction false} TwoAtLeast(s: seq<real>, m: real, i: nat, j: nat)
    requires i < j < |s| && s[i] >= m && s[j] >= m
    ensures AtLeast(s, m) >= 2
    decreases |s|
  {
    if i > 0 {
      TwoAtLeast(s[1..], m, i - 1, j - 1);
    } else {
      OneAtLeast(s[1..], m, j - 1);
    }
  }

  lemma {:induction false} OneAtLeast(s: seq<real>, m: real, j: nat)
    requires j < |s| && s[j] >= m
    ensures AtLeast(s, m) >= 1
    decreases |s|
  {
    if j > 0 {
      OneAtLeast(s[1..], m, j - 1);
    }
  }

  /** With two that count, one remains whichever place is left out. */
  lemma {:induction false} AnotherAtMost(s: seq<real>, m: real, out: nat) returns (i: nat)
    requires out < |s| && AtMost(s, m) >= 2
    ensures i < |s| && i != out && s[i] <= m
    decreases |s|
  {
    if out == 0 {
      i := SomeAtMost(s[1..], m);
      i := i + 1;
    } else if s[0] <= m {
      i := 0;
    } else {
      i := AnotherAtMost(s[1..], m, out - 1);
      i := i + 1;
    }
  }

  lemma {:induction false} SomeAtMost(s: seq<real>, m: real) returns (i: nat)
    requires AtMost(s, m) >= 1
    ensures i < |s| && s[i] <= m
    decreases |s|
  {
    if s[0] <= m {
      i := 0;
    } else {
      i := SomeAtMost(s[1..], m);
      i := i + 1;
    }
  }

  lemma {:induction false} AnotherAtLeast(s: seq<real>, m: real, out: nat) returns (i: nat)
    requires out < |s| && AtLeast(s, m) >= 2
    ensures i < |s| && i != out && s[i] >= m
    decreases |s|
  {
    if out == 0 {
      i := SomeAtLeast(s[1..], m);
      i := i + 1;
    } else if s[0] >= m {
      i := 0;
    } else {
      i := AnotherAtLeast(s[1..], m, out - 1);
      i := i + 1;
    }
  }

  lemma {:induction false} SomeAtLeast(s: seq<real>, m: real) returns (i: nat)
    requires AtLeast(s, m) >= 1
    ensures i < |s| && s[i] >= m
    decreases |s|
  {
    if s[0] >= m {
      i := 0;
    } else {
      i := SomeAtLeast(s[1..], m);
      i := i + 1;
    }
  }

  /** A value no larger and a value no smaller than the median remain when any
      one value is taken away. */
  lemma MedianBetweenOthers(values: seq<real>, out: nat) returns (low: nat, high: nat)
    requires |values| >= 3 && out < |values|
    ensures low < |values| && low != out && values[low] <= Median(values)
    ensures high < |values| && high != out && values[high] >= Median(values)
  {
    var m, sorted, n := Median(values), Sort(Less, values), |values|;
    SortAscends(values);
    SortCounts(values, m);
    if n % 2 == 1 {
      TwoAtMost(sorted, m, 0, n / 2);
      TwoAtLeast(sorted, m, n / 2, n - 1);
    } else {
      TwoAtMost(sorted, m, 0, n / 2 - 1);
      TwoAtLeast(sorted, m, n / 2, n - 1);
    }
    low := AnotherAtMost(values, m, out);
    high := AnotherAtLeast(values, m, out);
  }

  // ------------------------------------------------------- per-signer medians

  datatype Receipt = Receipt(signer: Bytes, value: real, proofRequested: bool, proofVerified: bool)

  /** Receipts that count: no failed proof, a positive value, a full key. */
  predicate Counts(r: Receipt) {
    !(r.proofRequested && !r.proofVerified) && r.value > 0.0 && |r.signer| == 32
  }

  /** The values of one signer, in receipt order. */
  function ValuesOf(receipts: seq<Receipt>, signer: Bytes): seq<real> {
    if |receipts| == 0 then []
    else
      var before, r := receipts[..|receipts| - 1], receipts[|receipts| - 1];
      ValuesOf(before, signer) + if Counts(r) && r.signer == signer then [r.value] else []
  }

  /** The signers in the order of their first counting receipt. */
  function Signers(receipts: seq<Receipt>): seq<Bytes> {
    if |receipts| == 0 then []
    else
      var before, r := Signers(receipts[..|receipts| - 1]), receipts[|receipts| - 1];
      if Counts(r) && r.signer !in before then before + [r.signer] else before
  }

  lemma {:induction false} SignersExact(receipts: seq<Receipt>)
    ensures Distinct(Signers(receipts))
    ensures forall k :: k in Signers(receipts) <==> |ValuesOf(receipts, k)| > 0
    decreases |receipts|
  {
    hide Counts;
    if |receipts| > 0 {
      SignersExact(receipts[..|receipts| - 1]);
    }
  }

  function SignerMedians(receipts: seq<Receipt>): (m: seq<real>)
    ensures |m| == |Signers(receipts)|
  {
    var signers := Signers(receipts);
    seq(|signers|, i requires 0 <= i < |signers| => Median(ValuesOf(receipts, signers[i])))
  }

  /** `_median_of_validator_medians` */
  function Sample(receipts: seq<Receipt>, minValidators: int): real {
    if |Signers(receipts)| < (if minValidators > 1 then minValidators else 1) then 0.0
    else Median(SignerMedians(receipts))
  }

  /** The first loop: the counting values in a dictionary by signer. */
  method GroupBySigner(receipts: seq<Receipt>) returns (order: seq<Bytes>, perValidator: map<Bytes, seq<real>>)
    ensures order == Signers(receipts)
    ensures forall k :: k in perValidator <==> k in order
    ensures forall k :: k in perValidator ==> perValidator[k] == ValuesOf(receipts, k)
  {
    hide Counts;
    order := [];
    perValidator := map[];
    var i := 0;
    while i < |receipts|
      invariant 0 <= i <= |receipts|
      invariant order == Signers(receipts[..i])
      invariant forall k :: k in perValidator <==> k in order
      invariant forall k :: k in perValidator ==> perValidator[k] == ValuesOf(receipts[..i], k)
    {
      assert receipts[..i + 1][..i] == receipts[..i];
      SignersExact(receipts[..i]);
      var receipt := receipts[i];
      if Counts(receipt) {
        if receipt.signer !in perValidator {
          order := order + [receipt.signer];
          perValidator := perValidator[receipt.signer := []];
        }
        perValidator := perValidator[receipt.signer := perValidator[receipt.signer] + [receipt.value]];
      }
      i := i + 1;
    }
    assert receipts[..|receipts|] == receipts;
  }

  /** The aggregation as the source runs it. */
  method SampleOf(receipts: seq<Receipt>, minValidators: int := MIN_PERFORMANCE_VALIDATORS) returns (r: real)
    ensures r == Sample(receipts, minValidators)
  {
    hide Counts, Median, ValuesOf, Signers;
    var order, perValidator := GroupBySigner(receipts);
    if |order| < (if minValidators > 1 then minValidators else 1) {
      return 0.0;
    }
    var medians: seq<real> := [];
    var i := 0;
    while i < |order|
      invariant 0 <= i <= |order|
      invariant medians == SignerMedians(receipts)[..i]
    {
      medians := medians + [Median(perValidator[order[i]])];
      i := i + 1;
    }
    assert SignerMedians(receipts)[..|order|] == SignerMedians(receipts);
    return Median(medians);
  }

  /** No single signer moves the sample past the others: with at least three
      signers it lies between the least and the greatest median of the signers
      other than any given one. */
  lemma OutlierRobust(receipts: seq<Receipt>, minValidators: int, signer: Bytes) returns (low: Bytes, high: Bytes)
    requires |Signers(receipts)| >= 3 && signer in Signers(receipts)
    requires Sample(receipts, minValidators) != 0.0
    ensures low in Signers(receipts) && low != signer && high in Signers(receipts) && high != signer
    ensures Median(ValuesOf(receipts, low)) <= Sample(receipts, minValidators) <= Median(ValuesOf(receipts, high))
  {
    hide Median, Counts;
    var signers := Signers(receipts);
    var out: nat :| out < |signers| && signers[out] == signer;
    SignersExact(receipts);
    var l, h := MedianBetweenOthers(SignerMedians(receipts), out);
    low, high := signers[l], signers[h];
  }

  /** Two signers other than the given one with the sample between their
      medians. */
  ghost predicate Bracketed(receipts: seq<Receipt>, sample: real, signer: Bytes) {
    exists low, high ::
      && low in Signers(receipts) && low != signer && high in Signers(receipts) && high != signer
      && Median(ValuesOf(receipts, low)) <= sample <= Median(ValuesOf(receipts, high))
  }

  /** A sample, if there is one, lies between the medians of the others, whichever
      signer is left out. */
  ghost predicate Robust(receipts: seq<Receipt>, minValidators: int) {
    Sample(receipts, minValidators) != 0.0 ==>
      forall signer :: signer in Signers(receipts) ==> Bracketed(receipts, Sample(receipts, minValidators), signer)
  }

  /** No receipts make one signer decide exactly when the minimum is three or
      more, as the default is. */
  lemma RobustExactly(minValidators: int)
    ensures (forall receipts :: Robust(receipts, minValidators)) <==> minValidators >= MIN_PERFORMANCE_VALIDATORS
  {
    if minValidators >= 3 {
      forall receipts
        ensures Robust(receipts, minValidators)
      {
        AlwaysRobust(receipts, minValidators);
      }
    } else {
      var receipts := TwoSignersNotRobust(minValidators, 2.0);
    }
  }

  lemma AlwaysRobust(receipts: seq<Receipt>, minValidators: int)
    requires minValidators >= 3
    ensures Robust(receipts, minValidators)
  {
    hide Median, Signers, ValuesOf;
    var sample := Sample(receipts, minValidators);
    if sample != 0.0 {
      forall signer | signer in Signers(receipts)
        ensures Bracketed(receipts, sample, signer)
      {
        var low, high := OutlierRobust(receipts, minValidators, signer);
      }
    }
  }

  /** Below three, one of two signers moves the sample anywhere above the other's
      median. */
  lemma TwoSignersNotRobust(minValidators: int, x: real) returns (receipts: seq<Receipt>)
    requires minValidators < 3 && x > 1.0
    ensures |Signers(receipts)| == 2 && Sample(receipts, minValidators) == (1.0 + x) / 2.0
    ensures !Robust(receipts, minValidators)
  {
    var a := Receipt(Zeros(32), 1.0, false, false);
    var b := Receipt(seq(32, _ => 1), x, false, false);
    assert a.signer[0] != b.signer[0] && Counts(a) && Counts(b);
    receipts := [a] + [b];
    hide Signers, ValuesOf, Sort, Median, Sample;
    TwoReceipts(a, b);
    OneValue(1.0);
    OneValue(x);
    TwoValues(1.0, x);
    SampleOfTwo(receipts, minValidators);
    OneOther(receipts, minValidators);
  }

  /** Of two signers, the second cannot be left out when the sample is above the
      first one's median. */
  lemma OneOther(receipts: seq<Receipt>, minValidators: int)
    requires |Signers(receipts)| == 2 && Sample(receipts, minValidators) != 0.0
    requires Sample(receipts, minValidators) > Median(ValuesOf(receipts, Signers(receipts)[0]))
    ensures !Robust(receipts, minValidators)
  {
    hide Signers, ValuesOf, Median, Sample;
    var signers, sample := Signers(receipts), Sample(receipts, minValidators);
    assert forall high :: high in signers && high != signers[1] ==> high == signers[0];
    assert !Bracketed(receipts, sample, signers[1]);
  }

  lemma SampleOfTwo(receipts: seq<Receipt>, minValidators: int)
    requires |Signers(receipts)| == 2 && minValidators < 3
    ensures var s := Signers(receipts);
            Sample(receipts, minValidators) == Median([Median(ValuesOf(receipts, s[0])), Median(ValuesOf(receipts, s[1]))])
  {
    hide Median, Signers, ValuesOf;
    var s := Signers(receipts);
    assert SignerMedians(receipts) == [Median(ValuesOf(receipts, s[0])), Median(ValuesOf(receipts, s[1]))];
  }

  lemma TwoReceipts(a: Receipt, b: Receipt)
    requires Counts(a) && Counts(b) && a.signer != b.signer
    ensures Signers([a] + [b]) == [a.signer, b.signer]
    ensures ValuesOf([a] + [b], a.signer) == [a.value] && ValuesOf([a] + [b], b.signer) == [b.value]
  {
    var receipts := [a] + [b];
    assert receipts[..1] == [a] && [a][..0] == [];
    assert Signers([a]) == [a.signer];
    assert ValuesOf([a], a.signer) == [a.value] && ValuesOf([a], b.signer) == [];
  }

  lemma OneValue(x: real)
    ensures Median([x]) == x
  {
    assert [x][..0] == [];
    assert Sort(Less, [x]) == [x];
  }

  lemma TwoValues(x: real, y: real)
    requires x <= y
    ensures Median([x, y]) == (x + y) / 2.0
  {
    assert [x, y][..1] == [x] && [x][..0] == [];
    assert Sort(Less, [x]) == [x];
    assert Insert(Less, y, [x]) == [x] + Insert(Less, y, []);
    assert Sort(Less, [x, y]) == [x, y];
  }

  // ---------------------------------------------------------- which receipts count

  lemma LastIgnored(before: seq<Receipt>, r: Receipt, k: Bytes)
    requires (r.proofRequested && !r.proofVerified) || r.value <= 0.0 || |r.signer| != 32
    ensures ValuesOf(before + [r], k) == ValuesOf(before, k) && Signers(before + [r]) == Signers(before)
  {
    assert (before + [r])[..|before|] == before;
  }

  lemma {:induction false} WithoutIgnored(before: seq<Receipt>, r: Receipt, after: seq<Receipt>, k: Bytes)
    requires (r.proofRequested && !r.proofVerified) || r.value <= 0.0 || |r.signer| != 32
    ensures ValuesOf(before + [r] + after, k) == ValuesOf(before + after, k)
    ensures Signers(before + [r] + after) == Signers(before + after)
    decreases |after|
  {
    var n := |after|;
    if n == 0 {
      LastIgnored(before, r, k);
      assert before + [] == before && before + [r] + [] == before + [r];
    } else {
      var whole, rest := before + [r] + after, before + after;
      assert whole[..|whole| - 1] == before + [r] + after[..n - 1] && rest[..|rest| - 1] == before + after[..n - 1];
      hide Counts;
      WithoutIgnored(before, r, after[..n - 1], k);
    }
  }

  /** A receipt whose requested proof was not verified, whose value is not positive
      or whose key has not 32 bytes changes no sample. */
  lemma IgnoredUnchanged(before: seq<Receipt>, r: Receipt, after: seq<Receipt>, minValidators: int)
    requires (r.proofRequested && !r.proofVerified) || r.value <= 0.0 || |r.signer| != 32
    ensures Sample(before + [r] + after, minValidators) == Sample(before + after, minValidators)
  {
    var a, b := before + [r] + after, before + after;
    forall k
      ensures ValuesOf(a, k) == ValuesOf(b, k) && Signers(a) == Signers(b)
    {
      WithoutIgnored(before, r, after, k);
    }
    assert Signers(a) == Signers(b) by { WithoutIgnored(before, r, after, []); }
    hide Median, ValuesOf, Signers;
    assert SignerMedians(a) == SignerMedians(b);
  }

  /** Every other receipt adds its value to its signer's, and to nobody else's. */
  lemma OtherCounts(before: seq<Receipt>, r: Receipt, k: Bytes)
    requires (r.proofRequested ==> r.proofVerified) && r.value > 0.0 && |r.signer| == 32
    ensures ValuesOf(before + [r], k) == if k == r.signer then ValuesOf(before, k) + [r.value] else ValuesOf(before, k)
    ensures r.signer in Signers(before + [r])
  {
    assert (before + [r])[..|before|] == before;
  }

  /** The signers are those with a receipt whose proof, if requested, was verified,
      whose value is positive and whose key has 32 bytes. */
  lemma {:induction false} SignersAre(receipts: seq<Receipt>, k: Bytes)
    ensures k in Signers(receipts) <==>
            exists r :: r in receipts && r.signer == k && |k| == 32 && r.value > 0.0 && (r.proofRequested ==> r.proofVerified)
    decreases |receipts|
  {
    if |receipts| > 0 {
      SignersAre(receipts[..|receipts| - 1], k);
      assert receipts == receipts[..|receipts| - 1] + [receipts[|receipts| - 1]];
    }
  }

  // -------------------------------------------------------- order independence

  lemma {:induction false} ValuesPositive(receipts: seq<Receipt>, k: Bytes)
    ensures forall i :: 0 <= i < |ValuesOf(receipts, k)| ==> ValuesOf(receipts, k)[i] > 0.0
    decreases |receipts|
  {
    if |receipts| > 0 {
      ValuesPositive(receipts[..|receipts| - 1], k);
    }
  }

  /** There is a sample exactly when there is a signer and there are as many as the
      minimum asks for. */
  lemma SampleExactly(receipts: seq<Receipt>, minValidators: int)
    ensures Sample(receipts, minValidators) > 0.0 <==> |Signers(receipts)| >= 1 && |Signers(receipts)| >= minValidators
    ensures Sample(receipts, minValidators) >= 0.0
  {
    hide Counts, Median, Signers, ValuesOf;
    var signers, medians := Signers(receipts), SignerMedians(receipts);
    forall i | 0 <= i < |medians|
      ensures medians[i] > 0.0
    {
      SignersExact(receipts);
      assert signers[i] in signers;
      ValuesPositive(receipts, signers[i]);
      MedianPositive(ValuesOf(receipts, signers[i]));
    }
    if |signers| > 0 {
      MedianPositive(medians);
    }
  }

  lemma {:induction false} DistinctMultiset<T>(a: seq<T>, b: seq<T>)
    requires Distinct(a) && Distinct(b) && forall x :: x in a <==> x in b
    ensures multiset(a) == multiset(b)
  {
    Multiplicity(a);
    Multiplicity(b);
    forall x
      ensures multiset(a)[x] == multiset(b)[x]
    {
      assert x in a <==> x in b;
    }
  }

  lemma {:induction false} Multiplicity<T>(a: seq<T>)
    requires Distinct(a)
    ensures forall x :: multiset(a)[x] == if x in a then 1 else 0
    decreases |a|
  {
    if |a| > 0 {
      var rest := a[..|a| - 1];
      Multiplicity(rest);
      assert a == rest + [a[|a| - 1]];
      assert a[|a| - 1] !in rest;
    }
  }

  /** The sample depends only on each signer's multiset of values: not on the
      order of receipts, and not on receipts that do not count. */
  lemma SampleUnordered(a: seq<Receipt>, b: seq<Receipt>, minValidators: int)
    requires forall k :: multiset(ValuesOf(a, k)) == multiset(ValuesOf(b, k))
    ensures Sample(a, minValidators) == Sample(b, minValidators)
  {
    hide Counts, Median;
    SignersExact(a);
    SignersExact(b);
    forall k
      ensures |ValuesOf(a, k)| == |ValuesOf(b, k)| && Median(ValuesOf(a, k)) == Median(ValuesOf(b, k))
    {
      assert |multiset(ValuesOf(a, k))| == |multiset(ValuesOf(b, k))|;
      MedianUnordered(ValuesOf(a, k), ValuesOf(b, k));
    }
    DistinctMultiset(Signers(a), Signers(b));
    var f := k => Median(ValuesOf(a, k));
    MappedMultiset(f, Signers(a), Signers(b));
    assert SignerMedians(a) == Mapped(f, Signers(a));
    assert SignerMedians(b) == Mapped(f, Signers(b));
    assert |Signers(a)| == |multiset(Signers(a))| == |Signers(b)|;
    MedianUnordered(SignerMedians(a), SignerMedians(b));
  }
}
