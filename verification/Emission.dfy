/** From epoch scores to emission: the moving average of an entry and the split
    of the model budgets over UIDs. Floats are reals. */
module Emission {
  import opened Sorting
  import opened Wrappers

  // ------------------------------------------------------- ordered dictionaries

  /** A dictionary with its insertion order. */
  datatype Dict<K, V> = Dict(keys: seq<K>, vals: map<K, V>)

  ghost predicate Ok<K(!new), V>(d: Dict<K, V>) {
    Distinct(d.keys) && forall k :: k in d.vals <==> k in d.keys
  }

  function Put<K(!new), V>(d: Dict<K, V>, k: K, v: V): (r: Dict<K, V>)
    requires Ok(d)
    ensures Ok(r) && r.vals == d.vals[k := v]
  {
    Dict(if k in d.vals then d.keys else d.keys + [k], d.vals[k := v])
  }

  function Sum<K(!new)>(keys: seq<K>, vals: map<K, real>): real
    requires forall k :: k in keys ==> k in vals
  {
    if |keys| == 0 then 0.0 else Sum(keys[..|keys| - 1], vals) + vals[keys[|keys| - 1]]
  }

  lemma {:induction false} SumUntouched<K(!new)>(keys: seq<K>, vals: map<K, real>, k: K, v: real)
    requires forall x :: x in keys ==> x in vals
    requires k !in keys
    ensures Sum(keys, vals[k := v]) == Sum(keys, vals)
    decreases |keys|
  {
    if |keys| > 0 {
      SumUntouched(keys[..|keys| - 1], vals, k, v);
    }
  }

  /** Changing one value changes the sum by as much. */
  lemma {:induction false} SumChanged<K(!new)>(keys: seq<K>, vals: map<K, real>, k: K, v: real)
    requires forall x :: x in keys ==> x in vals
    requires Distinct(keys) && k in keys
    ensures Sum(keys, vals[k := v]) == Sum(keys, vals) - vals[k] + v
    decreases |keys|
  {
    var rest, last := keys[..|keys| - 1], keys[|keys| - 1];
    if last == k {
      SumUntouched(rest, vals, k, v);
    } else {
      assert k in rest;
      SumChanged(rest, vals, k, v);
    }
  }

  lemma {:induction false} SumPositive<K(!new)>(keys: seq<K>, vals: map<K, real>)
    requires forall x :: x in keys ==> x in vals && vals[x] > 0.0
    ensures |keys| > 0 ==> Sum(keys, vals) > 0.0
    ensures |keys| == 0 ==> Sum(keys, vals) == 0.0
    decreases |keys|
  {
    if |keys| > 0 {
      SumPositive(keys[..|keys| - 1], vals);
    }
  }

  lemma {:induction false} SumZero<K(!new)>(keys: seq<K>, vals: map<K, real>)
    requires forall x :: x in keys ==> x in vals && vals[x] == 0.0
    ensures Sum(keys, vals) == 0.0
    decreases |keys|
  {
    if |keys| > 0 {
      SumZero(keys[..|keys| - 1], vals);
    }
  }

  // ------------------------------------------------------------------- budgets

  type Budgets = Dict<string, real>

  const EMPTY: Budgets := Dict([], map[])

  /** `{k: v for k, v in d.items() if v > 0}`, over the first n items. */
  function Positive(d: Budgets, n: nat): (r: Budgets)
    requires Ok(d) && n <= |d.keys|
    ensures Ok(r)
    ensures forall k :: k in r.vals <==> k in d.keys[..n] && d.vals[k] > 0.0
    ensures forall k :: k in r.vals ==> r.vals[k] == d.vals[k]
  {
    if n == 0 then EMPTY
    else
      var before, k := Positive(d, n - 1), d.keys[n - 1];
      assert d.keys[..n] == d.keys[..n - 1] + [k];
      if d.vals[k] > 0.0 then Put(before, k, d.vals[k]) else before
  }

  /** `groups.get(m) or m` */
  function GroupOf(groups: map<string, string>, m: string): string {
    if m in groups && groups[m] != "" then groups[m] else m
  }

  /** Model m belongs to group g: the one it is mapped to, or itself when it is
      mapped to nothing or to the empty name. */
  ghost predicate InGroup(groups: map<string, string>, m: string, g: string) {
    if m !in groups || groups[m] == "" then g == m else g == groups[m]
  }

  lemma GroupExact(groups: map<string, string>, m: string, g: string)
    ensures GroupOf(groups, m) == g <==> InGroup(groups, m, g)
  {
  }

  /** The largest budget of each group's models, over the first n models. */
  function Largest(budgets: Budgets, groups: map<string, string>, n: nat): (r: Budgets)
    requires Ok(budgets) && n <= |budgets.keys|
    ensures Ok(r)
  {
    if n == 0 then EMPTY
    else
      var before, m := Largest(budgets, groups, n - 1), budgets.keys[n - 1];
      var g := GroupOf(groups, m);
      var held := if g in before.vals then before.vals[g] else 0.0;
      Put(before, g, if budgets.vals[m] > held then budgets.vals[m] else held)
  }

  /** Model i is in group g and has budget v. */
  ghost predicate HasBudget(budgets: Budgets, groups: map<string, string>, i: nat, g: string, v: real)
    requires Ok(budgets)
  {
    i < |budgets.keys| && InGroup(groups, budgets.keys[i], g) && budgets.vals[budgets.keys[i]] == v
  }

  /** Of the first n models: the groups of r are theirs, and each has the largest
      budget of its models. */
  ghost predicate Tops(r: Budgets, budgets: Budgets, groups: map<string, string>, n: nat)
    requires Ok(budgets)
  {
    && (forall i: nat, g, v :: i < n && HasBudget(budgets, groups, i, g, v) ==> g in r.vals && r.vals[g] >= v)
    && (forall g :: g in r.vals ==> exists i: nat :: i < n && HasBudget(budgets, groups, i, g, r.vals[g]))
  }

  lemma LargestStep(budgets: Budgets, groups: map<string, string>, n: nat)
    requires Ok(budgets) && 0 < n <= |budgets.keys|
    ensures budgets.keys[n - 1] in budgets.vals
    ensures var before, g, v := Largest(budgets, groups, n - 1).vals, GroupOf(groups, budgets.keys[n - 1]), budgets.vals[budgets.keys[n - 1]];
            v > 0.0 ==> Largest(budgets, groups, n).vals == before[g := if g in before && before[g] >= v then before[g] else v]
  {
    hide GroupOf;
  }

  lemma {:induction false} LargestExact(budgets: Budgets, groups: map<string, string>, n: nat)
    requires Ok(budgets) && n <= |budgets.keys|
    requires forall k :: k in budgets.vals ==> budgets.vals[k] > 0.0
    ensures Tops(Largest(budgets, groups, n), budgets, groups, n)
    decreases n
  {
    if n > 0 {
      hide *;
      LargestExact(budgets, groups, n - 1);
      LargestGrows(budgets, groups, n);
    } else {
      hide *;
      TopsOfNone(budgets, groups);
    }
  }

  lemma TopsOfNone(budgets: Budgets, groups: map<string, string>)
    requires Ok(budgets)
    ensures Tops(Largest(budgets, groups, 0), budgets, groups, 0)
  {
    hide Ok, HasBudget;
  }

  lemma LargestGrows(budgets: Budgets, groups: map<string, string>, n: nat)
    requires Ok(budgets) && 0 < n <= |budgets.keys|
    requires forall k :: k in budgets.vals ==> budgets.vals[k] > 0.0
    requires Tops(Largest(budgets, groups, n - 1), budgets, groups, n - 1)
    ensures Tops(Largest(budgets, groups, n), budgets, groups, n)
  {
    hide *;
    LargestStep(budgets, groups, n);
    var m, g := budgets.keys[n - 1], GroupOf(groups, budgets.keys[n - 1]);
    var v := budgets.vals[m];
    OwnBudget(budgets, groups, n - 1);
    TopsGrow(Largest(budgets, groups, n - 1), Largest(budgets, groups, n), budgets, groups, n - 1, g, v);
  }

  lemma OwnBudget(budgets: Budgets, groups: map<string, string>, i: nat)
    requires Ok(budgets) && i < |budgets.keys|
    ensures budgets.keys[i] in budgets.vals
    ensures HasBudget(budgets, groups, i, GroupOf(groups, budgets.keys[i]), budgets.vals[budgets.keys[i]])
  {
    GroupExact(groups, budgets.keys[i], GroupOf(groups, budgets.keys[i]));
  }

  lemma InKeys(d: Budgets, i: nat)
    requires Ok(d) && i < |d.keys|
    ensures d.keys[i] in d.vals
  {
  }

  lemma TopsGrow(before: Budgets, r: Budgets, budgets: Budgets, groups: map<string, string>, n: nat, g: string, v: real)
    requires Ok(budgets) && Tops(before, budgets, groups, n) && HasBudget(budgets, groups, n, g, v) && v > 0.0
    requires r.vals == before.vals[g := if g in before.vals && before.vals[g] >= v then before.vals[g] else v]
    ensures Tops(r, budgets, groups, n + 1)
  {
    hide Ok, GroupOf;
    forall i: nat, h, w | i < n + 1 && HasBudget(budgets, groups, i, h, w)
      ensures h in r.vals && r.vals[h] >= w
    {
      if i < n {
        assert h in before.vals && before.vals[h] >= w;
      }
    }
    forall h | h in r.vals
      ensures exists i: nat :: i < n + 1 && HasBudget(budgets, groups, i, h, r.vals[h])
    {
      if h in before.vals && r.vals[h] == before.vals[h] {
        var i: nat :| i < n && HasBudget(budgets, groups, i, h, before.vals[h]);
      }
    }
  }

  function Logical(budgets: Budgets, groups: map<string, string>, groupBudgets: Option<Budgets>): (r: Budgets)
    requires Ok(budgets) && (groupBudgets.Some? ==> Ok(groupBudgets.value))
    ensures Ok(r)
  {
    match groupBudgets
    case None => Largest(budgets, groups, |budgets.keys|)
    case Some(d) => Positive(d, |d.keys|)
  }

  lemma LogicalPositive(budgets: Budgets, groups: map<string, string>, groupBudgets: Option<Budgets>)
    requires Ok(budgets) && (groupBudgets.Some? ==> Ok(groupBudgets.value))
    requires forall k :: k in budgets.vals ==> budgets.vals[k] > 0.0
    ensures var r := Logical(budgets, groups, groupBudgets); forall g :: g in r.vals ==> r.vals[g] > 0.0
  {
    LargestExact(budgets, groups, |budgets.keys|);
    if groupBudgets.None? {
      hide Largest;
      var r := Largest(budgets, groups, |budgets.keys|);
      forall g | g in r.vals
        ensures r.vals[g] > 0.0
      {
        var i: nat :| i < |budgets.keys| && HasBudget(budgets, groups, i, g, r.vals[g]);
      }
    }
  }

  method LogicalBudgets(budgets: Budgets, groups: map<string, string>, groupBudgets: Option<Budgets>) returns (r: Budgets)
    requires Ok(budgets) && (groupBudgets.Some? ==> Ok(groupBudgets.value))
    ensures r == Logical(budgets, groups, groupBudgets)
  {
    hide GroupOf, Positive, Put, Ok;
    if groupBudgets.Some? {
      return Positive(groupBudgets.value, |groupBudgets.value.keys|);
    }
    r := EMPTY;
    var i := 0;
    while i < |budgets.keys|
      invariant 0 <= i <= |budgets.keys|
      invariant r == Largest(budgets, groups, i)
    {
      InKeys(budgets, i);
      var g, budget := GroupOf(groups, budgets.keys[i]), budgets.vals[budgets.keys[i]];
      var held := if g in r.vals then r.vals[g] else 0.0;
      r := Put(r, g, if budget > held then budget else held);
      i := i + 1;
    }
  }

  // ------------------------------------------------------------------- entries

  datatype Entry = Entry(modelId: string, modelIndex: int, ema: real)

  datatype Miner = Miner(uid: int, address: string, entries: seq<Entry>)

  /** Scores below this count as zero. */
  const DUST := 0.000001

  /** What the split is computed from; addresses in `excluded` are lower-case. */
  datatype Policy = Policy(
    budgets: Budgets, groups: map<string, string>, logical: Budgets,
    excluded: set<(string, int)>, lower: string -> string)

  /** The entries that take part, and the group they take part in. */
  predicate Eligible(p: Policy, m: Miner, e: Entry) {
    && (p.lower(m.address), e.modelIndex) !in p.excluded
    && e.modelId in p.budgets.vals
    && GroupOf(p.groups, e.modelId) in p.logical.vals
    && e.ema >= DUST
  }

  type Shares = seq<(int, real)>

  /** What one entry adds to a group. */
  function EntryShare(p: Policy, m: Miner, e: Entry, g: string): Shares {
    if Eligible(p, m, e) && GroupOf(p.groups, e.modelId) == g then [(m.uid, e.ema)] else []
  }

  function MinerShares(p: Policy, m: Miner, g: string, n: nat): Shares
    requires n <= |m.entries|
  {
    if n == 0 then [] else MinerShares(p, m, g, n - 1) + EntryShare(p, m, m.entries[n - 1], g)
  }

  function GroupShares(p: Policy, states: seq<Miner>, g: string): Shares {
    if |states| == 0 then []
    else
      var m := states[|states| - 1];
      GroupShares(p, states[..|states| - 1], g) + MinerShares(p, m, g, |m.entries|)
  }

  function ScoreTotal(es: Shares): real {
    if |es| == 0 then 0.0 else ScoreTotal(es[..|es| - 1]) + es[|es| - 1].1
  }

  function UidScore(es: Shares, uid: int): real {
    if |es| == 0 then 0.0
    else UidScore(es[..|es| - 1], uid) + if es[|es| - 1].0 == uid then es[|es| - 1].1 else 0.0
  }

  /** Shares are positive and belong to known UIDs. */
  predicate Sound(es: Shares, uids: set<int>) {
    forall i :: 0 <= i < |es| ==> es[i].0 in uids && es[i].1 > 0.0
  }

  lemma {:induction false} MinerSharesSound(p: Policy, m: Miner, g: string, n: nat)
    requires n <= |m.entries|
    ensures Sound(MinerShares(p, m, g, n), {m.uid})
    decreases n
  {
    if n > 0 {
      MinerSharesSound(p, m, g, n - 1);
    }
  }

  function UidSet(states: seq<Miner>): set<int> {
    set i | 0 <= i < |states| :: states[i].uid
  }

  lemma {:induction false} GroupSharesSound(p: Policy, states: seq<Miner>, g: string)
    ensures Sound(GroupShares(p, states, g), UidSet(states))
    decreases |states|
  {
    if |states| > 0 {
      var before, m := states[..|states| - 1], states[|states| - 1];
      GroupSharesSound(p, before, g);
      MinerSharesSound(p, m, g, |m.entries|);
      assert UidSet(states) == UidSet(before) + {m.uid};
    }
  }

  lemma {:induction false} ScoresPositive(es: Shares, uids: set<int>)
    requires Sound(es, uids)
    ensures ScoreTotal(es) >= 0.0 && (|es| > 0 ==> ScoreTotal(es) > 0.0)
    ensures forall u :: UidScore(es, u) >= 0.0
    decreases |es|
  {
    if |es| > 0 {
      ScoresPositive(es[..|es| - 1], uids);
    }
  }

  // --------------------------------------------------------------------- split

  /** The part of a share that falls to a score. */
  function Cut(share: real, score: real, total: real): real
    requires total > 0.0
  {
    share * score / total
  }

  lemma CutGrows(share: real, a: real, b: real, t: real)
    requires t > 0.0
    ensures Cut(share, a + b, t) == Cut(share, a, t) + Cut(share, b, t)
  {
    assert share * (a + b) == share * a + share * b;
    DivideSum(share * a, share * b, t);
  }

  lemma CutBounds(share: real, a: real, t: real)
    requires t > 0.0 && share >= 0.0 && a >= 0.0
    ensures Cut(share, a, t) >= 0.0 && Cut(share, 0.0, t) == 0.0 && Cut(share, t, t) == share
  {
    assert share * a >= 0.0;
  }

  lemma DivideSum(a: real, b: real, t: real)
    requires t > 0.0
    ensures (a + b) / t == a / t + b / t
  {
  }

  /** The part of one group that a UID receives. */
  function Part(p: Policy, states: seq<Miner>, g: string, share: real, uid: int): real {
    var es := GroupShares(p, states, g);
    if ScoreTotal(es) <= 0.0 then 0.0 else Cut(share, UidScore(es, uid), ScoreTotal(es))
  }

  function Share(p: Policy, g: string): real
    requires Ok(p.logical) && g in p.logical.vals && Sum(p.logical.keys, p.logical.vals) > 0.0
  {
    p.logical.vals[g] / Sum(p.logical.keys, p.logical.vals)
  }

  ghost predicate Splits(p: Policy) {
    && Ok(p.logical) && Sum(p.logical.keys, p.logical.vals) > 0.0
    && forall g :: g in p.logical.vals ==> p.logical.vals[g] > 0.0
  }

  /** The weight of a UID from the first n groups. */
  function Weight(p: Policy, states: seq<Miner>, uid: int, n: nat): real
    requires Splits(p) && n <= |p.logical.keys|
  {
    if n == 0 then 0.0
    else
      var g := p.logical.keys[n - 1];
      Weight(p, states, uid, n - 1) + Part(p, states, g, Share(p, g), uid)
  }

  /** The shares of those groups that have no scoring entry. */
  function Unallocated(p: Policy, states: seq<Miner>, n: nat): real
    requires Splits(p) && n <= |p.logical.keys|
  {
    if n == 0 then 0.0
    else
      var g := p.logical.keys[n - 1];
      Unallocated(p, states, n - 1) + if ScoreTotal(GroupShares(p, states, g)) <= 0.0 then Share(p, g) else 0.0
  }

  function SharesUpTo(p: Policy, n: nat): real
    requires Splits(p) && n <= |p.logical.keys|
  {
    if n == 0 then 0.0 else SharesUpTo(p, n - 1) + Share(p, p.logical.keys[n - 1])
  }

  lemma {:induction false} SharesSum(p: Policy, n: nat)
    requires Splits(p) && n <= |p.logical.keys|
    ensures SharesUpTo(p, n) == Sum(p.logical.keys[..n], p.logical.vals) / Sum(p.logical.keys, p.logical.vals)
    decreases n
  {
    if n > 0 {
      SharesSum(p, n - 1);
      var keys, total := p.logical.keys, Sum(p.logical.keys, p.logical.vals);
      assert keys[..n][..n - 1] == keys[..n - 1];
      DivideSum(Sum(keys[..n - 1], p.logical.vals), p.logical.vals[keys[n - 1]], total);
    }
  }

  /** The shares of all groups are one. */
  lemma SharesAreOne(p: Policy)
    requires Splits(p)
    ensures SharesUpTo(p, |p.logical.keys|) == 1.0
  {
    SharesSum(p, |p.logical.keys|);
    assert p.logical.keys[..|p.logical.keys|] == p.logical.keys;
    CutBounds(1.0, 0.0, Sum(p.logical.keys, p.logical.vals));
  }

  lemma SharePositive(p: Policy, g: string)
    requires Splits(p) && g in p.logical.vals
    ensures Share(p, g) > 0.0
  {
  }

  /** Splitting one group's share over its entries. */
  method SplitGroup(weights: map<int, real>, uids: seq<int>, es: Shares, share: real) returns (r: map<int, real>)
    requires Distinct(uids) && (forall u :: u in uids <==> u in weights)
    requires Sound(es, weights.Keys) && ScoreTotal(es) > 0.0 && share >= 0.0
    ensures r.Keys == weights.Keys
    ensures forall u :: u in weights ==> r[u] == weights[u] + Cut(share, UidScore(es, u), ScoreTotal(es))
    ensures Sum(uids, r) == Sum(uids, weights) + share
  {
    hide Sum, Distinct, Cut;
    var total := ScoreTotal(es);
    CutBounds(share, 0.0, total);
    r := weights;
    var i := 0;
    while i < |es|
      invariant 0 <= i <= |es|
      invariant r.Keys == weights.Keys
      invariant forall u :: u in uids ==> u in r
      invariant forall u :: u in weights ==> r[u] == weights[u] + Cut(share, UidScore(es[..i], u), total)
      invariant Sum(uids, r) == Sum(uids, weights) + Cut(share, ScoreTotal(es[..i]), total)
    {
      var (uid, score) := es[i];
      assert es[..i + 1][..i] == es[..i];
      CutGrows(share, ScoreTotal(es[..i]), score, total);
      CutGrows(share, UidScore(es[..i], uid), score, total);
      SumChanged(uids, r, uid, r[uid] + Cut(share, score, total));
      r := r[uid := r[uid] + Cut(share, score, total)];
      i := i + 1;
    }
    assert es[..|es|] == es;
  }

  function Held(byGroup: map<string, Shares>, g: string): Shares {
    if g in byGroup then byGroup[g] else []
  }

  /** `approved` holds the approved models of each logical group. */
  ghost predicate Approves(approved: map<string, set<string>>, p: Policy) {
    forall g, m ::
      ((g in approved && m in approved[g]) <==>
       (m in p.budgets.vals && GroupOf(p.groups, m) == g && g in p.logical.vals))
  }

  /** One entry behind those collected before: the checks in the source's
      order. */
  method CollectEntry(p: Policy, approved: map<string, set<string>>, m: Miner, e: Entry, before: map<string, Shares>)
    returns (byGroup: map<string, Shares>)
    requires Approves(approved, p)
    ensures forall g :: Held(byGroup, g) == Held(before, g) + EntryShare(p, m, e, g)
  {
    var g := GroupOf(p.groups, e.modelId);
    assert (g in approved && e.modelId in approved[g]) <==> (e.modelId in p.budgets.vals && g in p.logical.vals);
    hide Approves, GroupOf;
    if (p.lower(m.address), e.modelIndex) in p.excluded {
      return before;
    }
    if e.modelId !in p.budgets.vals {
      return before;
    }
    if g !in approved || e.modelId !in approved[g] {
      return before;
    }
    var score := e.ema;
    if score < DUST {
      score := 0.0;
    }
    if score <= 0.0 {
      return before;
    }
    return before[g := Held(before, g) + [(m.uid, score)]];
  }

  /** The entries of one miner behind those collected before. */
  method CollectMiner(p: Policy, approved: map<string, set<string>>, m: Miner, before: map<string, Shares>)
    returns (byGroup: map<string, Shares>)
    requires Approves(approved, p)
    ensures forall g :: Held(byGroup, g) == Held(before, g) + MinerShares(p, m, g, |m.entries|)
  {
    hide Approves, Held, Eligible;
    byGroup := before;
    var j := 0;
    while j < |m.entries|
      invariant 0 <= j <= |m.entries|
      invariant forall g :: Held(byGroup, g) == Held(before, g) + MinerShares(p, m, g, j)
    {
      byGroup := CollectEntry(p, approved, m, m.entries[j], byGroup);
      j := j + 1;
    }
  }

  /** The entries of every group, collected in state order. */
  method CollectEntries(p: Policy, approved: map<string, set<string>>, states: seq<Miner>)
    returns (byGroup: map<string, Shares>)
    requires Approves(approved, p)
    ensures forall g :: Held(byGroup, g) == GroupShares(p, states, g)
  {
    hide Approves, MinerShares, Held;
    byGroup := map[];
    assert forall g :: Held(byGroup, g) == [] by { HeldNothing(); }
    var i := 0;
    while i < |states|
      invariant 0 <= i <= |states|
      invariant forall g :: Held(byGroup, g) == GroupShares(p, states[..i], g)
    {
      assert states[..i + 1][..i] == states[..i];
      byGroup := CollectMiner(p, approved, states[i], byGroup);
      i := i + 1;
    }
    assert states[..|states|] == states;
  }

  lemma HeldNothing()
    ensures forall g :: Held(map[], g) == []
  {
  }

  /** The approved models of each logical group. */
  method ApprovedGroups(p: Policy) returns (approved: map<string, set<string>>)
    requires Ok(p.budgets)
    ensures Approves(approved, p)
  {
    hide GroupOf;
    approved := map[];
    var i := 0;
    while i < |p.budgets.keys|
      invariant 0 <= i <= |p.budgets.keys|
      invariant forall g, m ::
                  ((g in approved && m in approved[g]) <==>
                   (m in p.budgets.keys[..i] && GroupOf(p.groups, m) == g && g in p.logical.vals))
    {
      var m := p.budgets.keys[i];
      var g := GroupOf(p.groups, m);
      assert p.budgets.keys[..i + 1] == p.budgets.keys[..i] + [m];
      if g in p.logical.vals {
        var held := if g in approved then approved[g] else {};
        approved := approved[g := held + {m}];
      }
      i := i + 1;
    }
    assert p.budgets.keys[..|p.budgets.keys|] == p.budgets.keys;
  }

  predicate DistinctUids(states: seq<Miner>) {
    forall i, j :: 0 <= i < j < |states| ==> states[i].uid != states[j].uid
  }

  function UidsOf(states: seq<Miner>): (r: seq<int>)
    ensures |r| == |states| && forall i :: 0 <= i < |r| ==> r[i] == states[i].uid
  {
    seq(|states|, i requires 0 <= i < |states| => states[i].uid)
  }

  /** The loop over the logical groups. */
  method SplitAll(p: Policy, states: seq<Miner>, byGroup: map<string, Shares>, zero: map<int, real>)
    returns (weights: map<int, real>, unallocated: real)
    requires Splits(p) && DistinctUids(states)
    requires zero.Keys == UidSet(states) && forall u :: u in zero ==> zero[u] == 0.0
    requires forall g :: Held(byGroup, g) == GroupShares(p, states, g)
    ensures weights.Keys == UidSet(states)
    ensures forall u :: u in weights ==> weights[u] == Weight(p, states, u, |p.logical.keys|) >= 0.0
    ensures unallocated == Unallocated(p, states, |p.logical.keys|) >= 0.0
    ensures Sum(UidsOf(states), weights) + unallocated == 1.0
  {
    hide Splits, DistinctUids, Sum, Share, Distinct, Held, ScoreTotal, UidScore, GroupShares, Cut, Sound;
    var uids := UidsOf(states);
    assert Distinct(uids) && forall u :: u in zero <==> u in uids by { UidsDistinct(states); }
    weights := zero;
    unallocated := 0.0;
    assert Sum(uids, zero) == 0.0 by { SumZero(uids, zero); }
    var total := Sum(p.logical.keys, p.logical.vals) by { SplitsMeans(p); }
    SplitsMeans(p);
    var i := 0;
    while i < |p.logical.keys|
      invariant 0 <= i <= |p.logical.keys|
      invariant weights.Keys == zero.Keys
      invariant forall u :: u in weights ==> weights[u] == Weight(p, states, u, i) >= 0.0
      invariant unallocated == Unallocated(p, states, i) >= 0.0
      invariant Sum(uids, weights) + unallocated == SharesUpTo(p, i)
    {
      var g := p.logical.keys[i];
      var share := p.logical.vals[g] / total;
      assert share == Share(p, g) by { ShareIs(p, g); }
      SharePositive(p, g);
      var es := Held(byGroup, g);
      GroupSharesSound(p, states, g);
      ScoresPositive(es, UidSet(states));
      var groupTotal := ScoreTotal(es);
      if groupTotal <= 0.0 {
        unallocated := unallocated + share;
      } else {
        forall u
          ensures Cut(share, UidScore(es, u), groupTotal) >= 0.0
        {
          CutBounds(share, UidScore(es, u), groupTotal);
        }
        weights := SplitGroup(weights, uids, es, share);
      }
      i := i + 1;
    }
    SharesAreOne(p);
  }

  lemma SplitsMeans(p: Policy)
    requires Splits(p)
    ensures Ok(p.logical) && Sum(p.logical.keys, p.logical.vals) > 0.0
    ensures forall k :: k in p.logical.keys <==> k in p.logical.vals
  {
  }

  lemma ShareIs(p: Policy, g: string)
    requires Ok(p.logical) && g in p.logical.vals && Sum(p.logical.keys, p.logical.vals) > 0.0
    ensures Share(p, g) == p.logical.vals[g] / Sum(p.logical.keys, p.logical.vals)
  {
  }

  lemma UidsDistinct(states: seq<Miner>)
    requires DistinctUids(states)
    ensures Distinct(UidsOf(states)) && forall u :: u in UidSet(states) <==> u in UidsOf(states)
  {
    var uids := UidsOf(states);
    forall u
      ensures u in UidSet(states) <==> u in uids
    {
      if u in UidSet(states) {
        var i :| 0 <= i < |states| && states[i].uid == u;
        assert uids[i] == u;
      }
    }
  }

  /** Whether there is anything to split. */
  ghost predicate Distributes(modelBudgets: Budgets, groups: map<string, string>, groupBudgets: Option<Budgets>)
    requires Ok(modelBudgets) && (groupBudgets.Some? ==> Ok(groupBudgets.value))
  {
    && (exists m :: m in modelBudgets.vals && modelBudgets.vals[m] > 0.0)
    && (groupBudgets.Some? ==> exists g :: g in groupBudgets.value.vals && groupBudgets.value.vals[g] > 0.0)
  }

  /** `_excluded_entry_keys` */
  function ExcludedKeys(excluded: set<(string, int)>, lower: string -> string): set<(string, int)> {
    set e | e in excluded :: (lower(e.0), e.1)
  }

  function PolicyOf(modelBudgets: Budgets, groups: map<string, string>, groupBudgets: Option<Budgets>,
                    excluded: set<(string, int)>, lower: string -> string): Policy
    requires Ok(modelBudgets) && (groupBudgets.Some? ==> Ok(groupBudgets.value))
  {
    var budgets := Positive(modelBudgets, |modelBudgets.keys|);
    Policy(budgets, groups, Logical(budgets, groups, groupBudgets), ExcludedKeys(excluded, lower), lower)
  }

  lemma SumSign(d: Budgets)
    requires Ok(d) && forall k :: k in d.vals ==> d.vals[k] > 0.0
    ensures (|d.keys| > 0 <==> exists k :: k in d.vals) && (Sum(d.keys, d.vals) > 0.0 <==> |d.keys| > 0)
  {
    SumPositive(d.keys, d.vals);
    if |d.keys| > 0 {
      assert d.keys[0] in d.vals;
    }
  }

  lemma PositiveExact(d: Budgets)
    requires Ok(d)
    ensures var r := Positive(d, |d.keys|);
            forall k :: (k in r.vals <==> k in d.vals && d.vals[k] > 0.0) && (k in r.vals ==> r.vals[k] > 0.0)
  {
    assert d.keys[..|d.keys|] == d.keys;
  }

  lemma LogicalInhabited(budgets: Budgets, groups: map<string, string>, groupBudgets: Option<Budgets>)
    requires Ok(budgets) && (groupBudgets.Some? ==> Ok(groupBudgets.value))
    requires |budgets.keys| > 0 && forall k :: k in budgets.vals ==> budgets.vals[k] > 0.0
    ensures var r := Logical(budgets, groups, groupBudgets);
            (exists g :: g in r.vals)
            <==> (groupBudgets.Some? ==> exists g :: g in groupBudgets.value.vals && groupBudgets.value.vals[g] > 0.0)
  {
    match groupBudgets
    case None =>
      LargestExact(budgets, groups, |budgets.keys|);
      InKeys(budgets, 0);
      var m := budgets.keys[0];
      assert HasBudget(budgets, groups, 0, GroupOf(groups, m), budgets.vals[m]);
    case Some(d) =>
      PositiveExact(d);
  }

  lemma PolicySplits(modelBudgets: Budgets, groups: map<string, string>, groupBudgets: Option<Budgets>,
                     excluded: set<(string, int)>, lower: string -> string)
    requires Ok(modelBudgets) && (groupBudgets.Some? ==> Ok(groupBudgets.value))
    ensures var p := PolicyOf(modelBudgets, groups, groupBudgets, excluded, lower);
            && Ok(p.budgets) && Ok(p.logical) && (forall k :: k in p.logical.keys ==> k in p.logical.vals)
            && (|p.budgets.keys| > 0 && Sum(p.logical.keys, p.logical.vals) > 0.0
                <==> Distributes(modelBudgets, groups, groupBudgets))
            && (Distributes(modelBudgets, groups, groupBudgets) ==> Splits(p))
  {
    hide Sum, Positive, Logical, GroupOf;
    var p := PolicyOf(modelBudgets, groups, groupBudgets, excluded, lower);
    PositiveExact(modelBudgets);
    LogicalPositive(p.budgets, groups, groupBudgets);
    SumSign(p.budgets);
    SumSign(p.logical);
    if |p.budgets.keys| > 0 {
      LogicalInhabited(p.budgets, groups, groupBudgets);
    }
  }

  /** `get_model_bucket_weights`: every UID receives its part of every group in
      proportion to its scores, empty groups are left over, and together that is
      exactly one, unless there is no budget to split. */
  method ModelBucketWeights(states: seq<Miner>, modelBudgets: Budgets, groups: map<string, string>,
                            groupBudgets: Option<Budgets>, excluded: set<(string, int)>, lower: string -> string)
    returns (weights: map<int, real>, unallocated: real)
    requires Ok(modelBudgets) && (groupBudgets.Some? ==> Ok(groupBudgets.value))
    requires DistinctUids(states)
    ensures weights.Keys == UidSet(states)
    ensures var p := PolicyOf(modelBudgets, groups, groupBudgets, excluded, lower);
            if Distributes(modelBudgets, groups, groupBudgets) then
              && Splits(p)
              && (forall u :: u in weights ==> weights[u] == Weight(p, states, u, |p.logical.keys|))
              && unallocated == Unallocated(p, states, |p.logical.keys|)
              && Sum(UidsOf(states), weights) + unallocated == 1.0
            else (forall u :: u in weights ==> weights[u] == 0.0) && unallocated == 0.0
    ensures unallocated >= 0.0 && forall u :: u in weights ==> weights[u] >= 0.0
  {
    hide Splits, DistinctUids, Sum, Ok, Distributes, Positive, Logical, Weight, Unallocated, Distinct;
    PolicySplits(modelBudgets, groups, groupBudgets, excluded, lower);
    weights := map u | u in UidSet(states) :: 0.0;
    var budgets := Positive(modelBudgets, |modelBudgets.keys|);
    if |budgets.keys| == 0 {
      return weights, 0.0;
    }
    var logical := LogicalBudgets(budgets, groups, groupBudgets);
    var logicalTotal := Sum(logical.keys, logical.vals);
    if logicalTotal <= 0.0 {
      return weights, 0.0;
    }
    var p := Policy(budgets, groups, logical, ExcludedKeys(excluded, lower), lower);
    assert p == PolicyOf(modelBudgets, groups, groupBudgets, excluded, lower);
    var approved := ApprovedGroups(p);
    var byGroup := CollectEntries(p, approved, states);
    weights, unallocated := SplitAll(p, states, byGroup, weights);
    UidsDistinct(states);
    assert unallocated <= 1.0 by { NotNegativeSum(UidsOf(states), weights); }
    var clipped := if unallocated > 0.0 then unallocated else 0.0;
    return weights, if clipped < 1.0 then clipped else 1.0;
  }

  lemma {:induction false} NotNegativeSum<K(!new)>(keys: seq<K>, vals: map<K, real>)
    requires forall k :: k in keys ==> k in vals && vals[k] >= 0.0
    ensures Sum(keys, vals) >= 0.0
    decreases |keys|
  {
    if |keys| > 0 {
      NotNegativeSum(keys[..|keys| - 1], vals);
    }
  }

  // ------------------------------------------------------------- consequences

  /** The arguments of a split. */
  datatype Input = Input(
    modelBudgets: Budgets, groups: map<string, string>, groupBudgets: Option<Budgets>,
    excluded: set<(string, int)>, lower: string -> string)

  ghost predicate InputOk(q: Input) {
    Ok(q.modelBudgets) && (q.groupBudgets.Some? ==> Ok(q.groupBudgets.value))
  }

  function PolicyFrom(q: Input): Policy
    requires InputOk(q)
  {
    PolicyOf(q.modelBudgets, q.groups, q.groupBudgets, q.excluded, q.lower)
  }

  /** Some excluded pair names the address, up to case, and the index. */
  ghost predicate Barred(excluded: set<(string, int)>, lower: string -> string, m: Miner, e: Entry) {
    exists x :: x in excluded && lower(x.0) == lower(m.address) && x.1 == e.modelIndex
  }

  /** An entry takes part exactly when it is not excluded, its model has a positive
      budget, its group has one where groups are given, and its score is not
      dust. */
  ghost predicate Admitted(q: Input, m: Miner, e: Entry) {
    && !Barred(q.excluded, q.lower, m, e)
    && e.modelId in q.modelBudgets.vals && q.modelBudgets.vals[e.modelId] > 0.0
    && (q.groupBudgets.Some? ==>
          exists g :: InGroup(q.groups, e.modelId, g) && g in q.groupBudgets.value.vals && q.groupBudgets.value.vals[g] > 0.0)
    && e.ema >= 0.000001
  }

  lemma EligibleExact(q: Input, m: Miner, e: Entry)
    requires InputOk(q)
    ensures Eligible(PolicyFrom(q), m, e) <==> Admitted(q, m, e)
  {
    hide Ok, Positive, Largest;
    var p, g := PolicyFrom(q), GroupOf(q.groups, e.modelId);
    PositiveExact(q.modelBudgets);
    GroupExact(q.groups, e.modelId, g);
    if e.modelId in p.budgets.vals {
      GroupBudgeted(q, e.modelId, g);
    }
    hide Logical, GroupOf;
    assert (p.lower(m.address), e.modelIndex) in p.excluded <==> Barred(q.excluded, q.lower, m, e);
    assert forall h :: InGroup(q.groups, e.modelId, h) ==> h == g;
  }

  lemma GroupBudgeted(q: Input, m: string, g: string)
    requires InputOk(q) && InGroup(q.groups, m, g) && m in PolicyFrom(q).budgets.vals
    ensures g in PolicyFrom(q).logical.vals
       <==> (q.groupBudgets.Some? ==> g in q.groupBudgets.value.vals && q.groupBudgets.value.vals[g] > 0.0)
  {
    hide Positive, Largest, InGroup;
    var budgets := PolicyFrom(q).budgets;
    PositiveExact(q.modelBudgets);
    match q.groupBudgets
    case Some(d) => PositiveExact(d);
    case None =>
      LargestExact(budgets, q.groups, |budgets.keys|);
      assert m in budgets.keys;
      var i: nat :| i < |budgets.keys| && budgets.keys[i] == m;
      assert HasBudget(budgets, q.groups, i, g, budgets.vals[m]);
  }

  /** A UID without an entry that takes part gets nothing. */
  lemma {:induction false} NoEntryNoWeight(p: Policy, states: seq<Miner>, uid: int, n: nat)
    requires Splits(p) && n <= |p.logical.keys|
    requires forall i, j :: 0 <= i < |states| && states[i].uid == uid && 0 <= j < |states[i].entries| ==>
               !Eligible(p, states[i], states[i].entries[j])
    ensures Weight(p, states, uid, n) == 0.0
    decreases n
  {
    hide Splits, Share, Eligible;
    if n > 0 {
      NoEntryNoWeight(p, states, uid, n - 1);
      NoEntryNoScore(p, states, uid, p.logical.keys[n - 1]);
    }
  }

  lemma {:induction false} NoEntryNoScore(p: Policy, states: seq<Miner>, uid: int, g: string)
    requires forall i, j :: 0 <= i < |states| && states[i].uid == uid && 0 <= j < |states[i].entries| ==>
               !Eligible(p, states[i], states[i].entries[j])
    ensures UidScore(GroupShares(p, states, g), uid) == 0.0
    decreases |states|
  {
    hide Eligible;
    if |states| > 0 {
      var before, m := states[..|states| - 1], states[|states| - 1];
      assert forall i, j :: 0 <= i < |before| && before[i].uid == uid && 0 <= j < |before[i].entries| ==>
          !Eligible(p, before[i], before[i].entries[j]);
      NoEntryNoScore(p, before, uid, g);
      MinerScore(p, m, uid, g, |m.entries|);
      ScoreConcat(GroupShares(p, before, g), MinerShares(p, m, g, |m.entries|), uid);
    }
  }

  lemma {:induction false} MinerScore(p: Policy, m: Miner, uid: int, g: string, n: nat)
    requires n <= |m.entries|
    requires m.uid == uid ==> forall j :: 0 <= j < |m.entries| ==> !Eligible(p, m, m.entries[j])
    ensures UidScore(MinerShares(p, m, g, n), uid) == 0.0
    decreases n
  {
    if n > 0 {
      hide Eligible, GroupOf, UidScore, EntryShare;
      MinerScore(p, m, uid, g, n - 1);
      OneShare(p, m, m.entries[n - 1], g, uid);
      ScoreConcat(MinerShares(p, m, g, n - 1), EntryShare(p, m, m.entries[n - 1], g), uid);
    }
  }

  lemma {:induction false} ScoreConcat(a: Shares, b: Shares, uid: int)
    ensures UidScore(a + b, uid) == UidScore(a, uid) + UidScore(b, uid)
    decreases |b|
  {
    if |b| == 0 {
      assert a + b == a;
    } else {
      assert (a + b)[..|a + b| - 1] == a + b[..|b| - 1];
      ScoreConcat(a, b[..|b| - 1], uid);
    }
  }

  // --------------------------------------------------------- who gets how much

  lemma EligibleScores(p: Policy, m: Miner, e: Entry)
    requires Eligible(p, m, e)
    ensures e.ema > 0.0
  {
  }

  lemma OwnShareSound(p: Policy, m: Miner, e: Entry, g: string)
    ensures Sound(EntryShare(p, m, e, g), {m.uid})
  {
  }

  lemma {:induction false} EntryScoresInMiner(p: Policy, m: Miner, j: nat, n: nat)
    requires j < n <= |m.entries| && Eligible(p, m, m.entries[j])
    ensures UidScore(MinerShares(p, m, GroupOf(p.groups, m.entries[j].modelId), n), m.uid) > 0.0
    decreases n
  {
    hide GroupOf, Eligible, UidScore;
    var g := GroupOf(p.groups, m.entries[j].modelId);
    var before, share := MinerShares(p, m, g, n - 1), EntryShare(p, m, m.entries[n - 1], g);
    ScoreConcat(before, share, m.uid);
    MinerSharesSound(p, m, g, n - 1);
    ScoresPositive(before, {m.uid});
    OwnShareSound(p, m, m.entries[n - 1], g);
    ScoresPositive(share, {m.uid});
    if j < n - 1 {
      EntryScoresInMiner(p, m, j, n - 1);
    } else {
      EligibleScores(p, m, m.entries[j]);
      OneShare(p, m, m.entries[j], g, m.uid);
    }
  }

  lemma {:induction false} EntryScores(p: Policy, states: seq<Miner>, i: nat, j: nat)
    requires i < |states| && j < |states[i].entries| && Eligible(p, states[i], states[i].entries[j])
    ensures UidScore(GroupShares(p, states, GroupOf(p.groups, states[i].entries[j].modelId)), states[i].uid) > 0.0
    decreases |states|
  {
    hide GroupOf, Eligible, MinerShares;
    var g, n, uid := GroupOf(p.groups, states[i].entries[j].modelId), |states| - 1, states[i].uid;
    var before, m := states[..n], states[n];
    var last := MinerShares(p, m, g, |m.entries|);
    ScoreConcat(GroupShares(p, before, g), last, uid);
    GroupSharesSound(p, before, g);
    ScoresPositive(GroupShares(p, before, g), UidSet(before));
    MinerSharesSound(p, m, g, |m.entries|);
    ScoresPositive(last, {m.uid});
    if i < n {
      EntryScores(p, before, i, j);
    } else {
      EntryScoresInMiner(p, m, j, |m.entries|);
    }
  }

  lemma PartSign(p: Policy, states: seq<Miner>, g: string, uid: int)
    requires Splits(p) && g in p.logical.vals
    ensures Part(p, states, g, Share(p, g), uid) >= 0.0
    ensures UidScore(GroupShares(p, states, g), uid) > 0.0 ==> Part(p, states, g, Share(p, g), uid) > 0.0
  {
    SharePositive(p, g);
    GroupSharesSound(p, states, g);
    ScoresPositive(GroupShares(p, states, g), UidSet(states));
    hide Splits, Share, GroupShares, ScoreTotal, UidScore, Cut;
    if UidScore(GroupShares(p, states, g), uid) > 0.0 {
      ScoredTotal(p, states, g, uid);
    }
    if ScoreTotal(GroupShares(p, states, g)) > 0.0 {
      CutSign(Share(p, g), UidScore(GroupShares(p, states, g), uid), ScoreTotal(GroupShares(p, states, g)));
    }
  }

  lemma CutSign(share: real, score: real, total: real)
    requires share > 0.0 && score >= 0.0 && total > 0.0
    ensures Cut(share, score, total) >= 0.0 && (score > 0.0 ==> Cut(share, score, total) > 0.0)
  {
    CutBounds(share, score, total);
    if score > 0.0 {
      assert share * score > 0.0;
    }
  }

  lemma {:induction false} WeightAtLeast(p: Policy, states: seq<Miner>, uid: int, k: nat, n: nat)
    requires Splits(p) && k < |p.logical.keys| && n <= |p.logical.keys|
    ensures Weight(p, states, uid, n)
         >= if k < n then Part(p, states, p.logical.keys[k], Share(p, p.logical.keys[k]), uid) else 0.0
    decreases n
  {
    hide Part, Share, Splits, Sum, GroupShares, UidScore;
    if n > 0 {
      WeightAtLeast(p, states, uid, k, n - 1);
      PartNotNegative(p, states, k, uid);
      PartNotNegative(p, states, n - 1, uid);
    }
  }

  lemma PartNotNegative(p: Policy, states: seq<Miner>, k: nat, uid: int)
    requires Splits(p) && k < |p.logical.keys|
    ensures p.logical.keys[k] in p.logical.vals
    ensures Part(p, states, p.logical.keys[k], Share(p, p.logical.keys[k]), uid) >= 0.0
  {
    assert p.logical.keys[k] in p.logical.keys;
    hide Part, Share, GroupShares, UidScore;
    PartSign(p, states, p.logical.keys[k], uid);
  }

  /** A UID has a weight exactly when it has an entry that takes part. */
  lemma WeightExactly(q: Input, states: seq<Miner>, uid: int)
    requires InputOk(q) && Distributes(q.modelBudgets, q.groups, q.groupBudgets)
    ensures Splits(PolicyFrom(q))
    ensures Weight(PolicyFrom(q), states, uid, |PolicyFrom(q).logical.keys|) > 0.0
       <==> exists i, j :: 0 <= i < |states| && states[i].uid == uid && 0 <= j < |states[i].entries|
              && Admitted(q, states[i], states[i].entries[j])
  {
    PolicySplits(q.modelBudgets, q.groups, q.groupBudgets, q.excluded, q.lower);
    var p := PolicyFrom(q);
    forall i, j | 0 <= i < |states| && 0 <= j < |states[i].entries|
      ensures Eligible(p, states[i], states[i].entries[j]) <==> Admitted(q, states[i], states[i].entries[j])
    {
      EligibleExact(q, states[i], states[i].entries[j]);
    }
    hide Splits, Distributes, Ok, PolicyOf, Admitted, Weight;
    if i: nat, j: nat :| i < |states| && states[i].uid == uid && j < |states[i].entries| && Admitted(q, states[i], states[i].entries[j]) {
      EntryWeight(p, states, i, j);
    } else {
      hide Eligible;
      NoEntryNoWeight(p, states, uid, |p.logical.keys|);
    }
  }

  lemma EntryWeight(p: Policy, states: seq<Miner>, i: nat, j: nat)
    requires Splits(p) && i < |states| && j < |states[i].entries| && Eligible(p, states[i], states[i].entries[j])
    ensures Weight(p, states, states[i].uid, |p.logical.keys|) > 0.0
  {
    SplitsMeans(p);
    var g := GroupOf(p.groups, states[i].entries[j].modelId);
    var k: nat :| k < |p.logical.keys| && p.logical.keys[k] == g;
    hide Splits, Weight, Part, Share, GroupOf, Sum;
    EntryScores(p, states, i, j);
    PartSign(p, states, g, states[i].uid);
    WeightAtLeast(p, states, states[i].uid, k, |p.logical.keys|);
  }

  /** An entry without part leaves no trace in its miner's shares. */
  lemma {:induction false} MinerWithout(p: Policy, m: Miner, j: nat, g: string, n: nat)
    requires j < |m.entries| && j < n <= |m.entries| && !Eligible(p, m, m.entries[j])
    ensures MinerShares(p, m.(entries := m.entries[..j] + m.entries[j + 1..]), g, n - 1) == MinerShares(p, m, g, n)
    decreases n
  {
    hide Eligible;
    var less := m.(entries := m.entries[..j] + m.entries[j + 1..]);
    assert forall e :: EntryShare(p, less, e, g) == EntryShare(p, m, e, g) by { SameMiner(p, m, less, g); }
    if n == j + 1 {
      MinerPrefix(p, m, less, g, j);
      assert MinerShares(p, m, g, n) == MinerShares(p, m, g, j) + [];
    } else {
      MinerWithout(p, m, j, g, n - 1);
      assert less.entries[n - 2] == m.entries[n - 1];
    }
  }

  lemma SameMiner(p: Policy, m: Miner, n: Miner, g: string)
    requires m.uid == n.uid && m.address == n.address
    ensures forall e :: EntryShare(p, m, e, g) == EntryShare(p, n, e, g)
  {
  }

  lemma {:induction false} MinerPrefix(p: Policy, a: Miner, b: Miner, g: string, n: nat)
    requires a.uid == b.uid && a.address == b.address && n <= |a.entries| && n <= |b.entries|
    requires a.entries[..n] == b.entries[..n]
    ensures MinerShares(p, a, g, n) == MinerShares(p, b, g, n)
    decreases n
  {
    if n > 0 {
      assert a.entries[..n - 1] == a.entries[..n][..n - 1] && b.entries[..n - 1] == b.entries[..n][..n - 1];
      assert a.entries[n - 1] == a.entries[..n][n - 1] == b.entries[..n][n - 1];
      MinerPrefix(p, a, b, g, n - 1);
    }
  }

  lemma {:induction false} GroupWith(p: Policy, states: seq<Miner>, i: nat, m: Miner, g: string)
    requires i < |states|
    requires MinerShares(p, m, g, |m.entries|) == MinerShares(p, states[i], g, |states[i].entries|)
    ensures GroupShares(p, states[i := m], g) == GroupShares(p, states, g)
    decreases |states|
  {
    hide MinerShares;
    var n := |states| - 1;
    if i < n {
      GroupWith(p, states[..n], i, m, g);
      assert states[i := m][..n] == states[..n][i := m];
    } else {
      assert states[i := m][..n] == states[..n];
    }
  }

  lemma {:induction false} SameWeights(p: Policy, a: seq<Miner>, b: seq<Miner>, uid: int, n: nat)
    requires Splits(p) && n <= |p.logical.keys| && forall g :: GroupShares(p, a, g) == GroupShares(p, b, g)
    ensures Weight(p, a, uid, n) == Weight(p, b, uid, n) && Unallocated(p, a, n) == Unallocated(p, b, n)
    decreases n
  {
    hide Splits, Share, GroupShares, ScoreTotal, UidScore, Cut;
    if n > 0 {
      SameWeights(p, a, b, uid, n - 1);
      var g := p.logical.keys[n - 1];
      assert GroupShares(p, a, g) == GroupShares(p, b, g);
    }
  }

  /** Removing an entry that is excluded, whose model or group has no budget, or
      whose score is dust changes no weight and nothing of the rest. */
  lemma IgnoredEntry(q: Input, states: seq<Miner>, i: nat, j: nat, uid: int)
    requires InputOk(q) && Distributes(q.modelBudgets, q.groups, q.groupBudgets)
    requires i < |states| && j < |states[i].entries| && !Admitted(q, states[i], states[i].entries[j])
    ensures Splits(PolicyFrom(q))
    ensures var m, p := states[i], PolicyFrom(q);
            var less := states[i := m.(entries := m.entries[..j] + m.entries[j + 1..])];
            && Weight(p, less, uid, |p.logical.keys|) == Weight(p, states, uid, |p.logical.keys|)
            && Unallocated(p, less, |p.logical.keys|) == Unallocated(p, states, |p.logical.keys|)
  {
    PolicySplits(q.modelBudgets, q.groups, q.groupBudgets, q.excluded, q.lower);
    EligibleExact(q, states[i], states[i].entries[j]);
    hide Splits, Distributes, Ok, PolicyOf, Admitted, Eligible;
    var m, p := states[i], PolicyFrom(q);
    var fewer := m.(entries := m.entries[..j] + m.entries[j + 1..]);
    forall g
      ensures GroupShares(p, states[i := fewer], g) == GroupShares(p, states, g)
    {
      MinerWithout(p, m, j, g, |m.entries|);
      GroupWith(p, states, i, fewer, g);
    }
    SameWeights(p, states[i := fewer], states, uid, |p.logical.keys|);
  }

  /** What a UID with one entry that takes part scores in a group. */
  lemma OneShare(p: Policy, m: Miner, e: Entry, g: string, uid: int)
    ensures UidScore(EntryShare(p, m, e, g), uid)
         == if m.uid == uid && Eligible(p, m, e) && GroupOf(p.groups, e.modelId) == g then e.ema else 0.0
  {
    hide Eligible, GroupOf;
    var share := EntryShare(p, m, e, g);
    assert |share| > 0 ==> share[..0] == [];
  }

  lemma {:induction false} SingleMiner(p: Policy, m: Miner, j: nat, uid: int, g: string, n: nat)
    requires j < |m.entries| && n <= |m.entries| && m.uid == uid && Eligible(p, m, m.entries[j])
    requires forall k :: 0 <= k < |m.entries| && k != j ==> !Eligible(p, m, m.entries[k])
    ensures UidScore(MinerShares(p, m, g, n), uid)
         == if j < n && GroupOf(p.groups, m.entries[j].modelId) == g then m.entries[j].ema else 0.0
    decreases n
  {
    if n > 0 {
      hide Eligible, GroupOf, UidScore, EntryShare;
      SingleMiner(p, m, j, uid, g, n - 1);
      ScoreConcat(MinerShares(p, m, g, n - 1), EntryShare(p, m, m.entries[n - 1], g), uid);
      OneShare(p, m, m.entries[n - 1], g, uid);
    }
  }

  lemma {:induction false} OtherMiner(p: Policy, m: Miner, uid: int, g: string, n: nat)
    requires n <= |m.entries| && m.uid != uid
    ensures UidScore(MinerShares(p, m, g, n), uid) == 0.0
    decreases n
  {
    if n > 0 {
      hide Eligible, GroupOf, UidScore, EntryShare;
      OtherMiner(p, m, uid, g, n - 1);
      ScoreConcat(MinerShares(p, m, g, n - 1), EntryShare(p, m, m.entries[n - 1], g), uid);
      OneShare(p, m, m.entries[n - 1], g, uid);
    }
  }

  /** Miner i has exactly one entry that takes part, entry j. */
  ghost predicate Single(p: Policy, states: seq<Miner>, i: nat, j: nat) {
    && i < |states| && j < |states[i].entries|
    && forall k :: 0 <= k < |states[i].entries| ==> (Eligible(p, states[i], states[i].entries[k]) <==> k == j)
  }

  lemma {:induction false} SingleScore(p: Policy, states: seq<Miner>, i: nat, j: nat, g: string, n: nat)
    requires DistinctUids(states) && Single(p, states, i, j) && n <= |states|
    ensures UidScore(GroupShares(p, states[..n], g), states[i].uid)
         == if i < n && GroupOf(p.groups, states[i].entries[j].modelId) == g then states[i].entries[j].ema else 0.0
    decreases n
  {
    if n > 0 {
      hide Eligible, GroupOf, MinerShares, UidScore, EntryShare;
      SingleScore(p, states, i, j, g, n - 1);
      var before, m, uid := states[..n][..n - 1], states[n - 1], states[i].uid;
      assert before == states[..n - 1] && states[..n][n - 1] == m;
      ScoreConcat(GroupShares(p, before, g), MinerShares(p, m, g, |m.entries|), uid);
      if n - 1 == i {
        SingleMiner(p, m, j, uid, g, |m.entries|);
      } else {
        OtherMiner(p, m, uid, g, |m.entries|);
      }
    }
  }

  lemma SingleGroup(p: Policy, states: seq<Miner>, i: nat, j: nat)
    requires DistinctUids(states) && Single(p, states, i, j)
    ensures var e := states[i].entries[j];
            var g := GroupOf(p.groups, e.modelId);
            g in p.logical.vals && e.ema > 0.0 && ScoreTotal(GroupShares(p, states, g)) > 0.0
  {
    assert Eligible(p, states[i], states[i].entries[j]);
    assert states[..|states|] == states;
    var g := GroupOf(p.groups, states[i].entries[j].modelId);
    hide GroupOf, GroupShares, ScoreTotal, UidScore, Single, DistinctUids;
    SingleScore(p, states, i, j, g, |states|);
    ScoredTotal(p, states, g, states[i].uid);
  }

  /** Such a miner has part of its own group only. */
  lemma SinglePart(p: Policy, states: seq<Miner>, i: nat, j: nat, h: string)
    requires Splits(p) && DistinctUids(states) && Single(p, states, i, j) && h in p.logical.vals
    ensures ScoreTotal(GroupShares(p, states, GroupOf(p.groups, states[i].entries[j].modelId))) > 0.0
    ensures Part(p, states, h, Share(p, h), states[i].uid)
         == if h == GroupOf(p.groups, states[i].entries[j].modelId)
            then Cut(Share(p, h), states[i].entries[j].ema, ScoreTotal(GroupShares(p, states, h))) else 0.0
  {
    var uid := states[i].uid;
    hide Eligible, GroupOf, GroupShares, ScoreTotal, UidScore, Share, Cut, Single, DistinctUids;
    SingleGroup(p, states, i, j);
    assert states[..|states|] == states;
    SingleScore(p, states, i, j, h, |states|);
    NoPart(p, states, h, uid);
  }

  lemma OtherPart(p: Policy, states: seq<Miner>, i: nat, j: nat, h: string)
    requires Splits(p) && DistinctUids(states) && Single(p, states, i, j) && h in p.logical.vals
    ensures h != GroupOf(p.groups, states[i].entries[j].modelId) ==> Part(p, states, h, Share(p, h), states[i].uid) == 0.0
  {
    hide Eligible, GroupOf, Part, Share, Single, DistinctUids, Splits, Sum, Cut;
    SinglePart(p, states, i, j, h);
  }

  /** When all groups but the k-th give nothing. */
  lemma {:induction false} WeightFromOne(p: Policy, states: seq<Miner>, uid: int, k: nat, n: nat)
    requires Splits(p) && k < |p.logical.keys| && n <= |p.logical.keys|
    requires forall x :: 0 <= x < |p.logical.keys| && x != k ==>
               Part(p, states, p.logical.keys[x], Share(p, p.logical.keys[x]), uid) == 0.0
    ensures Weight(p, states, uid, n)
         == if k < n then Part(p, states, p.logical.keys[k], Share(p, p.logical.keys[k]), uid) else 0.0
    decreases n
  {
    hide Part, Share, Splits, Sum;
    if n > 0 {
      WeightFromOne(p, states, uid, k, n - 1);
    }
  }

  lemma NoPart(p: Policy, states: seq<Miner>, h: string, uid: int)
    requires Splits(p) && h in p.logical.vals
    ensures UidScore(GroupShares(p, states, h), uid) == 0.0 ==> Part(p, states, h, Share(p, h), uid) == 0.0
  {
    hide GroupShares, ScoreTotal, UidScore, Cut;
    if ScoreTotal(GroupShares(p, states, h)) > 0.0 {
      SharePositive(p, h);
      CutBounds(Share(p, h), 0.0, ScoreTotal(GroupShares(p, states, h)));
    }
  }

  lemma ScoredTotal(p: Policy, states: seq<Miner>, g: string, uid: int)
    requires UidScore(GroupShares(p, states, g), uid) > 0.0
    ensures ScoreTotal(GroupShares(p, states, g)) > 0.0
  {
    GroupSharesSound(p, states, g);
    ScoresPositive(GroupShares(p, states, g), UidSet(states));
  }

  /** x and y are as a and b. */
  ghost predicate InProportion(x: real, y: real, a: real, b: real) {
    x * b == y * a && x > 0.0
  }

  /** Within a group weights are proportional to scores: for two miners each with
      one entry that takes part, both in one group. */
  lemma Proportional(q: Input, states: seq<Miner>, i: nat, j: nat, k: nat, l: nat, g: string)
    requires InputOk(q) && Distributes(q.modelBudgets, q.groups, q.groupBudgets) && DistinctUids(states)
    requires i < |states| && j < |states[i].entries| && k < |states| && l < |states[k].entries|
    requires forall x :: 0 <= x < |states[i].entries| ==> (Admitted(q, states[i], states[i].entries[x]) <==> x == j)
    requires forall x :: 0 <= x < |states[k].entries| ==> (Admitted(q, states[k], states[k].entries[x]) <==> x == l)
    requires InGroup(q.groups, states[i].entries[j].modelId, g) && InGroup(q.groups, states[k].entries[l].modelId, g)
    ensures Splits(PolicyFrom(q))
    ensures var p, a, b := PolicyFrom(q), states[i].entries[j].ema, states[k].entries[l].ema;
            var n := |p.logical.keys|;
            InProportion(Weight(p, states, states[i].uid, n), Weight(p, states, states[k].uid, n), a, b)
  {
    PolicySplits(q.modelBudgets, q.groups, q.groupBudgets, q.excluded, q.lower);
    hide Splits, Distributes, Ok, PolicyOf, Weight, Admitted, Eligible, Single, DistinctUids, InProportion;
    SingleFrom(q, states, i, j);
    SingleFrom(q, states, k, l);
    GroupExact(q.groups, states[i].entries[j].modelId, g);
    GroupExact(q.groups, states[k].entries[l].modelId, g);
    PolicyGroups(q);
    hide InGroup, GroupOf, PolicyFrom, Positive, Logical, Sum, Part, Share;
    ProportionalParts(PolicyFrom(q), states, i, j, k, l, g);
  }

  lemma PolicyGroups(q: Input)
    requires InputOk(q)
    ensures PolicyFrom(q).groups == q.groups
  {
  }

  lemma SingleFrom(q: Input, states: seq<Miner>, i: nat, j: nat)
    requires InputOk(q) && i < |states| && j < |states[i].entries|
    requires forall x :: 0 <= x < |states[i].entries| ==> (Admitted(q, states[i], states[i].entries[x]) <==> x == j)
    ensures Single(PolicyFrom(q), states, i, j)
  {
    hide Admitted, Eligible, PolicyFrom, Ok;
    forall x | 0 <= x < |states[i].entries|
      ensures Eligible(PolicyFrom(q), states[i], states[i].entries[x]) <==> x == j
    {
      EligibleExact(q, states[i], states[i].entries[x]);
    }
  }

  lemma ProportionalParts(p: Policy, states: seq<Miner>, i: nat, j: nat, k: nat, l: nat, g: string)
    requires Splits(p) && DistinctUids(states) && Single(p, states, i, j) && Single(p, states, k, l)
    requires GroupOf(p.groups, states[i].entries[j].modelId) == g == GroupOf(p.groups, states[k].entries[l].modelId)
    ensures InProportion(Weight(p, states, states[i].uid, |p.logical.keys|), Weight(p, states, states[k].uid, |p.logical.keys|),
                         states[i].entries[j].ema, states[k].entries[l].ema)
  {
    SplitsMeans(p);
    hide Splits, Weight, GroupShares, ScoreTotal, UidScore, Share, GroupOf, Eligible, Single, DistinctUids, Cut, Sum,
      InProportion;
    SingleGroup(p, states, i, j);
    WholeWeight(p, states, i, j);
    WholeWeight(p, states, k, l);
    SharePositive(p, g);
    CrossCut(Share(p, g), states[i].entries[j].ema, states[k].entries[l].ema, ScoreTotal(GroupShares(p, states, g)));
  }

  lemma WholeWeight(p: Policy, states: seq<Miner>, i: nat, j: nat)
    requires Splits(p) && DistinctUids(states) && Single(p, states, i, j)
    ensures var e := states[i].entries[j];
            var g := GroupOf(p.groups, e.modelId);
            && g in p.logical.vals && ScoreTotal(GroupShares(p, states, g)) > 0.0
            && Weight(p, states, states[i].uid, |p.logical.keys|) == Cut(Share(p, g), e.ema, ScoreTotal(GroupShares(p, states, g)))
  {
    SplitsMeans(p);
    var g, keys, uid := GroupOf(p.groups, states[i].entries[j].modelId), p.logical.keys, states[i].uid;
    SingleGroup(p, states, i, j);
    var k: nat :| k < |keys| && keys[k] == g;
    hide Weight, GroupShares, ScoreTotal, UidScore, Share, GroupOf, Eligible, Single, DistinctUids, Cut, Part, Sum;
    forall x | 0 <= x < |keys| && x != k
      ensures Part(p, states, keys[x], Share(p, keys[x]), uid) == 0.0
    {
      OtherPart(p, states, i, j, keys[x]);
    }
    WeightFromOne(p, states, uid, k, |keys|);
    SinglePart(p, states, i, j, g);
  }

  lemma CrossCut(share: real, a: real, b: real, t: real)
    requires t > 0.0 && share > 0.0 && a > 0.0
    ensures InProportion(Cut(share, a, t), Cut(share, b, t), a, b)
  {
    assert share * a > 0.0;
    DivideTimes(share * a, b, t);
    DivideTimes(share * b, a, t);
    assert share * a * b == share * b * a;
  }

  lemma DivideTimes(x: real, y: real, t: real)
    requires t > 0.0
    ensures x / t * y == x * y / t
  {
  }

  // ------------------------------------------------------- weights of all UIDs

  /** The sum of a miner's first n scores; addresses in `keys` are lower-case. */
  function EntrySum(m: Miner, keys: set<(string, int)>, lower: string -> string, n: nat): real
    requires n <= |m.entries|
  {
    if n == 0 then 0.0
    else
      EntrySum(m, keys, lower, n - 1)
      + if (lower(m.address), m.entries[n - 1].modelIndex) in keys then 0.0 else m.entries[n - 1].ema
  }

  /** A miner's aggregate, with dust floored to zero. */
  function RawScore(m: Miner, excluded: set<(string, int)>, lower: string -> string): (r: real)
    ensures r == 0.0 || r >= DUST
  {
    var score := EntrySum(m, ExcludedKeys(excluded, lower), lower, |m.entries|);
    if score < DUST then 0.0 else score
  }

  function RawScores(states: seq<Miner>, excluded: set<(string, int)>, lower: string -> string): (r: seq<real>)
    ensures |r| == |states| && forall i :: 0 <= i < |r| ==> r[i] == RawScore(states[i], excluded, lower)
  {
    seq(|states|, i requires 0 <= i < |states| => RawScore(states[i], excluded, lower))
  }

  lemma {:induction false} SumWithout(m: Miner, j: nat, excluded: set<(string, int)>, lower: string -> string, n: nat)
    requires j < n <= |m.entries| && Barred(excluded, lower, m, m.entries[j])
    ensures EntrySum(m.(entries := m.entries[..j] + m.entries[j + 1..]), ExcludedKeys(excluded, lower), lower, n - 1)
         == EntrySum(m, ExcludedKeys(excluded, lower), lower, n)
    decreases n
  {
    var less := m.(entries := m.entries[..j] + m.entries[j + 1..]);
    if n == j + 1 {
      SumPrefix(m, less, ExcludedKeys(excluded, lower), lower, j);
    } else {
      SumWithout(m, j, excluded, lower, n - 1);
      assert less.entries[n - 2] == m.entries[n - 1];
    }
  }

  lemma {:induction false} SumPrefix(a: Miner, b: Miner, keys: set<(string, int)>, lower: string -> string, n: nat)
    requires a.address == b.address && n <= |a.entries| && n <= |b.entries| && a.entries[..n] == b.entries[..n]
    ensures EntrySum(a, keys, lower, n) == EntrySum(b, keys, lower, n)
    decreases n
  {
    if n > 0 {
      assert a.entries[..n - 1] == a.entries[..n][..n - 1] && b.entries[..n - 1] == b.entries[..n][..n - 1];
      assert a.entries[n - 1] == a.entries[..n][n - 1] == b.entries[..n][n - 1];
      SumPrefix(a, b, keys, lower, n - 1);
    }
  }

  /** Removing an excluded entry changes no aggregate, and so no weight. */
  lemma BarredEntry(states: seq<Miner>, i: nat, j: nat, excluded: set<(string, int)>, lower: string -> string)
    requires i < |states| && j < |states[i].entries| && Barred(excluded, lower, states[i], states[i].entries[j])
    ensures RawScores(states[i := states[i].(entries := states[i].entries[..j] + states[i].entries[j + 1..])], excluded, lower)
         == RawScores(states, excluded, lower)
  {
    SumWithout(states[i], j, excluded, lower, |states[i].entries|);
  }

  /** One more entry that is not excluded adds its score: the aggregates with and
      without it, where neither is dust, differ by the score. */
  lemma OpenEntryAdds(m: Miner, e: Entry, excluded: set<(string, int)>, lower: string -> string)
    requires !Barred(excluded, lower, m, e)
    ensures var more := m.(entries := m.entries + [e]);
            RawScore(m, excluded, lower) > 0.0 && RawScore(more, excluded, lower) > 0.0 ==>
              RawScore(more, excluded, lower) == RawScore(m, excluded, lower) + e.ema
    ensures m.entries == [] ==>
              RawScore(m.(entries := [e]), excluded, lower) == if e.ema < 0.000001 then 0.0 else e.ema
  {
    var more, keys := m.(entries := m.entries + [e]), ExcludedKeys(excluded, lower);
    assert (lower(m.address), e.modelIndex) !in keys;
    SumPrefix(m, more, keys, lower, |m.entries|);
    assert m.entries == [] ==> m.(entries := [e]) == more;
  }

  function Added(s: seq<real>): real {
    if |s| == 0 then 0.0 else Added(s[..|s| - 1]) + s[|s| - 1]
  }

  lemma {:induction false} AddedSign(s: seq<real>)
    requires forall i :: 0 <= i < |s| ==> s[i] >= 0.0
    ensures Added(s) >= 0.0 && (Added(s) > 0.0 <==> exists i :: 0 <= i < |s| && s[i] > 0.0)
    decreases |s|
  {
    if |s| > 0 {
      AddedSign(s[..|s| - 1]);
    }
  }

  /** `get_weights`: every miner's aggregate over the total, which sums to one,
      or all zero when nobody scores. */
  method GetWeights(states: seq<Miner>, excluded: set<(string, int)>, lower: string -> string) returns (weights: seq<real>)
    ensures |weights| == |states|
    ensures var raw := RawScores(states, excluded, lower);
            forall i :: 0 <= i < |states| ==>
              weights[i] == (if Added(raw) > 0.0 then Cut(1.0, raw[i], Added(raw)) else 0.0) && weights[i] >= 0.0
    ensures Added(weights) == if exists i :: 0 <= i < |states| && RawScores(states, excluded, lower)[i] > 0.0 then 1.0 else 0.0
  {
    hide RawScore, Cut;
    ghost var scores := RawScores(states, excluded, lower);
    var raw: seq<real> := [];
    var total := 0.0;
    var i := 0;
    while i < |states|
      invariant 0 <= i <= |states| && raw == scores[..i] && total == Added(raw)
    {
      var score := RawScore(states[i], excluded, lower);
      assert (raw + [score])[..i] == raw;
      raw := raw + [score];
      total := total + score;
      i := i + 1;
    }
    assert raw == scores;
    assert forall j :: 0 <= j < |raw| ==> raw[j] >= 0.0 by { RawNotNegative(states, excluded, lower); }
    AddedSign(raw);
    weights := Normalized(raw, total);
  }

  lemma RawNotNegative(states: seq<Miner>, excluded: set<(string, int)>, lower: string -> string)
    ensures forall j :: 0 <= j < |states| ==> RawScores(states, excluded, lower)[j] >= 0.0
  {
  }

  /** A score's part of the total. */
  function Normal(total: real, score: real): real {
    if total > 0.0 then Cut(1.0, score, total) else 0.0
  }

  lemma NormalEnds(total: real)
    ensures Normal(total, 0.0) == 0.0
    ensures Normal(total, total) == if total > 0.0 then 1.0 else 0.0
  {
    if total > 0.0 {
      CutBounds(1.0, 0.0, total);
    }
  }

  lemma NormalAdds(total: real, sum: real, score: real)
    requires score >= 0.0
    ensures Normal(total, sum + score) == Normal(total, sum) + Normal(total, score) && Normal(total, score) >= 0.0
  {
    if total > 0.0 {
      CutBounds(1.0, score, total);
      CutGrows(1.0, sum, score, total);
    }
  }

  method Normalized(raw: seq<real>, total: real) returns (weights: seq<real>)
    requires total == Added(raw) && forall i :: 0 <= i < |raw| ==> raw[i] >= 0.0
    ensures |weights| == |raw|
    ensures forall i :: 0 <= i < |raw| ==> weights[i] == Normal(total, raw[i]) && weights[i] >= 0.0
    ensures Added(weights) == if total > 0.0 then 1.0 else 0.0
  {
    hide Normal;
    weights := [];
    var i := 0;
    NormalEnds(total);
    while i < |raw|
      invariant 0 <= i <= |raw| && |weights| == i
      invariant forall j :: 0 <= j < i ==> weights[j] == Normal(total, raw[j]) && weights[j] >= 0.0
      invariant Added(weights) == Normal(total, Added(raw[..i]))
    {
      assert raw[..i + 1][..i] == raw[..i];
      NormalAdds(total, Added(raw[..i]), raw[i]);
      var w := Normal(total, raw[i]);
      assert (weights + [w])[..i] == weights;
      weights := weights + [w];
      i := i + 1;
    }
    assert raw[..|raw|] == raw;
  }

  // ------------------------------------------------------------ moving average

  class ModelEntryScore {
    var emaScore: real
    var totalEpochs: nat
    var scoredEpochs: nat

    constructor ()
      ensures emaScore == 0.0 && totalEpochs == 0 && scoredEpochs == 0
    {
      emaScore := 0.0;
      totalEpochs := 0;
      scoredEpochs := 0;
    }

    /** `_update_entry_ema` */
    method UpdateEma(alpha: real, epochScore: Option<real>)
      modifies this
      ensures totalEpochs == old(totalEpochs) + 1
      ensures scoredEpochs == old(scoredEpochs) + if epochScore.Some? then 1 else 0
      ensures emaScore == NextEma(alpha, old(emaScore), epochScore)
      ensures epochScore.None? ==> emaScore == old(emaScore)
    {
      totalEpochs := totalEpochs + 1;
      if epochScore.None? {
        return;
      }
      scoredEpochs := scoredEpochs + 1;
      emaScore := alpha * epochScore.value + (1.0 - alpha) * emaScore;
    }
  }

  function NextEma(alpha: real, ema: real, score: Option<real>): real {
    match score
    case None => ema
    case Some(x) => alpha * x + (1.0 - alpha) * ema
  }

  /** The average after a run of epochs from a cold start. */
  function Ema(alpha: real, scores: seq<Option<real>>): real {
    if |scores| == 0 then 0.0 else NextEma(alpha, Ema(alpha, scores[..|scores| - 1]), scores[|scores| - 1])
  }

  function Power(b: real, k: nat): real {
    if k == 0 then 1.0 else b * Power(b, k - 1)
  }

  function Scored(scores: seq<Option<real>>): nat {
    if |scores| == 0 then 0
    else Scored(scores[..|scores| - 1]) + if scores[|scores| - 1].Some? then 1 else 0
  }

  /** Cold start: after k scored epochs the average has at most 1 - (1 - a)^k of
      the best score, however the epochs without data are placed. */
  lemma {:induction false} ColdStart(alpha: real, scores: seq<Option<real>>, best: real)
    requires 0.0 <= alpha <= 1.0 && best >= 0.0
    requires forall i :: 0 <= i < |scores| && scores[i].Some? ==> 0.0 <= scores[i].value <= best
    ensures 0.0 <= Ema(alpha, scores) <= best * (1.0 - Power(1.0 - alpha, Scored(scores)))
    decreases |scores|
  {
    if |scores| > 0 {
      var before, last := scores[..|scores| - 1], scores[|scores| - 1];
      ColdStart(alpha, before, best);
      assert Scored(scores) == Scored(before) + if last.Some? then 1 else 0;
      assert Ema(alpha, scores) == NextEma(alpha, Ema(alpha, before), last);
      hide NextEma, Power, Scored, Ema;
      ColdStep(alpha, Ema(alpha, before), last, best, Scored(before));
    }
  }

  /** And equal scores are approached exactly by that factor: epochs without data
      change nothing. */
  lemma {:induction false} EqualScores(alpha: real, scores: seq<Option<real>>, x: real)
    requires forall i :: 0 <= i < |scores| && scores[i].Some? ==> scores[i].value == x
    ensures Ema(alpha, scores) == x * (1.0 - Power(1.0 - alpha, Scored(scores)))
    decreases |scores|
  {
    if |scores| > 0 {
      var before, last := scores[..|scores| - 1], scores[|scores| - 1];
      EqualScores(alpha, before, x);
      assert Scored(scores) == Scored(before) + if last.Some? then 1 else 0;
      var power := Power(1.0 - alpha, Scored(before));
      assert Power(1.0 - alpha, Scored(before) + 1) == (1.0 - alpha) * power;
      Mix(alpha, x, power);
    }
  }

  lemma ColdStep(alpha: real, ema: real, last: Option<real>, best: real, k: nat)
    requires 0.0 <= alpha <= 1.0 && 0.0 <= ema <= best * (1.0 - Power(1.0 - alpha, k))
    requires last.Some? ==> 0.0 <= last.value <= best
    ensures 0.0 <= NextEma(alpha, ema, last)
         <= best * (1.0 - Power(1.0 - alpha, if last.Some? then k + 1 else k))
  {
    var power := Power(1.0 - alpha, k);
    assert Power(1.0 - alpha, k + 1) == (1.0 - alpha) * power;
    hide Power;
    if last.Some? {
      hide NextEma;
      EmaStep(alpha, ema, last.value, best, power);
    }
  }

  lemma EmaStep(alpha: real, ema: real, x: real, best: real, power: real)
    requires 0.0 <= alpha <= 1.0 && 0.0 <= x <= best && 0.0 <= ema <= best * (1.0 - power)
    ensures 0.0 <= NextEma(alpha, ema, Some(x)) <= best * (1.0 - (1.0 - alpha) * power)
  {
    Scale(alpha, x, best);
    Scale(1.0 - alpha, ema, best * (1.0 - power));
    Mix(alpha, best, power);
    Between(alpha * x, (1.0 - alpha) * ema, alpha * best, (1.0 - alpha) * (best * (1.0 - power)));
  }

  lemma Between(a: real, b: real, c: real, d: real)
    requires 0.0 <= a <= c && 0.0 <= b <= d
    ensures 0.0 <= a + b <= c + d
  {
  }

  lemma Scale(a: real, x: real, y: real)
    requires 0.0 <= a && 0.0 <= x <= y
    ensures 0.0 <= a * x <= a * y
  {
  }

  lemma Mix(alpha: real, best: real, power: real)
    ensures best * (1.0 - (1.0 - alpha) * power) == alpha * best + (1.0 - alpha) * (best * (1.0 - power))
  {
    var q := best * power;
    assert best * (1.0 - power) == best - q;
    assert (1.0 - alpha) * (best - q) == best - q - alpha * best + alpha * q;
    assert best * ((1.0 - alpha) * power) == (1.0 - alpha) * q;
    assert best * (1.0 - (1.0 - alpha) * power) == best - best * ((1.0 - alpha) * power);
  }
}
