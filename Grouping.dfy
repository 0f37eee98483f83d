/**
 The counting step of the census:
 `names.GroupBy(x => x).Select(x => new { key = x.Key, count = x.Count() }).OrderByDescending(x => x.count)`.
 Grouping keeps the keys in the order they first occur; the descending sort is stable.
 */
module Grouping {
  import opened Linq

  /** One aggregated entry: a member name and how many times it occurs. */
  datatype Group = Group(key: string, count: nat)

  /** Counts one more occurrence of `x`: bumps its group, or opens a new group at the end. */
  function Tally(groups: seq<Group>, x: string): seq<Group>
  {
    if groups == [] then [Group(x, 1)]
    else if groups[0].key == x then [Group(x, groups[0].count + 1)] + groups[1..]
    else [groups[0]] + Tally(groups[1..], x)
  }

  /** `GroupBy(x => x)` with each group's `Count()`, groups in first-occurrence order. */
  function GroupCount(names: seq<string>): seq<Group>
  {
    if names == [] then [] else Tally(GroupCount(names[..|names| - 1]), names[|names| - 1])
  }

  /** The keys of the groups, position by position. */
  function GroupKeys(groups: seq<Group>): seq<string>
  {
    seq(|groups|, i requires 0 <= i < |groups| => groups[i].key)
  }

  /** The sum of the counts. */
  function TotalCount(groups: seq<Group>): nat
  {
    if groups == [] then 0 else groups[0].count + TotalCount(groups[1..])
  }

  /**
   `groups` counts `names`: one group per distinct name, in the order the names
   first occur, each with the name's number of occurrences.
   */
  ghost predicate CountsOf(groups: seq<Group>, names: seq<string>)
  {
    && (forall i, j :: 0 <= i < j < |groups| ==> IndexOf(names, groups[i].key) < IndexOf(names, groups[j].key))
    && (forall i :: 0 <= i < |groups| ==> groups[i].key in names && groups[i].count == multiset(names)[groups[i].key])
    && (forall x :: x in names ==> x in GroupKeys(groups))
  }

  /** Where `Tally` counts `x`: in the group at `p` when there is one, else in a new last group. */
  lemma {:induction false} TallyShape(groups: seq<Group>, x: string) returns (p: nat)
    ensures p <= |groups|
    ensures forall i :: 0 <= i < p ==> groups[i].key != x
    ensures p < |groups| ==> groups[p].key == x && Tally(groups, x) == groups[p := Group(x, groups[p].count + 1)]
    ensures p == |groups| ==> Tally(groups, x) == groups + [Group(x, 1)]
  {
    if groups == [] || groups[0].key == x {
      p := 0;
    } else {
      var p' := TallyShape(groups[1..], x);
      p := p' + 1;
    }
  }

  /** Counting an occurrence of a name already seen. */
  lemma TallySeen(groups: seq<Group>, names: seq<string>, x: string, p: nat)
    requires CountsOf(groups, names)
    requires p < |groups| && groups[p].key == x
    ensures CountsOf(groups[p := Group(x, groups[p].count + 1)], names + [x])
  {
    var g' := groups[p := Group(x, groups[p].count + 1)];
    forall i | 0 <= i < |groups|
      ensures IndexOf(names + [x], groups[i].key) == IndexOf(names, groups[i].key)
    {
      IndexOfAppend(names, x, groups[i].key);
    }
    forall i | 0 <= i < |groups| && i != p
      ensures groups[i].key != x
    {
      if i < p {
        assert IndexOf(names, groups[i].key) < IndexOf(names, groups[p].key);
      } else {
        assert IndexOf(names, groups[p].key) < IndexOf(names, groups[i].key);
      }
    }
    assert forall y :: y in names + [x] ==> y in names;
    assert GroupKeys(g') == GroupKeys(groups);
  }

  /** Counting the first occurrence of a name. */
  lemma TallyNew(groups: seq<Group>, names: seq<string>, x: string)
    requires CountsOf(groups, names)
    requires forall i :: 0 <= i < |groups| ==> groups[i].key != x
    ensures CountsOf(groups + [Group(x, 1)], names + [x])
  {
    forall i | 0 <= i < |groups|
      ensures IndexOf(names + [x], groups[i].key) == IndexOf(names, groups[i].key)
    {
      IndexOfAppend(names, x, groups[i].key);
    }
    assert x !in names;
    IndexOfAppend(names, x, x);
    assert GroupKeys(groups + [Group(x, 1)]) == GroupKeys(groups) + [x];
  }

  lemma {:induction false} GroupCountCounts(names: seq<string>)
    ensures CountsOf(GroupCount(names), names)
    decreases |names|
  {
    if names != [] {
      var init, x := names[..|names| - 1], names[|names| - 1];
      var g := GroupCount(init);
      GroupCountCounts(init);
      assert names == init + [x];
      var p := TallyShape(g, x);
      if p < |g| {
        TallySeen(g, init, x, p);
      } else {
        TallyNew(g, init, x);
      }
    }
  }

  lemma {:induction false} TallyTotal(groups: seq<Group>, x: string)
    ensures TotalCount(Tally(groups, x)) == TotalCount(groups) + 1
  {
    if groups != [] && groups[0].key != x {
      TallyTotal(groups[1..], x);
    }
  }

  /** Every occurrence is counted once: the counts add up to the number of names. */
  lemma {:induction false} GroupCountTotal(names: seq<string>)
    ensures TotalCount(GroupCount(names)) == |names|
    decreases |names|
  {
    if names != [] {
      GroupCountTotal(names[..|names| - 1]);
      TallyTotal(GroupCount(names[..|names| - 1]), names[|names| - 1]);
    }
  }

  /** The comparison of `OrderByDescending(x => x.count)`: a larger count sorts first. */
  predicate ByCountDescending(a: Group, b: Group)
  {
    a.count > b.count
  }

  /** The aggregated list: the groups of `names`, largest count first. */
  function Aggregate(names: seq<string>): seq<Group>
  {
    OrderBy(GroupCount(names), ByCountDescending)
  }

  lemma {:induction false} TotalCountInsert(x: Group, r: seq<Group>)
    ensures TotalCount(InsertBy(x, r, ByCountDescending)) == x.count + TotalCount(r)
  {
    if r != [] && ByCountDescending(r[0], x) {
      TotalCountInsert(x, r[1..]);
      assert InsertBy(x, r, ByCountDescending)[1..] == InsertBy(x, r[1..], ByCountDescending);
    }
  }

  lemma {:induction false} TotalCountOrderBy(groups: seq<Group>)
    ensures TotalCount(OrderBy(groups, ByCountDescending)) == TotalCount(groups)
  {
    if groups != [] {
      TotalCountOrderBy(groups[1..]);
      TotalCountInsert(groups[0], OrderBy(groups[1..], ByCountDescending));
    }
  }

  lemma {:induction false} TotalCountBoundsLength(groups: seq<Group>)
    requires forall i :: 0 <= i < |groups| ==> groups[i].count >= 1
    ensures |groups| <= TotalCount(groups)
  {
    if groups != [] {
      TotalCountBoundsLength(groups[1..]);
    }
  }

  /** Each aggregated entry is a name of the input with its number of occurrences, at least one. */
  lemma AggregateCounts(names: seq<string>)
    ensures forall i :: 0 <= i < |Aggregate(names)| ==>
              && Aggregate(names)[i].key in names
              && Aggregate(names)[i].count == multiset(names)[Aggregate(names)[i].key]
              && Aggregate(names)[i].count >= 1
  {
    var g := GroupCount(names);
    GroupCountCounts(names);
    OrderByPermutation(g, ByCountDescending);
    forall i | 0 <= i < |Aggregate(names)|
      ensures Aggregate(names)[i] in g
    {
      assert Aggregate(names)[i] in multiset(g);
    }
  }

  /** No two groups of `GroupCount` share a key. */
  lemma GroupCountKeysUnique(names: seq<string>)
    ensures forall i, j :: 0 <= i < j < |GroupCount(names)| ==> GroupCount(names)[i].key != GroupCount(names)[j].key
    ensures NoDuplicates(GroupCount(names))
  {
    GroupCountCounts(names);
  }

  /** A name of the input has an aggregated entry. */
  lemma AggregateHasName(names: seq<string>, x: string)
    requires x in names
    ensures exists i :: 0 <= i < |Aggregate(names)| && Aggregate(names)[i].key == x
  {
    var g := GroupCount(names);
    GroupCountCounts(names);
    OrderByPermutation(g, ByCountDescending);
    var keys := GroupKeys(g);
    assert x in keys;
    var p :| 0 <= p < |keys| && keys[p] == x;
    assert g[p].key == x;
    assert g[p] in multiset(Aggregate(names));
    var i :| 0 <= i < |Aggregate(names)| && Aggregate(names)[i] == g[p];
  }

  /** No two aggregated entries share a key. */
  lemma AggregateKeysUnique(names: seq<string>)
    ensures forall i, j :: 0 <= i < j < |Aggregate(names)| ==> Aggregate(names)[i].key != Aggregate(names)[j].key
  {
    var g := GroupCount(names);
    var agg := Aggregate(names);
    GroupCountKeysUnique(names);
    OrderByPermutation(g, ByCountDescending);
    OrderByNoDuplicates(g, ByCountDescending);
    forall i, j | 0 <= i < j < |agg|
      ensures agg[i].key != agg[j].key
    {
      assert agg[i] in multiset(g) && agg[j] in multiset(g);
      var p, q := IndexOf(g, agg[i]), IndexOf(g, agg[j]);
      assert p != q;
      if p < q {
        assert g[p].key != g[q].key;
      } else {
        assert g[q].key != g[p].key;
      }
    }
  }

  /** Every name of the input appears in exactly one aggregated entry. */
  lemma AggregateCovers(names: seq<string>)
    ensures forall x :: x in names ==> exists i :: 0 <= i < |Aggregate(names)| && Aggregate(names)[i].key == x
    ensures forall i, j :: 0 <= i < j < |Aggregate(names)| ==> Aggregate(names)[i].key != Aggregate(names)[j].key
  {
    forall x | x in names
      ensures exists i :: 0 <= i < |Aggregate(names)| && Aggregate(names)[i].key == x
    {
      AggregateHasName(names, x);
    }
    AggregateKeysUnique(names);
  }

  /** The counts add up to the number of names, so there are at most as many entries as names. */
  lemma AggregateTotal(names: seq<string>)
    ensures TotalCount(Aggregate(names)) == |names|
    ensures |Aggregate(names)| <= |names|
  {
    GroupCountTotal(names);
    TotalCountOrderBy(GroupCount(names));
    AggregateCounts(names);
    TotalCountBoundsLength(Aggregate(names));
  }

  lemma ByCountDescendingIsStrictWeakOrder()
    ensures StrictWeakOrder(ByCountDescending)
  {
  }

  /** Counts never increase down the list. */
  lemma AggregateSorted(names: seq<string>)
    ensures forall i, j :: 0 <= i < j < |Aggregate(names)| ==> Aggregate(names)[i].count >= Aggregate(names)[j].count
  {
    ByCountDescendingIsStrictWeakOrder();
    OrderBySorted(GroupCount(names), ByCountDescending);
  }

  /** Entries with equal counts keep the order in which their names first occur. */
  lemma AggregateStable(names: seq<string>)
    ensures forall i, j :: 0 <= i < j < |Aggregate(names)| ==>
              (Aggregate(names)[i].count == Aggregate(names)[j].count ==>
                 IndexOf(names, Aggregate(names)[i].key) < IndexOf(names, Aggregate(names)[j].key))
  {
    var g := GroupCount(names);
    var agg := Aggregate(names);
    GroupCountCounts(names);
    GroupCountKeysUnique(names);
    OrderByPermutation(g, ByCountDescending);
    OrderByStable(g, ByCountDescending);
    forall i, j | 0 <= i < j < |agg| && agg[i].count == agg[j].count
      ensures IndexOf(names, agg[i].key) < IndexOf(names, agg[j].key)
    {
      assert Tied(ByCountDescending, agg[i], agg[j]);
      assert agg[i] in multiset(g) && agg[j] in multiset(g);
      var p, q := IndexOf(g, agg[i]), IndexOf(g, agg[j]);
      assert p < q;
    }
  }
}
