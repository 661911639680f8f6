/** The card view's creator sections: the filtered items grouped by creator,
    then the groups sorted by item count, larger first, ties broken by
    creator name. */
module CreatorRanking {
  import opened Media
  import opened Selection
  import opened Grouping
  import opened TextOrder

  /** The sort comparator: `bItems.length - aItems.length`, or, when that is
      zero, `aName.localeCompare(bName)`. Negative means `a` goes first. */
  function Compare(a: Group, b: Group): (r: int)
    ensures |a.items| > |b.items| ==> r < 0
    ensures |a.items| < |b.items| ==> r > 0
    ensures |a.items| == |b.items| ==> r == LocaleCompare(a.name, b.name)
  {
    var diff := |b.items| - |a.items|;
    if diff != 0 then diff else LocaleCompare(a.name, b.name)
  }

  /** What the sort guarantees: no group compares after a later group. */
  predicate Sorted(groups: seq<Group>) {
    forall i, j :: 0 <= i < j < |groups| ==> Compare(groups[i], groups[j]) <= 0
  }

  /** The ranking order spelled out: more items first, equal counts by name. */
  predicate RankedBefore(a: Group, b: Group) {
    |a.items| > |b.items| || (|a.items| == |b.items| && Less(a.name, b.name))
  }

  /** The comparator is antisymmetric and zero only on groups with the same
      name and size. */
  lemma CompareFlip(a: Group, b: Group)
    ensures Compare(a, b) == -Compare(b, a)
    ensures Compare(a, b) == 0 <==> |a.items| == |b.items| && a.name == b.name
    ensures Compare(a, b) < 0 <==> RankedBefore(a, b)
  {
    LocaleCompareFlip(a.name, b.name);
  }

  /** The comparator is transitive, so it is a consistent comparator and the
      sort's result is well defined. */
  lemma CompareTransitive(a: Group, b: Group, c: Group)
    requires Compare(a, b) <= 0 && Compare(b, c) <= 0
    ensures Compare(a, c) <= 0
  {
    CompareFlip(a, b);
    CompareFlip(b, c);
    CompareFlip(a, c);
    if |a.items| == |b.items| == |c.items| && Less(a.name, b.name) && Less(b.name, c.name) {
      LessTransitive(a.name, b.name, c.name);
    }
  }

  /** Inserting one group into a sorted list after every group that does not
      compare after it. */
  method Insert(sorted: seq<Group>, x: Group) returns (r: seq<Group>)
    requires Sorted(sorted)
    ensures Sorted(r)
    ensures multiset(r) == multiset(sorted) + multiset{x}
  {
    var j := 0;
    while j < |sorted| && Compare(sorted[j], x) <= 0
      invariant 0 <= j <= |sorted|
      invariant forall k :: 0 <= k < j ==> Compare(sorted[k], x) <= 0
    {
      j := j + 1;
    }
    forall k | j <= k < |sorted|
      ensures Compare(x, sorted[k]) <= 0
    {
      CompareFlip(sorted[j], x);
      if k > j {
        CompareTransitive(x, sorted[j], sorted[k]);
      }
    }
    SortedSplice(sorted, x, j);
    r := sorted[..j] + [x] + sorted[j..];
    assert sorted == sorted[..j] + sorted[j..];
  }

  /** Placing a group between the part that goes before it and the part that
      goes after it keeps a list sorted. */
  lemma SortedSplice(sorted: seq<Group>, x: Group, j: nat)
    requires Sorted(sorted) && j <= |sorted|
    requires forall k :: 0 <= k < j ==> Compare(sorted[k], x) <= 0
    requires forall k :: j <= k < |sorted| ==> Compare(x, sorted[k]) <= 0
    ensures Sorted(sorted[..j] + [x] + sorted[j..])
  {
  }

  /** `Array.prototype.sort` with the comparator, as an insertion sort. */
  method SortGroups(entries: seq<Group>) returns (sorted: seq<Group>)
    ensures Sorted(sorted)
    ensures multiset(sorted) == multiset(entries)
  {
    sorted := [];
    for i := 0 to |entries|
      invariant Sorted(sorted)
      invariant multiset(sorted) == multiset(entries[..i])
    {
      sorted := Insert(sorted, entries[i]);
      assert entries[..i + 1] == entries[..i] + [entries[i]];
    }
    assert entries[..|entries|] == entries;
  }

  lemma {:induction false} DistinctOccursOnce(t: seq<Group>, g: Group)
    requires NamesDistinct(t)
    ensures multiset(t)[g] <= 1
    decreases |t|
  {
    if t != [] {
      assert t == [t[0]] + t[1..];
      DistinctOccursOnce(t[1..], g);
      if t[0] == g {
        assert g !in t[1..];
      }
    }
  }

  /** A permutation of groups with distinct names has distinct names. */
  lemma PermutationKeepsNamesDistinct(s: seq<Group>, t: seq<Group>)
    requires multiset(s) == multiset(t) && NamesDistinct(t)
    ensures NamesDistinct(s)
  {
    forall i, j | 0 <= i < j < |s|
      ensures s[i].name != s[j].name
    {
      assert s[i] in multiset(t) && s[j] in multiset(t);
      if s[i] == s[j] {
        assert s == s[..j] + [s[j]] + s[j + 1..];
        assert s[i] in s[..j];
        DistinctOccursOnce(t, s[i]);
      }
    }
  }

  /** Two sorted permutations of distinctly named groups start with the same
      group. */
  lemma SortedHeadsEqual(s: seq<Group>, t: seq<Group>)
    requires Sorted(s) && Sorted(t)
    requires multiset(s) == multiset(t)
    requires NamesDistinct(s)
    requires s != [] && t != []
    ensures s[0] == t[0]
  {
    assert s[0] in multiset(t) && t[0] in multiset(s);
    var m :| 0 <= m < |t| && t[m] == s[0];
    var k :| 0 <= k < |s| && s[k] == t[0];
    CompareFlip(s[0], t[0]);
    CompareFlip(s[0], s[0]);
    assert Compare(t[0], t[m]) <= 0;
    assert Compare(s[0], s[k]) <= 0;
    assert s[0].name == s[k].name;
  }

  /** Dropping the first group keeps a list sorted and distinctly named. */
  lemma SortedTail(s: seq<Group>)
    requires Sorted(s) && NamesDistinct(s) && s != []
    ensures Sorted(s[1..]) && NamesDistinct(s[1..])
  {
  }

  /** Two permutations with the same first group have permuted tails. */
  lemma TailsPermuted(s: seq<Group>, t: seq<Group>)
    requires multiset(s) == multiset(t) && s != [] && t != [] && s[0] == t[0]
    ensures multiset(s[1..]) == multiset(t[1..])
  {
    assert s == [s[0]] + s[1..] && t == [t[0]] + t[1..];
    assert multiset(s[1..]) == multiset(s) - multiset{s[0]};
    assert multiset(t[1..]) == multiset(t) - multiset{t[0]};
  }

  /** Any two sorted permutations of groups with distinct names are equal:
      the ranked order does not depend on the sorting algorithm. */
  lemma {:induction false} SortedUnique(s: seq<Group>, t: seq<Group>)
    requires Sorted(s) && Sorted(t)
    requires multiset(s) == multiset(t)
    requires NamesDistinct(s)
    ensures s == t
    decreases |s|
  {
    assert |s| == |multiset(s)| == |multiset(t)| == |t|;
    if s != [] {
      SortedHeadsEqual(s, t);
      TailsPermuted(s, t);
      SortedTail(s);
      PermutationKeepsNamesDistinct(t, s);
      SortedTail(t);
      SortedUnique(s[1..], t[1..]);
      assert s == [s[0]] + s[1..] && t == [t[0]] + t[1..];
    }
  }

  /** A sorted list of distinctly named groups is strictly ranked. */
  lemma SortedIsRanked(groups: seq<Group>, i: nat, j: nat)
    requires Sorted(groups) && NamesDistinct(groups)
    requires i < j < |groups|
    ensures RankedBefore(groups[i], groups[j])
  {
  }

  /** `groupedByCreator`: bucket the filtered items by creator, then sort the
      entries. Every creator present gets exactly one section, each section
      holds that creator's items in input order, and the sections are ranked. */
  method GroupedByCreator(filtered: seq<MediaItem>) returns (ranked: seq<Group>)
    ensures multiset(ranked) == multiset(GroupsOf(filtered, CreatorField))
    ensures forall g :: g in ranked ==> g.items == Members(filtered, CreatorField, g.name) && g.items != []
    ensures forall x :: x in filtered ==> exists g :: g in ranked && g.name == Key(CreatorField, x)
    ensures NamesDistinct(ranked)
    ensures forall i, j :: 0 <= i < j < |ranked| ==> RankedBefore(ranked[i], ranked[j])
  {
    var entries := Bucket(filtered, CreatorField);
    ranked := SortGroups(entries);
    forall g | g in ranked
      ensures g.items == Members(filtered, CreatorField, g.name) && g.items != []
    {
      assert g in multiset(entries);
      var i :| 0 <= i < |entries| && entries[i] == g;
      NoEmptyGroup(filtered, CreatorField, i);
    }
    forall x | x in filtered
      ensures exists g :: g in ranked && g.name == Key(CreatorField, x)
    {
      GroupsPartition(filtered, CreatorField, x);
      var i :| 0 <= i < |entries| && entries[i].name == Key(CreatorField, x);
      assert entries[i] in multiset(ranked);
    }
    GroupsNamesDistinct(filtered, CreatorField);
    PermutationKeepsNamesDistinct(ranked, entries);
    forall i, j | 0 <= i < j < |ranked|
      ensures RankedBefore(ranked[i], ranked[j])
    {
      SortedIsRanked(ranked, i, j);
    }
  }
}
