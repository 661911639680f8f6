/** Grouping items into a dictionary keyed by one field, as the view code does
    three times: `groups[item.creator].push(item)` before the creator ranking,
    `map[it.type].push(it)` in the tree view, and the `reduce` by creator
    inside each type of the tree view. Dictionary entries come out in
    first-seen key order. */
module Grouping {
  import opened Media
  import opened Selection

  /** One dictionary entry: a key and the items filed under it. */
  datatype Group = Group(name: string, items: seq<MediaItem>)

  predicate Distinct(keys: seq<string>) {
    forall i, j :: 0 <= i < j < |keys| ==> keys[i] != keys[j]
  }

  /** The items filed under key `k`, in input order. */
  function Members(items: seq<MediaItem>, f: Field, k: string): seq<MediaItem> {
    Select(items, KeyIs(f, k))
  }

  /** The dictionary's keys in the order they were first inserted. */
  function FirstSeen(items: seq<MediaItem>, f: Field): (keys: seq<string>)
    ensures Distinct(keys)
    decreases |items|
  {
    if items == [] then []
    else
      var keys := FirstSeen(items[..|items| - 1], f);
      var k := Key(f, items[|items| - 1]);
      if k in keys then keys else keys + [k]
  }

  /** `Object.entries` of the finished dictionary. */
  function GroupsOf(items: seq<MediaItem>, f: Field): (groups: seq<Group>)
    ensures |groups| == |FirstSeen(items, f)|
    ensures forall i :: 0 <= i < |groups| ==> groups[i].name == FirstSeen(items, f)[i]
    ensures forall i :: 0 <= i < |groups| ==> groups[i].items == Members(items, f, groups[i].name)
  {
    var keys := FirstSeen(items, f);
    seq(|keys|, i requires 0 <= i < |keys| => Group(keys[i], Members(items, f, keys[i])))
  }

  predicate NamesDistinct(groups: seq<Group>) {
    forall i, j :: 0 <= i < j < |groups| ==> groups[i].name != groups[j].name
  }

  /** Dictionary entries have distinct keys. */
  lemma GroupsNamesDistinct(items: seq<MediaItem>, f: Field)
    ensures NamesDistinct(GroupsOf(items, f))
  {
  }

  /** Every dictionary key is the key of some item. */
  lemma {:induction false} FirstSeenSound(items: seq<MediaItem>, f: Field, k: string)
    requires k in FirstSeen(items, f)
    ensures exists x :: x in items && Key(f, x) == k
    decreases |items|
  {
    var init := items[..|items| - 1];
    if k in FirstSeen(init, f) {
      FirstSeenSound(init, f, k);
      var x :| x in init && Key(f, x) == k;
      assert x in items;
    } else {
      assert Key(f, items[|items| - 1]) == k;
    }
  }

  /** A key that was never inserted has no items. */
  lemma {:induction false} AbsentKeyHasNoMembers(items: seq<MediaItem>, f: Field, k: string)
    requires k !in FirstSeen(items, f)
    ensures Members(items, f, k) == []
    decreases |items|
  {
    if items != [] {
      AbsentKeyHasNoMembers(items[..|items| - 1], f, k);
    }
  }

  /** Every item's key is a dictionary key. */
  lemma {:induction false} FirstSeenComplete(items: seq<MediaItem>, f: Field, n: nat)
    requires n < |items|
    ensures Key(f, items[n]) in FirstSeen(items, f)
    decreases |items|
  {
    var init := items[..|items| - 1];
    if n < |items| - 1 {
      FirstSeenComplete(init, f, n);
    }
  }

  /** The keys seen in a prefix of the input are a prefix of all keys: keys
      are only ever appended. */
  lemma {:induction false} FirstSeenPrefix(items: seq<MediaItem>, f: Field, n: nat)
    requires n <= |items|
    ensures FirstSeen(items[..n], f) <= FirstSeen(items, f)
    decreases |items|
  {
    if n == |items| {
      assert items[..n] == items;
    } else {
      var init := items[..|items| - 1];
      assert init[..n] == items[..n];
      FirstSeenPrefix(init, f, n);
    }
  }

  /** Keys are listed in order of first appearance: if item `q` is the first
      with its key, the key of any earlier item `p` is listed before it. */
  lemma FirstSeenOrder(items: seq<MediaItem>, f: Field, p: nat, q: nat)
    requires p < q < |items|
    requires forall r :: 0 <= r < q ==> Key(f, items[r]) != Key(f, items[q])
    ensures exists i, j :: 0 <= i < j < |FirstSeen(items, f)|
                           && FirstSeen(items, f)[i] == Key(f, items[p])
                           && FirstSeen(items, f)[j] == Key(f, items[q])
  {
    var before := FirstSeen(items[..q], f);
    var upTo := FirstSeen(items[..q + 1], f);
    assert items[..q + 1][..q] == items[..q];
    FirstSeenComplete(items[..q], f, p);
    if Key(f, items[q]) in before {
      FirstSeenSound(items[..q], f, Key(f, items[q]));
    }
    assert upTo == before + [Key(f, items[q])];
    FirstSeenPrefix(items, f, q + 1);
    var i :| 0 <= i < |before| && before[i] == Key(f, items[p]);
    var all := FirstSeen(items, f);
    assert all[i] == upTo[i] && all[|before|] == upTo[|before|];
  }

  /** Every group is non-empty. */
  lemma NoEmptyGroup(items: seq<MediaItem>, f: Field, i: nat)
    requires i < |GroupsOf(items, f)|
    ensures GroupsOf(items, f)[i].items != []
  {
    var g := GroupsOf(items, f)[i];
    FirstSeenSound(items, f, g.name);
    var x :| x in items && Key(f, x) == g.name;
    SelectCount(items, KeyIs(f, g.name), x);
  }

  /** The groups partition the input: the group named by an item's key holds
      every occurrence of that item, every other group holds none, and group
      names are distinct, so each item lands in exactly one group. */
  lemma GroupsPartition(items: seq<MediaItem>, f: Field, x: MediaItem)
    ensures NamesDistinct(GroupsOf(items, f))
    ensures x in items ==> exists i :: 0 <= i < |GroupsOf(items, f)| && GroupsOf(items, f)[i].name == Key(f, x)
    ensures forall i :: 0 <= i < |GroupsOf(items, f)| ==>
              multiset(GroupsOf(items, f)[i].items)[x]
              == if GroupsOf(items, f)[i].name == Key(f, x) then multiset(items)[x] else 0
  {
    var groups := GroupsOf(items, f);
    if x in items {
      var n :| 0 <= n < |items| && items[n] == x;
      FirstSeenComplete(items, f, n);
    }
    forall i | 0 <= i < |groups|
      ensures multiset(groups[i].items)[x] == if groups[i].name == Key(f, x) then multiset(items)[x] else 0
    {
      SelectCount(items, KeyIs(f, groups[i].name), x);
    }
  }

  /** The loop's key list and dictionary agree with the items seen so far. */
  ghost predicate Tracks(order: seq<string>, dict: map<string, seq<MediaItem>>, seen: seq<MediaItem>, f: Field) {
    && order == FirstSeen(seen, f)
    && (forall k :: k in dict <==> k in order)
    && (forall k :: k in dict ==> dict[k] == Members(seen, f, k))
  }

  /** One more item appends its key if new and is pushed onto its own key's
      list only. */
  lemma BucketStep(order: seq<string>, dict: map<string, seq<MediaItem>>, items: seq<MediaItem>, f: Field, n: nat)
    requires n < |items| && Tracks(order, dict, items[..n], f)
    ensures var k := Key(f, items[n]);
            var d := if k in dict then dict else dict[k := []];
            Tracks(if k in dict then order else order + [k], d[k := d[k] + [items[n]]], items[..n + 1], f)
  {
    var k := Key(f, items[n]);
    var seen, seen' := items[..n], items[..n + 1];
    assert seen'[..n] == seen && seen'[n] == items[n];
    var d := if k in dict then dict else dict[k := []];
    var dict' := d[k := d[k] + [items[n]]];
    if k !in dict {
      AbsentKeyHasNoMembers(seen, f, k);
    }
    forall k' | k' in dict'
      ensures dict'[k'] == Members(seen', f, k')
    {
      assert Members(seen', f, k') == Members(seen, f, k') + if Key(f, items[n]) == k' then [items[n]] else [];
    }
  }

  /** The entries of a dictionary that tracks all items are GroupsOf them. */
  lemma TrackedEntries(order: seq<string>, dict: map<string, seq<MediaItem>>, items: seq<MediaItem>, f: Field, groups: seq<Group>)
    requires Tracks(order, dict, items, f)
    requires |groups| == |order|
    requires forall i :: 0 <= i < |order| ==> groups[i] == Group(order[i], dict[order[i]])
    ensures groups == GroupsOf(items, f)
  {
  }

  /** The dictionary-building loop followed by `Object.entries`. */
  method Bucket(items: seq<MediaItem>, f: Field) returns (groups: seq<Group>)
    ensures groups == GroupsOf(items, f)
  {
    var order: seq<string> := [];
    var dict: map<string, seq<MediaItem>> := map[];
    for n := 0 to |items|
      invariant Tracks(order, dict, items[..n], f)
    {
      var k := Key(f, items[n]);
      BucketStep(order, dict, items, f, n);
      if k !in dict {
        dict := dict[k := []];
        order := order + [k];
      }
      dict := dict[k := dict[k] + [items[n]]];
    }
    assert items[..|items|] == items;
    groups := Entries(order, dict);
    TrackedEntries(order, dict, items, f, groups);
  }

  /** `Object.entries`: each key in insertion order with its list. */
  method Entries(order: seq<string>, dict: map<string, seq<MediaItem>>) returns (groups: seq<Group>)
    requires forall k :: k in order ==> k in dict
    ensures |groups| == |order|
    ensures forall i :: 0 <= i < |order| ==> groups[i] == Group(order[i], dict[order[i]])
  {
    groups := [];
    for j := 0 to |order|
      invariant |groups| == j
      invariant forall i :: 0 <= i < j ==> groups[i] == Group(order[i], dict[order[i]])
    {
      groups := groups + [Group(order[j], dict[order[j]])];
    }
  }
}
