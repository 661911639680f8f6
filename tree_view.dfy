/** The tree view's two-level grouping: items by type, and the items of each
    type by creator, both levels in first-seen key order. */
module TreeView {
  import opened Media
  import opened Selection
  import opened Grouping

  /** One type entry of the tree: its key and its creator entries. */
  datatype TypeBranch = TypeBranch(typeKey: string, creators: seq<Group>)

  /** The tree the view renders: `groupedByType`, then each type's items
      reduced into a dictionary by creator. */
  function Tree(items: seq<MediaItem>): (tree: seq<TypeBranch>)
    ensures |tree| == |FirstSeen(items, TypeField)|
    ensures forall b :: 0 <= b < |tree| ==> tree[b].typeKey == FirstSeen(items, TypeField)[b]
    ensures forall b :: 0 <= b < |tree| ==>
              tree[b].creators == GroupsOf(Members(items, TypeField, tree[b].typeKey), CreatorField)
  {
    var byType := GroupsOf(items, TypeField);
    seq(|byType|, i requires 0 <= i < |byType| =>
      TypeBranch(byType[i].name, GroupsOf(byType[i].items, CreatorField)))
  }

  /** The `for` loop that buckets by type, then one `reduce` per type. */
  method GroupByTypeThenCreator(items: seq<MediaItem>) returns (tree: seq<TypeBranch>)
    ensures tree == Tree(items)
  {
    var byType := Bucket(items, TypeField);
    tree := [];
    for i := 0 to |byType|
      invariant |tree| == i
      invariant forall b :: 0 <= b < i ==>
                  tree[b] == TypeBranch(byType[b].name, GroupsOf(byType[b].items, CreatorField))
    {
      var byCreator := Bucket(byType[i].items, CreatorField);
      tree := tree + [TypeBranch(byType[i].name, byCreator)];
    }
  }

  /** The tree partitions the items by type and then by creator: a leaf holds
      every occurrence of an item whose type key and creator key are the
      leaf's, and no occurrence of any other item; type keys are distinct, and
      creator keys are distinct within a type. */
  lemma TreePartition(items: seq<MediaItem>, x: MediaItem, b: nat, c: nat)
    requires b < |Tree(items)| && c < |Tree(items)[b].creators|
    ensures forall b' :: 0 <= b' < |Tree(items)| && b' != b ==> Tree(items)[b'].typeKey != Tree(items)[b].typeKey
    ensures forall c' :: 0 <= c' < |Tree(items)[b].creators| && c' != c ==>
              Tree(items)[b].creators[c'].name != Tree(items)[b].creators[c].name
    ensures multiset(Tree(items)[b].creators[c].items)[x]
            == if Key(TypeField, x) == Tree(items)[b].typeKey && Key(CreatorField, x) == Tree(items)[b].creators[c].name
               then multiset(items)[x] else 0
  {
    var byType := GroupsOf(items, TypeField);
    GroupsPartition(items, TypeField, x);
    GroupsPartition(byType[b].items, CreatorField, x);
  }

  /** Every item appears in the tree, under its own type key and creator key. */
  lemma TreeCovers(items: seq<MediaItem>, x: MediaItem)
    requires x in items
    ensures exists b, c :: 0 <= b < |Tree(items)| && 0 <= c < |Tree(items)[b].creators|
              && Tree(items)[b].typeKey == Key(TypeField, x)
              && Tree(items)[b].creators[c].name == Key(CreatorField, x)
              && x in Tree(items)[b].creators[c].items
  {
    var byType := GroupsOf(items, TypeField);
    GroupsPartition(items, TypeField, x);
    var b :| 0 <= b < |byType| && byType[b].name == Key(TypeField, x);
    assert x in multiset(byType[b].items);
    GroupsPartition(byType[b].items, CreatorField, x);
    var c :| 0 <= c < |Tree(items)[b].creators| && Tree(items)[b].creators[c].name == Key(CreatorField, x);
    assert x in multiset(Tree(items)[b].creators[c].items);
  }

  /** A leaf lists its items in input order: it is the input filtered by type
      key and then by creator key, and filtering keeps order. */
  lemma TreeLeafOrder(items: seq<MediaItem>, b: nat, c: nat)
    requires b < |Tree(items)| && c < |Tree(items)[b].creators|
    ensures Tree(items)[b].creators[c].items
            == Select(Select(items, KeyIs(TypeField, Tree(items)[b].typeKey)),
                      KeyIs(CreatorField, Tree(items)[b].creators[c].name))
  {
  }
}
