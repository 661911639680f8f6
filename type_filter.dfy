/** The media-type filter applied to the loaded items before every view. */
module TypeFilter {
  import opened JsValue
  import opened Media
  import opened Selection

  /** The filter the user picks: everything, or one media type. */
  datatype SelectedType = All | Only(t: MediaType)

  /** Whether an item passes the filter: always for `'all'`, otherwise
      `item.type === selectedType`. */
  predicate Passes(sel: SelectedType, x: MediaItem) {
    sel.All? || Holds(TypeIs(Str(TypeName(sel.t))), x)
  }

  function FilterItems(items: seq<MediaItem>, sel: SelectedType): (r: seq<MediaItem>)
    ensures sel == All ==> r == items
    ensures forall x :: x in r ==> x in items && Passes(sel, x)
  {
    match sel
    case All => items
    case Only(t) => Select(items, TypeIs(Str(TypeName(t))))
  }

  /** The filter keeps every occurrence of a passing item and nothing else. */
  lemma FilterExact(items: seq<MediaItem>, sel: SelectedType, x: MediaItem)
    ensures multiset(FilterItems(items, sel))[x] == if Passes(sel, x) then multiset(items)[x] else 0
  {
    if sel.Only? {
      SelectCount(items, TypeIs(Str(TypeName(sel.t))), x);
    }
  }

  /** The kept items stay in their original relative order. */
  lemma FilterKeepsOrder(a: seq<MediaItem>, b: seq<MediaItem>, sel: SelectedType)
    ensures FilterItems(a + b, sel) == FilterItems(a, sel) + FilterItems(b, sel)
  {
    if sel.Only? {
      SelectAppend(a, b, TypeIs(Str(TypeName(sel.t))));
    }
  }

  /** Filtering an already filtered list changes nothing. */
  lemma FilterIdempotent(items: seq<MediaItem>, sel: SelectedType)
    ensures FilterItems(FilterItems(items, sel), sel) == FilterItems(items, sel)
  {
    if sel.Only? {
      SelectIdempotent(items, TypeIs(Str(TypeName(sel.t))));
    }
  }

  /** Filtering by one type and then by a different type leaves nothing. */
  lemma FilterDisjoint(items: seq<MediaItem>, t: MediaType, u: MediaType)
    requires t != u
    ensures FilterItems(FilterItems(items, Only(t)), Only(u)) == []
  {
    var once := FilterItems(items, Only(t));
    var twice := FilterItems(once, Only(u));
    forall x
      ensures multiset(twice)[x] == 0
    {
      FilterExact(once, Only(u), x);
      FilterExact(items, Only(t), x);
    }
    assert multiset(twice) == multiset{};
  }
}
