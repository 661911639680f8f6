/** Keeping the items that satisfy a criterion, in their original order. The
    type filter (`items.filter(item => item.type === selectedType)`) and every
    dictionary bucket (`groups[key].push(item)`) select items this way. */
module Selection {
  import opened JsValue
  import opened Media

  /** The item field a dictionary is keyed by. */
  datatype Field = TypeField | CreatorField

  /** The dictionary key of an item: its field converted to a property key. */
  function Key(f: Field, x: MediaItem): string {
    match f
    case TypeField => PropertyKey(x.mediaType)
    case CreatorField => PropertyKey(x.creator)
  }

  /** `TypeIs(v)`: strict equality `item.type === v`.
      `KeyIs(f, k)`: the item lands in dictionary entry `k` when keyed by `f`. */
  datatype Criterion = TypeIs(v: Value) | KeyIs(f: Field, k: string)

  predicate Holds(c: Criterion, x: MediaItem) {
    match c
    case TypeIs(v) => x.mediaType == v
    case KeyIs(f, k) => Key(f, x) == k
  }

  /** The items of `items` that satisfy `c`, in the order they occur. */
  function Select(items: seq<MediaItem>, c: Criterion): (r: seq<MediaItem>)
    ensures |r| <= |items|
    ensures forall x :: x in r ==> x in items && Holds(c, x)
    decreases |items|
  {
    if items == [] then []
    else
      var last := items[|items| - 1];
      var init := Select(items[..|items| - 1], c);
      if Holds(c, last) then init + [last] else init
  }

  /** Selection distributes over concatenation: the kept items of a later
      part always come after those of an earlier part (order preservation). */
  lemma {:induction false} SelectAppend(a: seq<MediaItem>, b: seq<MediaItem>, c: Criterion)
    ensures Select(a + b, c) == Select(a, c) + Select(b, c)
    decreases |b|
  {
    if b == [] {
      assert a + b == a;
    } else {
      var b' := b[..|b| - 1];
      assert (a + b)[..|a + b| - 1] == a + b';
      assert (a + b)[|a + b| - 1] == b[|b| - 1];
      SelectAppend(a, b', c);
    }
  }

  /** Selection keeps every occurrence of a satisfying item and no occurrence
      of any other item. */
  lemma {:induction false} SelectCount(items: seq<MediaItem>, c: Criterion, x: MediaItem)
    ensures multiset(Select(items, c))[x] == if Holds(c, x) then multiset(items)[x] else 0
    decreases |items|
  {
    if items != [] {
      var init := items[..|items| - 1];
      assert items == init + [items[|items| - 1]];
      SelectCount(init, c, x);
    }
  }

  /** Selecting from items that all satisfy the criterion changes nothing. */
  lemma {:induction false} SelectAll(items: seq<MediaItem>, c: Criterion)
    requires forall x :: x in items ==> Holds(c, x)
    ensures Select(items, c) == items
    decreases |items|
  {
    if items != [] {
      var init := items[..|items| - 1];
      assert items == init + [items[|items| - 1]];
      SelectAll(init, c);
    }
  }

  /** Selecting twice with the same criterion is selecting once. */
  lemma SelectIdempotent(items: seq<MediaItem>, c: Criterion)
    ensures Select(Select(items, c), c) == Select(items, c)
  {
  }

  /** The selection of a prefix is a prefix of the selection. */
  lemma SelectPrefix(items: seq<MediaItem>, c: Criterion, n: nat)
    requires n <= |items|
    ensures Select(items[..n], c) <= Select(items, c)
  {
    assert items == items[..n] + items[n..];
    SelectAppend(items[..n], items[n..], c);
  }
}
