/** Ingestion: the `loadMarkdownFiles` loop that turns the discovered,
    front-matter-parsed documents into catalog items. */
module Loader {
  import opened JsValue
  import opened Media

  /** A document is kept exactly when its `type`, `title` and `creator`
      attributes are all truthy (`!data.type || !data.title || !data.creator`
      skips it). The type is not checked against the media-type enumeration,
      and a document lacking any of the three keys is never kept. */
  function Accepts(doc: Document): (r: bool)
    ensures r <==> forall k :: k in ["type", "title", "creator"] ==>
                     Attr(doc.attributes, k) !in {Undefined, Null, Bool(false), Num(0), Str("")}
    ensures r ==> "type" in doc.attributes && "title" in doc.attributes && "creator" in doc.attributes
  {
    var data := doc.attributes;
    Truthy(Attr(data, "type")) && Truthy(Attr(data, "title")) && Truthy(Attr(data, "creator"))
  }

  /** The item literal pushed for an accepted document, with its defaults. */
  function BuildItem(doc: Document): (item: MediaItem)
    ensures item.id == doc.path
    ensures item.mediaType == Attr(doc.attributes, "type")
    ensures item.title == Attr(doc.attributes, "title")
    ensures item.creator == Attr(doc.attributes, "creator")
    ensures Truthy(Attr(doc.attributes, "year")) ==> item.year == Attr(doc.attributes, "year")
    ensures !Truthy(Attr(doc.attributes, "year")) ==> item.year == Str("")
    ensures Truthy(Attr(doc.attributes, "importance")) ==> item.importance == Attr(doc.attributes, "importance")
    ensures !Truthy(Attr(doc.attributes, "importance")) ==> item.importance == Num(3)
    ensures Truthy(item.importance)
    ensures Truthy(Attr(doc.attributes, "imageUrl")) ==> item.imageUrl == Attr(doc.attributes, "imageUrl")
    ensures !Truthy(Attr(doc.attributes, "imageUrl")) ==> item.imageUrl == Str("")
    ensures item.notes == doc.body
  {
    var data := doc.attributes;
    MediaItem(
      doc.path,
      Attr(data, "type"),
      Attr(data, "title"),
      Attr(data, "creator"),
      Or(Attr(data, "year"), Str("")),
      Or(Attr(data, "importance"), Num(3)),
      StrOr(doc.body, ""),
      Or(Attr(data, "imageUrl"), Str("")))
  }

  /** The items the load pass produces, in enumeration order. */
  function Ingest(docs: seq<Document>): (items: seq<MediaItem>)
    ensures |items| <= |docs|
    decreases |docs|
  {
    if docs == [] then []
    else
      var last := docs[|docs| - 1];
      Ingest(docs[..|docs| - 1]) + if Accepts(last) then [BuildItem(last)] else []
  }

  /** The paths the load pass warns about and skips, in enumeration order. */
  function Skipped(docs: seq<Document>): (paths: seq<string>)
    ensures forall p :: p in paths ==> exists d :: d in docs && d.path == p && !Accepts(d)
    decreases |docs|
  {
    if docs == [] then []
    else
      var last := docs[|docs| - 1];
      Skipped(docs[..|docs| - 1]) + if Accepts(last) then [] else [last.path]
  }

  datatype Option<T> = None | Some(value: T)

  /** What the async load produces: the item list handed to `setItems` when
      every file was read and parsed, or `None` when an awaited read or the
      front-matter parser threw, which rejects the whole async function
      before `setItems` runs. */
  function Load(files: seq<Fetched>): (r: Option<seq<MediaItem>>)
    ensures r.Some? ==> |r.value| <= |files|
    ensures r.Some? <==> AllParsed(files)
    decreases |files|
  {
    if files == [] then Some([])
    else
      var init := Load(files[..|files| - 1]);
      var last := files[|files| - 1];
      if init.None? || last.Failed? then None
      else Some(init.value + if Accepts(last.doc) then [BuildItem(last.doc)] else [])
  }

  /** The paths warned about before the load finishes or throws. */
  function Warned(files: seq<Fetched>): (paths: seq<string>)
    ensures |paths| <= |files|
    decreases |files|
  {
    if files == [] then []
    else
      var init := files[..|files| - 1];
      var last := files[|files| - 1];
      if Load(init).None? || last.Failed? then Warned(init)
      else Warned(init) + if Accepts(last.doc) then [] else [last.doc.path]
  }

  /** The catalogue the app shows after the load: the loaded items, or the
      initial empty list when the load threw. */
  function Published(r: Option<seq<MediaItem>>): seq<MediaItem> {
    if r.Some? then r.value else []
  }

  predicate AllParsed(files: seq<Fetched>) {
    forall i :: 0 <= i < |files| ==> files[i].Parsed?
  }

  /** The parsed documents of files that were all read and parsed. */
  function Docs(files: seq<Fetched>): (docs: seq<Document>)
    requires AllParsed(files)
    ensures |docs| == |files|
    ensures forall i :: 0 <= i < |files| ==> files[i] == Parsed(docs[i])
  {
    seq(|files|, i requires 0 <= i < |files| => files[i].doc)
  }

  /** The loop over `Object.keys(markdownFiles)`: each file is awaited and
      parsed, then either pushed as an item or warned about and skipped with
      `continue`; a file whose read or parse throws ends the load with nothing
      published. `warned` is the sequence of paths the warnings name. */
  method LoadMarkdownFiles(files: seq<Fetched>) returns (loaded: Option<seq<MediaItem>>, warned: seq<string>)
    ensures loaded == Load(files)
    ensures warned == Warned(files)
    ensures loaded.Some? ==> |loaded.value| + |warned| == |files|
  {
    var loadedItems: seq<MediaItem> := [];
    warned := [];
    for i := 0 to |files|
      invariant Load(files[..i]) == Some(loadedItems)
      invariant warned == Warned(files[..i])
      invariant |loadedItems| + |warned| == i
    {
      LoadStep(files, i);
      if files[i].Failed? {
        AbortSticks(files, i + 1);
        loaded := None;
        return;
      }
      var doc := files[i].doc;
      var data := doc.attributes;
      if !Truthy(Attr(data, "type")) || !Truthy(Attr(data, "title")) || !Truthy(Attr(data, "creator")) {
        warned := warned + [doc.path];
        continue;
      }
      loadedItems := loadedItems + [BuildItem(doc)];
    }
    assert files[..|files|] == files;
    loaded := Some(loadedItems);
  }

  /** One more file: a failed one ends the load, a parsed one adds its item
      or its warning. */
  lemma LoadStep(files: seq<Fetched>, n: nat)
    requires n < |files| && Load(files[..n]).Some?
    ensures files[n].Failed? ==> Load(files[..n + 1]).None? && Warned(files[..n + 1]) == Warned(files[..n])
    ensures files[n].Parsed? && Accepts(files[n].doc) ==>
              Load(files[..n + 1]) == Some(Load(files[..n]).value + [BuildItem(files[n].doc)])
                && Warned(files[..n + 1]) == Warned(files[..n])
    ensures files[n].Parsed? && !Accepts(files[n].doc) ==>
              Load(files[..n + 1]) == Load(files[..n]) && Warned(files[..n + 1]) == Warned(files[..n]) + [files[n].doc.path]
  {
    assert files[..n + 1][..n] == files[..n];
    assert Load(files[..n]).value + [] == Load(files[..n]).value;
  }

  /** Once a read or parse has thrown, the later files change nothing: the
      load stays failed and no further warning is printed. */
  lemma {:induction false} AbortSticks(files: seq<Fetched>, n: nat)
    requires n <= |files| && Load(files[..n]).None?
    ensures Load(files).None?
    ensures Warned(files) == Warned(files[..n])
    decreases |files|
  {
    if n == |files| {
      assert files[..n] == files;
    } else {
      var init := files[..|files| - 1];
      assert init[..n] == files[..n];
      AbortSticks(init, n);
    }
  }

  /** One file whose read or front-matter parse throws empties the whole
      catalogue: nothing is published, however many files are valid. */
  lemma FailureAbortsLoad(files: seq<Fetched>, i: nat)
    requires i < |files| && files[i].Failed?
    ensures Load(files) == None
    ensures Published(Load(files)) == []
  {
  }

  /** When every file is read and parsed, the load publishes exactly the
      validated items and warns exactly about the skipped documents. */
  lemma {:induction false} LoadAllParsed(files: seq<Fetched>)
    requires AllParsed(files)
    ensures Load(files) == Some(Ingest(Docs(files)))
    ensures Warned(files) == Skipped(Docs(files))
    decreases |files|
  {
    if files != [] {
      var init := files[..|files| - 1];
      assert Docs(init) == Docs(files)[..|files| - 1];
      LoadAllParsed(init);
    }
  }

  /** Every warning names a file that was read and parsed and whose document
      lacks a truthy type, title or creator. */
  lemma {:induction false} WarnedSound(files: seq<Fetched>, p: string)
    requires p in Warned(files)
    ensures exists i :: 0 <= i < |files| && files[i].Parsed? && files[i].doc.path == p && !Accepts(files[i].doc)
    decreases |files|
  {
    var init := files[..|files| - 1];
    if p in Warned(init) {
      WarnedSound(init, p);
      var i :| 0 <= i < |init| && init[i].Parsed? && init[i].doc.path == p && !Accepts(init[i].doc);
      assert files[i] == init[i];
    } else {
      assert files[|files| - 1].doc.path == p;
    }
  }

  /** Every document is accounted for: item count plus skipped count is the
      document count. */
  lemma {:induction false} IngestCount(docs: seq<Document>)
    ensures |Ingest(docs)| + |Skipped(docs)| == |docs|
    decreases |docs|
  {
    if docs != [] {
      IngestCount(docs[..|docs| - 1]);
    }
  }

  /** Every item has a truthy type, title and creator. */
  lemma {:induction false} IngestOnlyValid(docs: seq<Document>, x: MediaItem)
    requires x in Ingest(docs)
    ensures Truthy(x.mediaType) && Truthy(x.title) && Truthy(x.creator)
    decreases |docs|
  {
    var init := docs[..|docs| - 1];
    if x in Ingest(init) {
      IngestOnlyValid(init, x);
    }
  }

  /** The index in the item list that the item of document `i` would take:
      the number of items built from the documents before it. */
  function Slot(docs: seq<Document>, i: nat): nat
    requires i <= |docs|
  {
    |Ingest(docs[..i])|
  }

  /** Loading a prefix of the documents yields a prefix of the items. */
  lemma {:induction false} IngestPrefix(docs: seq<Document>, n: nat)
    requires n <= |docs|
    ensures Ingest(docs[..n]) <= Ingest(docs)
    decreases |docs|
  {
    if n == |docs| {
      assert docs[..n] == docs;
    } else {
      var init := docs[..|docs| - 1];
      assert init[..n] == docs[..n];
      IngestPrefix(init, n);
    }
  }

  /** Warning about a prefix of the documents warns about a prefix of the
      paths. */
  lemma {:induction false} SkippedPrefix(docs: seq<Document>, n: nat)
    requires n <= |docs|
    ensures Skipped(docs[..n]) <= Skipped(docs)
    decreases |docs|
  {
    if n == |docs| {
      assert docs[..n] == docs;
    } else {
      var init := docs[..|docs| - 1];
      assert init[..n] == docs[..n];
      SkippedPrefix(init, n);
    }
  }

  /** Every rejected document is warned about, after the warnings for the
      documents before it. */
  lemma SkippedComplete(docs: seq<Document>, i: nat)
    requires i < |docs| && !Accepts(docs[i])
    ensures |Skipped(docs[..i])| < |Skipped(docs)|
    ensures Skipped(docs)[|Skipped(docs[..i])|] == docs[i].path
    ensures docs[i].path in Skipped(docs)
  {
    SkippedPrefix(docs, i + 1);
    assert docs[..i + 1][..i] == docs[..i];
  }

  /** An accepted document's item sits at its slot, with `id` its path and
      its fields built by BuildItem. */
  lemma IngestKeepsAccepted(docs: seq<Document>, i: nat)
    requires i < |docs| && Accepts(docs[i])
    ensures Slot(docs, i) < |Ingest(docs)|
    ensures Ingest(docs)[Slot(docs, i)] == BuildItem(docs[i])
    ensures Ingest(docs)[Slot(docs, i)].id == docs[i].path
  {
    IngestPrefix(docs, i + 1);
    assert docs[..i + 1][..i] == docs[..i];
  }

  /** A rejected document contributes no item: the slot does not advance. */
  lemma IngestDropsRejected(docs: seq<Document>, i: nat)
    requires i < |docs| && !Accepts(docs[i])
    ensures Slot(docs, i + 1) == Slot(docs, i)
  {
    assert docs[..i + 1][..i] == docs[..i];
  }

  /** The item of an accepted document precedes the items of all later
      documents. */
  lemma IngestKeepsOrder(docs: seq<Document>, i: nat, j: nat)
    requires i < j <= |docs| && Accepts(docs[i])
    ensures Slot(docs, i) < Slot(docs, j)
  {
    IngestPrefix(docs[..j], i + 1);
    assert docs[..j][..i + 1] == docs[..i + 1];
    assert docs[..i + 1][..i] == docs[..i];
  }

  /** Dropping the last document does not move the slots before it. */
  lemma SlotOfInit(docs: seq<Document>, i: nat)
    requires i < |docs| - 1
    ensures Slot(docs[..|docs| - 1], i) == Slot(docs, i)
  {
    assert docs[..|docs| - 1][..i] == docs[..i];
  }

  /** Every item comes from an accepted document, at that document's slot. */
  lemma {:induction false} IngestOrigin(docs: seq<Document>, k: nat)
    requires k < |Ingest(docs)|
    ensures exists i :: 0 <= i < |docs| && Accepts(docs[i]) && Slot(docs, i) == k && Ingest(docs)[k] == BuildItem(docs[i])
    decreases |docs|
  {
    var n := |docs|;
    var init := docs[..n - 1];
    if k < |Ingest(init)| {
      IngestOrigin(init, k);
      var i :| 0 <= i < |init| && Accepts(init[i]) && Slot(init, i) == k && Ingest(init)[k] == BuildItem(init[i]);
      SlotOfInit(docs, i);
      IngestPrefix(docs, n - 1);
      assert init[i] == docs[i];
      assert Accepts(docs[i]) && Slot(docs, i) == k && Ingest(docs)[k] == BuildItem(docs[i]);
    } else {
      assert Accepts(docs[n - 1]) && Slot(docs, n - 1) == k && Ingest(docs)[k] == BuildItem(docs[n - 1]);
    }
  }

  /** With distinct file paths (as the enumeration of a dictionary's keys
      gives), a document has an item in the list exactly when it is accepted. */
  lemma IngestMembership(docs: seq<Document>, i: nat)
    requires i < |docs|
    requires forall a, b :: 0 <= a < b < |docs| ==> docs[a].path != docs[b].path
    ensures (exists k :: 0 <= k < |Ingest(docs)| && Ingest(docs)[k].id == docs[i].path) <==> Accepts(docs[i])
  {
    if Accepts(docs[i]) {
      IngestKeepsAccepted(docs, i);
    } else {
      forall k | 0 <= k < |Ingest(docs)|
        ensures Ingest(docs)[k].id != docs[i].path
      {
        IngestOrigin(docs, k);
      }
    }
  }

  /** A document carrying only the required attributes gets every default:
      empty year, importance 3, empty image URL, and its body as notes. */
  lemma BookScenario()
    ensures
      var doc := Document("./contents/foo.md",
                          map["type" := Str("book"), "title" := Str("Foo"), "creator" := Str("Bar")],
                          "Hello\nWorld");
      Ingest([doc]) == [MediaItem("./contents/foo.md", Str("book"), Str("Foo"), Str("Bar"),
                                  Str(""), Num(3), "Hello\nWorld", Str(""))]
  {
  }

  /** Any truthy type passes, including one outside the enumeration; an
      explicit importance of 0 is replaced by 3; a missing type skips the
      document. */
  lemma ValidationScenarios()
    ensures
      var doc := Document("./contents/pod.md",
                          map["type" := Str("podcast"), "title" := Str("T"), "creator" := Num(7),
                              "importance" := Num(0)],
                          "");
      Accepts(doc) && BuildItem(doc).mediaType == Str("podcast") && BuildItem(doc).importance == Num(3)
    ensures
      var doc := Document("./contents/bad.md", map["title" := Str("T"), "creator" := Str("C")], "x");
      Ingest([doc]) == [] && Skipped([doc]) == ["./contents/bad.md"]
  {
  }

  /** A valid book followed by a file whose front matter does not parse:
      nothing is published and no warning is printed. */
  lemma AbortScenario()
    ensures
      var good := Document("./contents/foo.md",
                           map["type" := Str("book"), "title" := Str("Foo"), "creator" := Str("Bar")], "");
      var files := [Parsed(good), Failed("./contents/broken.md")];
      Published(Load(files)) == [] && Warned(files) == []
  {
    var good := Document("./contents/foo.md",
                         map["type" := Str("book"), "title" := Str("Foo"), "creator" := Str("Bar")], "");
    var files := [Parsed(good), Failed("./contents/broken.md")];
    assert files[..1] == [Parsed(good)];
    assert files[..1][..0] == [];
    assert Accepts(good);
    assert Warned(files[..1]) == [];
  }
}
