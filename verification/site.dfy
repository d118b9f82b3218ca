/**
 * What `main` (src/main.rs:324-423) makes of one example once its metadata
 * and execution log are known: the author list as prose (`comma_and_join`),
 * the thumbnail for the overview page, and the two records handed to the
 * page templates. Template rendering, Markdown conversion and file output
 * are not modelled; the Markdown renderer is a parameter.
 */
module Site {
  import opened Wrappers
  import opened Text
  import opened Metadata
  import opened ImageLog
  import opened ImageSelection

  // ---- comma_and_join ----

  /**
   * A list as prose: nothing, the one item, or the items separated by ", "
   * with ",  and " (comma, two spaces, "and ") before the last one.
   */
  function ReadableList(items: seq<string>): string {
    if |items| == 0 then ""
    else if |items| == 1 then items[0]
    else Join(items[..|items| - 1], ", ") + ",  and " + items[|items| - 1]
  }

  /**
   * `comma_and_join`: every item after the first is preceded by ", ", and the
   * last one also by " and ".
   */
  method CommaAndJoin(list: seq<string>) returns (joined: string)
    ensures joined == ReadableList(list)
    ensures |list| == 0 ==> joined == ""
    ensures |list| == 1 ==> joined == list[0]
  {
    joined := "";
    var i := 0;
    while i < |list|
      invariant 0 <= i <= |list|
      invariant i < |list| ==> joined == Join(list[..i], ", ")
      invariant i == |list| ==> joined == ReadableList(list)
    {
      if i > 0 {
        joined := joined + ", ";
        if i == |list| - 1 {
          joined := joined + " and ";
        }
      }
      joined := joined + list[i];
      if i > 0 {
        assert list[..i + 1] == list[..i] + [list[i]];
        if i == |list| - 1 {
          assert list[..i] == list[..|list| - 1];
          SpacedAnd();
          AppendAssoc(Join(list[..i], ", "), ", ", " and ");
        } else {
          JoinSnoc(list[..i], ", ", list[i]);
        }
      } else {
        assert list[..1] == [list[0]];
      }
      i := i + 1;
    }
  }

  /** The official examples credit "Evalf,  and other Nutils contributors". */
  lemma OfficialAuthorsProse()
    ensures ReadableList(OfficialAuthors) == "Evalf,  and other Nutils contributors"
  {
    assert OfficialAuthors[..1] == ["Evalf"];
    assert Join(["Evalf"], ", ") == "Evalf";
    OfficialAuthorsConcat();
  }

  /** Three authors: commas between all, the double-spaced "and" before the last. */
  lemma ThreeAuthorsProse(a: string, b: string, c: string)
    ensures ReadableList([a, b, c]) == a + ", " + b + ",  and " + c
  {
    assert [a, b, c][..2] == [a, b];
    assert [a, b][1..] == [b];
    assert Join([a, b], ", ") == a + ", " + b;
  }

  // ---- the overview entry ----

  /**
   * The thumbnail of the overview page: the "nth, else last" rule applied to
   * the example's final image list, as a path under the example's directory.
   */
  function Thumbnail(id: string, images: seq<string>, index: Option<nat>): (r: Option<string>)
    ensures index.None? ==> (r.Some? <==> |images| > 0)
    ensures index.None? && r.Some? ==> r.value == id + "/" + images[|images| - 1]
    ensures index.Some? ==> (r.Some? <==> index.value < |images|)
    ensures index.Some? && r.Some? ==> r.value == id + "/" + images[index.value]
  {
    match NthOrLast(images, index)
    case Some(image) => Some(id + "/" + image)
    case None => None
  }

  /**
   * The two defaults compose: without any index, the thumbnail is the latest
   * render of the name the log mentioned last for the first time.
   */
  lemma DefaultThumbnail(id: string, events: seq<ImageEvent>)
    ensures |FirstSeen(events)| == 0 ==> Thumbnail(id, SelectImages(None, None, events), None) == None
    ensures |FirstSeen(events)| > 0 ==> |FilesFor(events, LastSeen(events))| > 0
    ensures |FirstSeen(events)| > 0 ==>
      Thumbnail(id, SelectImages(None, None, events), None) == Some(id + "/" + Latest(FilesFor(events, LastSeen(events))))
  {
    if |FirstSeen(events)| == 0 {
      NoNamesNoThumbnail(id, events);
    } else {
      LastNameThumbnail(id, events);
    }
  }

  lemma NoNamesNoThumbnail(id: string, events: seq<ImageEvent>)
    requires |FirstSeen(events)| == 0
    ensures Thumbnail(id, SelectImages(None, None, events), None) == None
  {
    assert DiscoveredSlots(events) == [];
  }

  lemma LastNameThumbnail(id: string, events: seq<ImageEvent>)
    requires |FirstSeen(events)| > 0
    ensures |FilesFor(events, LastSeen(events))| > 0
    ensures Thumbnail(id, SelectImages(None, None, events), None) == Some(id + "/" + Latest(FilesFor(events, LastSeen(events))))
  {
    var images := SelectImages(None, None, events);
    DiscoveredLatestAt(events, |FirstSeen(events)| - 1);
    var latest := Latest(FilesFor(events, LastSeen(events)));
    assert images[|images| - 1] == latest;
  }

  /** The overview page's entry for one example (`ExampleListContext`). */
  datatype ListEntry = ListEntry(name: string, thumbnail: Option<string>, tags: seq<string>, href: string)

  /** The example page's data (`ExampleContext`). */
  datatype PageContext = PageContext(
    name: string,
    authors: string,
    description: string,
    images: seq<string>,
    repository: string,
    commit: string,
    script: string,
    scriptUrl: string,
    tags: seq<string>)

  datatype SiteError = ImagesFailed(images: ImageError) | UrlFailed(url: UrlError)

  /**
   * The body of `main`'s loop for one example whose output directory already
   * holds the execution log: collect the images, then build the overview
   * entry and the page record. A missing log or an unusable repository URL
   * stops with an error.
   */
  method RenderExample(id: string, meta: ExampleMetadata, log: Option<seq<string>>,
                       matcher: string -> Option<Captures>, markdown: string -> string)
    returns (r: Result<(ListEntry, PageContext), SiteError>)
    ensures log.None? ==> r == Failure(ImagesFailed(LogNotFound))
    ensures log.Some? && ScriptUrl(meta.repository, meta.commit, meta.script).Failure? ==>
      r == Failure(UrlFailed(ScriptUrl(meta.repository, meta.commit, meta.script).error))
    ensures log.Some? && ScriptUrl(meta.repository, meta.commit, meta.script).Success? ==> r.Success?
    ensures r.Success? ==>
      var images := SelectImages(meta.images, meta.imageIndex, Scan(log.value, matcher));
      var (entry, page) := r.value;
      && log.Some?
      && entry == ListEntry(meta.name, Thumbnail(id, images, meta.thumbnail), meta.tags, id + "/")
      && page.images == images
      && page.authors == ReadableList(meta.authors)
      && page.description == markdown(meta.description)
      && Success(page.scriptUrl) == ScriptUrl(meta.repository, meta.commit, meta.script)
      && page.name == meta.name && page.tags == meta.tags
      && page.repository == meta.repository && page.commit == meta.commit && page.script == meta.script
  {
    var found := GetImages(meta.images, meta.imageIndex, log, matcher);
    if found.Failure? {
      return Failure(ImagesFailed(found.error));
    }
    var images := found.value;
    var entry := ListEntry(meta.name, Thumbnail(id, images, meta.thumbnail), meta.tags, id + "/");
    var authors := CommaAndJoin(meta.authors);
    var url := ScriptUrl(meta.repository, meta.commit, meta.script);
    if url.Failure? {
      return Failure(UrlFailed(url.error));
    }
    var page := PageContext(meta.name, authors, markdown(meta.description), images, meta.repository,
                            meta.commit, meta.script, url.value, meta.tags);
    r := Success((entry, page));
  }

  // ---- worked examples ----

  /**
   * Log events x:h1.png, x:h2.png, y:h3.jpg with no fixed list and no indices
   * give the images [h2.png, h3.jpg] and the thumbnail h3.jpg.
   */
  lemma LogExample(id: string)
    ensures var events := [ImageEvent("x", "h1.png"), ImageEvent("x", "h2.png"), ImageEvent("y", "h3.jpg")];
      && SelectImages(None, None, events) == ["h2.png", "h3.jpg"]
      && Thumbnail(id, SelectImages(None, None, events), None) == Some(id + "/h3.jpg")
  {
    var events := [ImageEvent("x", "h1.png"), ImageEvent("x", "h2.png"), ImageEvent("y", "h3.jpg")];
    ExampleLogNames(events);
    DiscoveredLatestAt(events, 0);
    DiscoveredLatestAt(events, 1);
    var images := SelectImages(None, None, events);
    assert images == ["h2.png", "h3.jpg"];
    assert Thumbnail(id, images, None) == Some(id + "/" + "h3.jpg");
    AppendAssoc(id, "/", "h3.jpg");
    SlashName();
  }

  /** The names of the example log in first-seen order, and the files of each. */
  lemma ExampleLogNames(events: seq<ImageEvent>)
    requires events == [ImageEvent("x", "h1.png"), ImageEvent("x", "h2.png"), ImageEvent("y", "h3.jpg")]
    ensures FirstSeen(events) == ["x", "y"]
    ensures FilesFor(events, "x") == ["h1.png", "h2.png"]
    ensures FilesFor(events, "y") == ["h3.jpg"]
  {
    var one := [ImageEvent("x", "h1.png")];
    var two := one + [ImageEvent("x", "h2.png")];
    assert events == two + [ImageEvent("y", "h3.jpg")];
    assert one == [] + one;
    assert FirstSeen(one) == ["x"] && FilesFor(one, "x") == ["h1.png"] && FilesFor(one, "y") == [];
    FilesForSnoc(one, ImageEvent("x", "h2.png"), "x");
    FilesForSnoc(one, ImageEvent("x", "h2.png"), "y");
    assert two[..1] == one;
    assert FirstSeen(two) == ["x"];
    FilesForSnoc(two, ImageEvent("y", "h3.jpg"), "x");
    FilesForSnoc(two, ImageEvent("y", "h3.jpg"), "y");
    assert events[..2] == two;
  }

  /** A modeline "thumbnail=1:tags=a,b" sets thumbnail 1 and the tags official, a, b. */
  lemma ModelineExample()
    ensures ParseModeline(["# example:thumbnail=1:tags=a,b"]) == Success(Modeline(Some(1), [OfficialTag, "a", "b"]))
  {
    var ds := [SetThumbnail(1), AddTags(["a", "b"])];
    ExampleModelineText();
    ExampleDirectives(ds);
    ModelineRoundTrip(ds, []);
    assert [] + [RenderModeline(ds)] == ["# example:thumbnail=1:tags=a,b"];
  }

  // ---- literal facts used by the proofs above ----
  //
  // Each equality between string or sequence literals is stated once, in a
  // lemma of its own, so that the solver meets it in a small context.

  /** The separator before the last of several items: ", " followed by " and ". */
  lemma SpacedAnd()
    ensures ", " + " and " == ",  and "
  {
  }

  lemma OfficialAuthorsConcat()
    ensures "Evalf" + ",  and " + "other Nutils contributors" == "Evalf,  and other Nutils contributors"
  {
  }

  lemma SlashName()
    ensures "/" + "h3.jpg" == "/h3.jpg"
  {
  }

  lemma ThumbnailOneText()
    ensures RenderDirective(SetThumbnail(1)) == "thumbnail=1"
  {
    assert Decimal(1) == "1";
  }

  lemma TagsText()
    ensures RenderDirective(AddTags(["a", "b"])) == "tags=a,b"
  {
    assert ["a", "b"][1..] == ["b"];
    assert Join(["a", "b"], [',']) == "a,b";
  }

  lemma ExampleModelineText()
    ensures RenderModeline([SetThumbnail(1), AddTags(["a", "b"])]) == "# example:thumbnail=1:tags=a,b"
  {
    var ds := [SetThumbnail(1), AddTags(["a", "b"])];
    var items := RenderDirectives(ds);
    ThumbnailOneText();
    TagsText();
    assert items == ["thumbnail=1", "tags=a,b"];
    assert items[1..] == ["tags=a,b"];
    assert Join(items[1..], [':']) == "tags=a,b";
    var joined := Join(items, [':']);
    assert joined == "thumbnail=1" + [':'] + "tags=a,b";
    ExampleModelineConcat();
  }

  lemma ExampleModelineConcat()
    ensures ModelinePrefix + ("thumbnail=1" + [':'] + "tags=a,b") == "# example:thumbnail=1:tags=a,b"
  {
  }

  lemma ExampleTagsWritable()
    ensures Writable(AddTags(["a", "b"]))
  {
    var ts := ["a", "b"];
    assert ts[0] == ['a'] && ts[1] == ['b'];
    forall i | 0 <= i < |ts| ensures ',' !in ts[i] && ':' !in ts[i] {
      assert i == 0 || i == 1;
    }
  }

  lemma ExampleDirectiveTags(ds: seq<Directive>)
    requires ds == [SetThumbnail(1), AddTags(["a", "b"])]
    ensures DirectiveTags(ds) == ["a", "b"]
    ensures DirectiveThumbnail(ds) == Some(1)
  {
    var tail := ds[1..];
    assert tail == [AddTags(["a", "b"])] && tail[1..] == [];
    assert DirectiveTags(tail) == ["a", "b"] + [];
    assert DirectiveThumbnail(tail) == None;
  }

  lemma PrependOne<T>(x: T, y: T, z: T)
    ensures [x] + [y, z] == [x, y, z]
  {
  }

  lemma ExampleDirectives(ds: seq<Directive>)
    requires ds == [SetThumbnail(1), AddTags(["a", "b"])]
    ensures forall i :: 0 <= i < |ds| ==> Writable(ds[i])
    ensures DirectiveThumbnail(ds) == Some(1)
    ensures [OfficialTag] + DirectiveTags(ds) == [OfficialTag, "a", "b"]
  {
    ExampleTagsWritable();
    ExampleDirectiveTags(ds);
    PrependOne(OfficialTag, "a", "b");
    forall i | 0 <= i < |ds| ensures Writable(ds[i]) {
      assert i == 0 || i == 1;
    }
  }
}
