/**
 * `ExampleMetadata` (src/main.rs:40-151): the per-example record, the parser
 * for the comment header of an official example script (`from_py`), and the
 * permalink to the script on its hosting provider (`get_script_url`).
 *
 * The script is given as its lines, as `str::lines` yields them. The two
 * values `from_py` obtains from `git rev-parse` (the checked-out commit and
 * the script's path relative to the repository root) are parameters.
 */
module Metadata {
  import opened Wrappers
  import opened Text

  datatype ExampleMetadata = ExampleMetadata(
    name: string,
    authors: seq<string>,
    description: string,
    repository: string,
    commit: string,
    script: string,
    tags: seq<string>,
    images: Option<seq<string>>,
    imageIndex: Option<nat>,
    thumbnail: Option<nat>)

  datatype ParseError =
    | PrematureEndOfFile          // no first line
    | ExpectedComment             // first line does not start with "# "
    | SecondLineNotEmptyComment   // second line missing or not exactly "#"
    | ExpectedSpaceOrNewline      // a description line "#x" with x not a space
    | InvalidNumber(arg: string)  // `thumbnail=` argument is not a usize
    | InvalidModeline(item: string)

  const OfficialAuthors: seq<string> := ["Evalf", "other Nutils contributors"]
  const OfficialRepository: string := "https://github.com/evalf/nutils.git"
  const OfficialTag: string := "official"
  const ModelinePrefix: string := "# example:"

  // ---- description: the comment run after the two header lines ----

  predicate IsComment(line: string) {
    |line| > 0 && line[0] == '#'
  }

  /** What the part of a comment line after `#` adds to the description, if it is well formed. */
  function CommentText(body: string): Option<string> {
    if |body| > 0 && body[0] == ' ' then Some(body[1..])
    else if |body| == 0 then Some("")
    else None
  }

  predicate WellFormedComment(line: string) {
    IsComment(line) && CommentText(line[1..]).Some?
  }

  /** Number of leading lines that start with `#`. */
  function CommentRun(lines: seq<string>): (k: nat)
    ensures k <= |lines|
    ensures forall j :: 0 <= j < k ==> IsComment(lines[j])
    ensures k < |lines| ==> !IsComment(lines[k])
  {
    if |lines| == 0 || !IsComment(lines[0]) then 0
    else 1 + CommentRun(lines[1..])
  }

  /** The description text, and the lines left after the comment run and the line that ended it. */
  datatype Description = Description(text: string, rest: seq<string>)

  /**
   * The `map_while` loop over the lines after the header: every line starting
   * with `#` contributes its text and a newline; the first other line stops the
   * loop and is consumed with it.
   */
  function ParseDescription(lines: seq<string>): (r: Result<Description, ParseError>)
    ensures r.Success? <==> forall j :: 0 <= j < CommentRun(lines) ==> WellFormedComment(lines[j])
    ensures r.Failure? ==> r.error == ExpectedSpaceOrNewline
    ensures r.Success? && CommentRun(lines) < |lines| ==> r.value.rest == lines[CommentRun(lines) + 1..]
    ensures r.Success? && CommentRun(lines) == |lines| ==> r.value.rest == []
  {
    if |lines| == 0 then Success(Description("", []))
    else match StripPrefix(lines[0], "#")
      case None => Success(Description("", lines[1..]))
      case Some(body) =>
        match CommentText(body)
        case None => Failure(ExpectedSpaceOrNewline)
        case Some(text) =>
          match ParseDescription(lines[1..])
          case Failure(e) => Failure(e)
          case Success(d) => Success(Description(text + "\n" + d.text, d.rest))
  }

  /** The comment line that contributes `t` to a description. */
  function CommentLine(t: string): string {
    if t == "" then "#" else "# " + t
  }

  function CommentBlock(ts: seq<string>): (lines: seq<string>)
    ensures |lines| == |ts|
    ensures forall i :: 0 <= i < |ts| ==> lines[i] == CommentLine(ts[i])
  {
    if |ts| == 0 then [] else [CommentLine(ts[0])] + CommentBlock(ts[1..])
  }

  /** Each text followed by a newline. */
  function Unlines(ts: seq<string>): string {
    if |ts| == 0 then "" else ts[0] + "\n" + Unlines(ts[1..])
  }

  lemma CommentLineText(t: string)
    ensures IsComment(CommentLine(t))
    ensures CommentText(CommentLine(t)[1..]) == Some(t)
  {
    if t != "" {
      assert ("# " + t)[1..] == " " + t;
      assert (" " + t)[1..] == t;
    }
  }

  /** A well-formed comment line in front adds its text and a newline. */
  lemma DescriptionStep(line: string, t: string, more: seq<string>, d: Description)
    requires IsComment(line) && CommentText(line[1..]) == Some(t)
    requires ParseDescription(more) == Success(d)
    ensures ParseDescription([line] + more) == Success(Description(t + "\n" + d.text, d.rest))
  {
    assert ([line] + more)[0] == line && ([line] + more)[1..] == more;
    assert StripPrefix(line, "#") == Some(line[1..]);
  }

  /** The first line that is not a comment ends the description and is consumed with it. */
  lemma DescriptionStops(code: string, rest: seq<string>)
    requires !IsComment(code)
    ensures ParseDescription([code] + rest) == Success(Description("", rest))
  {
    assert ([code] + rest)[0] == code && ([code] + rest)[1..] == rest;
  }

  /**
   * The text a well-formed comment line contributes, read off the line
   * itself: everything after `# `, and nothing for a bare `#` (so `# ` also
   * contributes the empty text).
   */
  function LineText(line: string): string {
    if |line| < 2 then "" else line[2..]
  }

  /** The texts of a run of comment lines, each followed by a newline. */
  function RunTexts(lines: seq<string>): string {
    if |lines| == 0 then "" else LineText(lines[0]) + "\n" + RunTexts(lines[1..])
  }

  /** An accepted description is the text of every line of the comment run, each ended by a newline. */
  lemma {:induction false} DescriptionText(lines: seq<string>)
    requires ParseDescription(lines).Success?
    ensures ParseDescription(lines).value.text == RunTexts(lines[..CommentRun(lines)])
  {
    var k := CommentRun(lines);
    if k == 0 {
      assert lines[..k] == [];
    } else {
      var body := lines[0][1..];
      assert StripPrefix(lines[0], "#") == Some(body);
      assert CommentText(body) == Some(LineText(lines[0]));
      DescriptionText(lines[1..]);
      assert lines[..k][0] == lines[0];
      assert lines[..k][1..] == lines[1..][..k - 1];
    }
  }

  /** A `# ` line, a hash and one space, adds an empty line to the description. */
  lemma HashSpaceLine(rest: seq<string>)
    requires ParseDescription(rest).Success?
    ensures ParseDescription(["# "] + rest).Success?
    ensures ParseDescription(["# "] + rest).value.text == "\n" + ParseDescription(rest).value.text
  {
    assert "# "[1..] == " " && " "[1..] == "";
    DescriptionStep("# ", "", rest, ParseDescription(rest).value);
    assert "" + "\n" == "\n";
  }

  /** Writing texts as comment lines and parsing them back gives the texts, one per line. */
  lemma {:induction false} DescriptionRoundTrip(ts: seq<string>, code: string, rest: seq<string>)
    requires !IsComment(code)
    ensures ParseDescription(CommentBlock(ts) + [code] + rest) == Success(Description(Unlines(ts), rest))
    decreases |ts|
  {
    if |ts| == 0 {
      assert CommentBlock(ts) + [code] + rest == [code] + rest;
      DescriptionStops(code, rest);
    } else {
      var head := CommentLine(ts[0]);
      var more := CommentBlock(ts[1..]) + [code] + rest;
      CommentLineText(ts[0]);
      DescriptionRoundTrip(ts[1..], code, rest);
      assert CommentBlock(ts) == [head] + CommentBlock(ts[1..]);
      ConsThenAppend(head, CommentBlock(ts[1..]), code, rest);
      DescriptionStep(head, ts[0], more, Description(Unlines(ts[1..]), rest));
    }
  }

  lemma ConsThenAppend<T>(head: T, block: seq<T>, code: T, rest: seq<T>)
    ensures [head] + block + [code] + rest == [head] + (block + [code] + rest)
  {
  }

  // ---- the modeline ----

  datatype Modeline = Modeline(thumbnail: Option<nat>, tags: seq<string>)

  const DefaultModeline: Modeline := Modeline(None, [OfficialTag])

  /** A `key=value` item the modeline loop accepts. */
  predicate ValidDirective(item: string) {
    match SplitOnce(item, '=')
    case None => false
    case Some((key, arg)) => (key == "thumbnail" && ParseUsize(arg).Some?) || key == "tags"
  }

  predicate AllValid(items: seq<string>) {
    forall i :: 0 <= i < |items| ==> ValidDirective(items[i])
  }

  /** The tags one valid item adds: the comma-separated parts after `tags=`, none for `thumbnail=`. */
  function ItemTags(item: string): seq<string>
    requires ValidDirective(item)
  {
    var (key, arg) := SplitOnce(item, '=').value;
    if key == "tags" then Split(arg, ',') else []
  }

  /** The index one valid item sets: the number after `thumbnail=`, none for `tags=`. */
  function ItemThumbnail(item: string): Option<nat>
    requires ValidDirective(item)
  {
    var (key, arg) := SplitOnce(item, '=').value;
    if key == "thumbnail" then ParseUsize(arg) else None
  }

  /** The tags the `tags=` items of a modeline add, in order. */
  function TagsOf(items: seq<string>): seq<string>
    requires AllValid(items)
  {
    if |items| == 0 then []
    else
      assert ValidDirective(items[0]);
      ItemTags(items[0]) + TagsOf(items[1..])
  }

  /** The index set by the last `thumbnail=` item, if any. */
  function LastThumbnail(items: seq<string>): Option<nat>
    requires AllValid(items)
  {
    if |items| == 0 then None
    else match LastThumbnail(items[1..])
      case Some(n) => Some(n)
      case None =>
        assert ValidDirective(items[0]);
        ItemThumbnail(items[0])
  }

  /**
   * The error a rejected item stops the loop with: the number's parse error
   * for a `thumbnail=` item, "invalid modeline" for anything else.
   */
  function ItemError(item: string): (e: ParseError)
    ensures e.InvalidNumber? || e.InvalidModeline?
  {
    match SplitOnce(item, '=')
    case Some((key, arg)) => if key == "thumbnail" then InvalidNumber(arg) else InvalidModeline(item)
    case None => InvalidModeline(item)
  }

  /** The position of the first item the loop rejects. */
  function FirstInvalid(items: seq<string>): (k: nat)
    requires !AllValid(items)
    ensures k < |items| && !ValidDirective(items[k])
    ensures forall j :: 0 <= j < k ==> ValidDirective(items[j])
  {
    assert |items| > 0;
    if !ValidDirective(items[0]) then 0
    else
      AllValidCons(items);
      var k := FirstInvalid(items[1..]);
      ValidShift(items, k);
      k + 1
  }

  /** Items that are valid after the first, with a valid first, are valid from the start. */
  lemma ValidShift(items: seq<string>, k: nat)
    requires |items| > 0 && ValidDirective(items[0]) && k < |items| - 1
    requires forall j :: 0 <= j < k ==> ValidDirective(items[1..][j])
    ensures items[k + 1] == items[1..][k]
    ensures forall j :: 0 <= j <= k ==> ValidDirective(items[j])
  {
    forall j | 0 <= j <= k ensures ValidDirective(items[j]) {
      if j > 0 {
        assert items[j] == items[1..][j - 1];
      }
    }
  }

  /**
   * One pass of the `for item in modeline.split(':')` loop: a valid item is
   * accepted with the effect its key names, anything else is an error.
   */
  function ApplyDirective(item: string, m: Modeline): (r: Result<Modeline, ParseError>)
    ensures r.Success? <==> ValidDirective(item)
    ensures r.Failure? ==> r.error == ItemError(item)
    ensures r.Failure? ==> (r.error.InvalidNumber? <==> SplitOnce(item, '=').Some? && SplitOnce(item, '=').value.0 == "thumbnail")
    ensures r.Success? ==>
      && r.value.tags == m.tags + ItemTags(item)
      && r.value.thumbnail == (if ItemThumbnail(item).Some? then ItemThumbnail(item) else m.thumbnail)
  {
    match SplitOnce(item, '=')
    case Some((key, arg)) =>
      if key == "thumbnail" then
        match ParseUsize(arg)
        case Some(n) => Success(m.(thumbnail := Some(n)))
        case None => Failure(InvalidNumber(arg))
      else if key == "tags" then Success(m.(tags := m.tags + Split(arg, ',')))
      else Failure(InvalidModeline(item))
    case None => Failure(InvalidModeline(item))
  }

  /**
   * The whole loop: it succeeds exactly when every item is valid; `tags=` items
   * append their comma-separated parts in order, and the last `thumbnail=` wins.
   */
  function ApplyDirectives(items: seq<string>, m: Modeline): (r: Result<Modeline, ParseError>)
    ensures r.Success? <==> AllValid(items)
    ensures r.Success? ==> r.value.tags == m.tags + TagsOf(items)
    ensures r.Success? ==> r.value.thumbnail == (if LastThumbnail(items).Some? then LastThumbnail(items) else m.thumbnail)
    ensures r.Failure? ==> r.error.InvalidNumber? || r.error.InvalidModeline?
    ensures r.Failure? ==> r.error == ItemError(items[FirstInvalid(items)])
  {
    if |items| == 0 then Success(m)
    else
      AllValidCons(items);
      match ApplyDirective(items[0], m)
      case Failure(e) => Failure(e)
      case Success(m') =>
        var r := ApplyDirectives(items[1..], m');
        if r.Success? then
          ApplyDirectivesCons(items, m, m', r.value);
          r
        else r
  }

  /** The first item's effect followed by the rest's is the effect of all items. */
  lemma ApplyDirectivesCons(items: seq<string>, m: Modeline, m': Modeline, final: Modeline)
    requires |items| > 0 && AllValid(items)
    requires m'.tags == m.tags + ItemTags(items[0])
    requires m'.thumbnail == (if ItemThumbnail(items[0]).Some? then ItemThumbnail(items[0]) else m.thumbnail)
    requires final.tags == m'.tags + TagsOf(items[1..])
    requires final.thumbnail == (if LastThumbnail(items[1..]).Some? then LastThumbnail(items[1..]) else m'.thumbnail)
    ensures final.tags == m.tags + TagsOf(items)
    ensures final.thumbnail == (if LastThumbnail(items).Some? then LastThumbnail(items) else m.thumbnail)
  {
    TagsOfCons(items);
    LastThumbnailCons(items);
    AppendAssoc(m.tags, ItemTags(items[0]), TagsOf(items[1..]));
  }

  lemma TagsOfCons(items: seq<string>)
    requires |items| > 0 && AllValid(items)
    ensures AllValid(items[1..])
    ensures TagsOf(items) == ItemTags(items[0]) + TagsOf(items[1..])
  {
    AllValidCons(items);
  }

  lemma LastThumbnailCons(items: seq<string>)
    requires |items| > 0 && AllValid(items)
    ensures AllValid(items[1..])
    ensures LastThumbnail(items)
         == if LastThumbnail(items[1..]).Some? then LastThumbnail(items[1..]) else ItemThumbnail(items[0])
  {
    AllValidCons(items);
  }

  /** One item is accepted exactly when it is valid, and then has the effect its key names. */
  lemma AllValidCons(items: seq<string>)
    requires |items| > 0
    ensures AllValid(items) <==> ValidDirective(items[0]) && AllValid(items[1..])
  {
    assert forall i :: 1 <= i < |items| ==> items[i] == items[1..][i - 1];
  }

  /** The `:`-separated items after the `# example:` prefix. */
  function ModelineItems(line: string): seq<string>
    requires StartsWith(line, ModelinePrefix)
  {
    Split(line[|ModelinePrefix|..], ':')
  }

  /**
   * Only the last of the remaining lines is looked at; without the
   * `# example:` prefix it leaves the defaults (tag `official`, no thumbnail).
   */
  function ParseModeline(rest: seq<string>): (r: Result<Modeline, ParseError>)
    ensures |rest| == 0 || !StartsWith(rest[|rest| - 1], ModelinePrefix) ==> r == Success(DefaultModeline)
    ensures |rest| > 0 && StartsWith(rest[|rest| - 1], ModelinePrefix) ==>
      (r.Success? <==> AllValid(ModelineItems(rest[|rest| - 1])))
    ensures |rest| > 0 && StartsWith(rest[|rest| - 1], ModelinePrefix) && r.Success? ==>
      && r.value.tags == [OfficialTag] + TagsOf(ModelineItems(rest[|rest| - 1]))
      && r.value.thumbnail == LastThumbnail(ModelineItems(rest[|rest| - 1]))
    ensures r.Failure? ==> r.error.InvalidNumber? || r.error.InvalidModeline?
  {
    if |rest| == 0 then Success(DefaultModeline)
    else match StripPrefix(rest[|rest| - 1], ModelinePrefix)
      case None => Success(DefaultModeline)
      case Some(modeline) =>
        assert Split(modeline, ':') == ModelineItems(rest[|rest| - 1]);
        ApplyDirectives(Split(modeline, ':'), DefaultModeline)
  }

  /** A directive as an author writes it in a modeline. */
  datatype Directive = SetThumbnail(index: nat) | AddTags(tags: seq<string>)

  predicate Writable(d: Directive) {
    match d
    case SetThumbnail(n) => n <= USIZE_MAX
    case AddTags(ts) => |ts| >= 1 && forall i :: 0 <= i < |ts| ==> ',' !in ts[i] && ':' !in ts[i]
  }

  function RenderDirective(d: Directive): string {
    match d
    case SetThumbnail(n) => "thumbnail=" + Decimal(n)
    case AddTags(ts) => "tags=" + Join(ts, [','])
  }


  function DirectiveTags(ds: seq<Directive>): seq<string> {
    if |ds| == 0 then []
    else (if ds[0].AddTags? then ds[0].tags else []) + DirectiveTags(ds[1..])
  }

  function DirectiveThumbnail(ds: seq<Directive>): Option<nat> {
    if |ds| == 0 then None
    else match DirectiveThumbnail(ds[1..])
      case Some(n) => Some(n)
      case None => if ds[0].SetThumbnail? then Some(ds[0].index) else None
  }

  /** The modeline as the directives change it. */
  function Applied(d: Directive, m: Modeline): Modeline {
    match d
    case SetThumbnail(n) => m.(thumbnail := Some(n))
    case AddTags(ts) => m.(tags := m.tags + ts)
  }

  function RenderDirectives(ds: seq<Directive>): (items: seq<string>)
    ensures |items| == |ds|
    ensures forall i :: 0 <= i < |ds| ==> items[i] == RenderDirective(ds[i])
  {
    if |ds| == 0 then []
    else
      var tail := RenderDirectives(ds[1..]);
      assert forall i :: 1 <= i < |ds| ==> ds[i] == ds[1..][i - 1];
      [RenderDirective(ds[0])] + tail
  }

  function RenderModeline(ds: seq<Directive>): string {
    ModelinePrefix + Join(RenderDirectives(ds), [':'])
  }

  /** The key parts of rendered directives never contain the item separator. */
  lemma KeysAvoidColon()
    ensures ':' !in "thumbnail=" && ':' !in "tags="
  {
    assert "thumbnail=" == ['t', 'h', 'u', 'm', 'b', 'n', 'a', 'i', 'l', '='];
    assert "tags=" == ['t', 'a', 'g', 's', '='];
  }

  lemma ThumbnailDirectiveParses(n: nat, m: Modeline)
    requires n <= USIZE_MAX
    ensures ':' !in RenderDirective(SetThumbnail(n))
    ensures ApplyDirective(RenderDirective(SetThumbnail(n)), m) == Success(m.(thumbnail := Some(n)))
  {
    var digits := Decimal(n);
    assert "thumbnail=" + digits == "thumbnail" + ['='] + digits;
    SplitOnceAtFirst("thumbnail", '=', digits);
    ParseDecimal(n);
    assert ':' !in digits by {
      forall i | 0 <= i < |digits| ensures digits[i] != ':' {
        assert IsDigit(digits[i]);
      }
    }
    KeysAvoidColon();
  }

  lemma TagsDirectiveParses(ts: seq<string>, m: Modeline)
    requires Writable(AddTags(ts))
    ensures ':' !in RenderDirective(AddTags(ts))
    ensures ApplyDirective(RenderDirective(AddTags(ts)), m) == Success(m.(tags := m.tags + ts))
  {
    var joined := Join(ts, [',']);
    assert "tags=" + joined == "tags" + ['='] + joined;
    SplitOnceAtFirst("tags", '=', joined);
    SplitJoin(ts, ',');
    JoinAvoids(ts, [','], ':');
    KeysAvoidColon();
  }

  lemma RenderedDirectiveParses(d: Directive, m: Modeline)
    requires Writable(d)
    ensures ':' !in RenderDirective(d)
    ensures ApplyDirective(RenderDirective(d), m) == Success(Applied(d, m))
  {
    match d
    case SetThumbnail(n) => ThumbnailDirectiveParses(n, m);
    case AddTags(ts) => TagsDirectiveParses(ts, m);
  }

  lemma ApplyDirectivesStep(items: seq<string>, m: Modeline)
    requires |items| > 0 && ApplyDirective(items[0], m).Success?
    ensures ApplyDirectives(items, m) == ApplyDirectives(items[1..], ApplyDirective(items[0], m).value)
  {
  }

  /** Applying the first directive, then the rest, gives what all of them describe. */
  lemma AppliedThenRest(ds: seq<Directive>, m: Modeline)
    requires |ds| > 0
    ensures Applied(ds[0], m).tags + DirectiveTags(ds[1..]) == m.tags + DirectiveTags(ds)
    ensures (if DirectiveThumbnail(ds[1..]).Some? then DirectiveThumbnail(ds[1..]) else Applied(ds[0], m).thumbnail)
         == (if DirectiveThumbnail(ds).Some? then DirectiveThumbnail(ds) else m.thumbnail)
  {
    var later := DirectiveThumbnail(ds[1..]);
    match ds[0]
    case SetThumbnail(n) =>
      assert DirectiveTags(ds) == DirectiveTags(ds[1..]);
      assert DirectiveThumbnail(ds) == if later.Some? then later else Some(n);
    case AddTags(ts) =>
      assert DirectiveTags(ds) == ts + DirectiveTags(ds[1..]);
      assert m.tags + ts + DirectiveTags(ds[1..]) == m.tags + (ts + DirectiveTags(ds[1..]));
      assert DirectiveThumbnail(ds) == later;
  }

  lemma {:induction false} RenderedDirectivesParse(ds: seq<Directive>, m: Modeline)
    requires forall i :: 0 <= i < |ds| ==> Writable(ds[i])
    ensures ApplyDirectives(RenderDirectives(ds), m)
         == Success(Modeline(if DirectiveThumbnail(ds).Some? then DirectiveThumbnail(ds) else m.thumbnail,
                             m.tags + DirectiveTags(ds)))
    decreases |ds|
  {
    if |ds| > 0 {
      var items := RenderDirectives(ds);
      RenderedDirectiveParses(ds[0], m);
      assert items[1..] == RenderDirectives(ds[1..]);
      RenderedDirectivesParse(ds[1..], Applied(ds[0], m));
      ApplyDirectivesStep(items, m);
      AppliedThenRest(ds, m);
    }
  }

  /**
   * A modeline written from directives parses back to them: the tags follow
   * `official` in the order written, and the last thumbnail index counts.
   */
  lemma ModelineRoundTrip(ds: seq<Directive>, before: seq<string>)
    requires |ds| >= 1
    requires forall i :: 0 <= i < |ds| ==> Writable(ds[i])
    ensures ParseModeline(before + [RenderModeline(ds)])
         == Success(Modeline(DirectiveThumbnail(ds), [OfficialTag] + DirectiveTags(ds)))
  {
    RenderedModelineItems(ds, before);
    RenderedDirectivesParse(ds, DefaultModeline);
  }

  /** A rendered modeline as the last line hands exactly the rendered directives to the item loop. */
  lemma RenderedModelineItems(ds: seq<Directive>, before: seq<string>)
    requires |ds| >= 1
    requires forall i :: 0 <= i < |ds| ==> Writable(ds[i])
    ensures ParseModeline(before + [RenderModeline(ds)]) == ApplyDirectives(RenderDirectives(ds), DefaultModeline)
  {
    RenderedItemsAvoidColon(ds);
    ModelineOfItems(RenderDirectives(ds), before);
  }

  lemma RenderedItemsAvoidColon(ds: seq<Directive>)
    requires forall i :: 0 <= i < |ds| ==> Writable(ds[i])
    ensures forall i :: 0 <= i < |RenderDirectives(ds)| ==> ':' !in RenderDirectives(ds)[i]
  {
    forall i | 0 <= i < |ds| ensures ':' !in RenderDirectives(ds)[i] {
      RenderedDirectiveParses(ds[i], DefaultModeline);
    }
  }

  /** A modeline line built from items free of `:` passes exactly those items to the item loop. */
  lemma ModelineOfItems(items: seq<string>, before: seq<string>)
    requires |items| >= 1
    requires forall i :: 0 <= i < |items| ==> ':' !in items[i]
    ensures ParseModeline(before + [ModelinePrefix + Join(items, [':'])]) == ApplyDirectives(items, DefaultModeline)
  {
    var joined := Join(items, [':']);
    var line := ModelinePrefix + joined;
    StripPrefixOfConcat(ModelinePrefix, joined);
    SplitJoin(items, ':');
    var rest := before + [line];
    assert rest[|rest| - 1] == line;
  }

  // ---- from_py ----

  /**
   * `ExampleMetadata::from_py` from the script's lines on: the name line, the
   * empty comment line, the description and the modeline; the record gets the
   * fixed authors and repository of the official examples.
   */
  function FromPy(lines: seq<string>, commit: string, script: string): (r: Result<ExampleMetadata, ParseError>)
    ensures |lines| == 0 ==> r == Failure(PrematureEndOfFile)
    ensures |lines| > 0 && !StartsWith(lines[0], "# ") ==> r == Failure(ExpectedComment)
    ensures |lines| > 0 && StartsWith(lines[0], "# ") && (|lines| == 1 || lines[1] != "#") ==>
      r == Failure(SecondLineNotEmptyComment)
    ensures r.Success? ==>
      && |lines| >= 2 && "# " + r.value.name == lines[0] && lines[1] == "#"
      && r.value.authors == OfficialAuthors && r.value.repository == OfficialRepository
      && r.value.commit == commit && r.value.script == script
      && r.value.images.None? && r.value.imageIndex.None?
      && |r.value.tags| >= 1 && r.value.tags[0] == OfficialTag
  {
    if |lines| == 0 then Failure(PrematureEndOfFile)
    else match StripPrefix(lines[0], "# ")
      case None => Failure(ExpectedComment)
      case Some(name) =>
        if |lines| == 1 || lines[1] != "#" then Failure(SecondLineNotEmptyComment)
        else match ParseDescription(lines[2..])
          case Failure(e) => Failure(e)
          case Success(d) =>
            match ParseModeline(d.rest)
            case Failure(e) => Failure(e)
            case Success(m) =>
              Success(ExampleMetadata(name, OfficialAuthors, d.text, OfficialRepository, commit, script,
                                      m.tags, None, None, m.thumbnail))
  }

  /** `from_py` puts the record together from the name line and what the description and modeline parsers return. */
  lemma FromPyAssembles(lines: seq<string>, commit: string, script: string,
                        name: string, d: Description, m: Modeline)
    requires |lines| >= 2 && lines[0] == "# " + name && lines[1] == "#"
    requires ParseDescription(lines[2..]) == Success(d)
    requires ParseModeline(d.rest) == Success(m)
    ensures FromPy(lines, commit, script)
         == Success(ExampleMetadata(name, OfficialAuthors, d.text, OfficialRepository, commit, script,
                                    m.tags, None, None, m.thumbnail))
  {
    StripPrefixOfConcat("# ", name);
  }

  /**
   * After a valid header, `from_py` succeeds exactly when every line of the
   * comment run is `#` or `# text` and, when the lines left after the run and
   * its stop line end in a `# example:` line, every item of that line is
   * valid.
   */
  lemma FromPyAccepts(lines: seq<string>, commit: string, script: string)
    requires |lines| >= 2 && StartsWith(lines[0], "# ") && lines[1] == "#"
    ensures FromPy(lines, commit, script).Success?
        <==> && (forall j :: 0 <= j < CommentRun(lines[2..]) ==> WellFormedComment(lines[2..][j]))
             && (3 + CommentRun(lines[2..]) < |lines| && StartsWith(lines[|lines| - 1], ModelinePrefix)
                 ==> AllValid(ModelineItems(lines[|lines| - 1])))
  {
    FromPyStages(lines, commit, script);
    var d := ParseDescription(lines[2..]);
    if d.Success? {
      var present := 3 + CommentRun(lines[2..]) < |lines|;
      var last := lines[|lines| - 1];
      RestAfterRun(lines);
      ModelineAccepts(d.value.rest, present, last);
      assert FromPy(lines, commit, script).Success?
        <==> (present && StartsWith(last, ModelinePrefix) ==> AllValid(ModelineItems(last)));
    } else {
      assert !FromPy(lines, commit, script).Success?;
    }
  }

  /** The modeline parser accepts exactly when the last line, if there is one and it has the prefix, has only valid items. */
  lemma ModelineAccepts(rest: seq<string>, present: bool, last: string)
    requires |rest| > 0 <==> present
    requires present ==> rest[|rest| - 1] == last
    ensures ParseModeline(rest).Success?
        <==> (present && StartsWith(last, ModelinePrefix) ==> AllValid(ModelineItems(last)))
  {
  }

  /** The errors `from_py` reports past the header: a bad comment line, else a bad modeline item. */
  lemma FromPyErrors(lines: seq<string>, commit: string, script: string)
    requires |lines| >= 2 && StartsWith(lines[0], "# ") && lines[1] == "#"
    ensures (exists j :: 0 <= j < CommentRun(lines[2..]) && !WellFormedComment(lines[2..][j]))
        ==> FromPy(lines, commit, script) == Failure(ExpectedSpaceOrNewline)
    ensures FromPy(lines, commit, script).Failure? ==>
      || FromPy(lines, commit, script).error == ExpectedSpaceOrNewline
      || FromPy(lines, commit, script).error.InvalidNumber?
      || FromPy(lines, commit, script).error.InvalidModeline?
  {
    FromPyStages(lines, commit, script);
  }

  /** Past the header, `from_py` fails exactly where the description or the modeline parser fails. */
  lemma FromPyStages(lines: seq<string>, commit: string, script: string)
    requires |lines| >= 2 && StartsWith(lines[0], "# ") && lines[1] == "#"
    ensures ParseDescription(lines[2..]).Failure? ==> FromPy(lines, commit, script) == Failure(ParseDescription(lines[2..]).error)
    ensures ParseDescription(lines[2..]).Success? ==>
      && (FromPy(lines, commit, script).Success? <==> ParseModeline(ParseDescription(lines[2..]).value.rest).Success?)
      && (FromPy(lines, commit, script).Failure? ==>
            FromPy(lines, commit, script).error == ParseModeline(ParseDescription(lines[2..]).value.rest).error)
  {
  }

  /** The lines the modeline parser sees are non-empty exactly when one remains after the stop line, and end with the script's last line. */
  lemma RestAfterRun(lines: seq<string>)
    requires |lines| >= 2 && ParseDescription(lines[2..]).Success?
    ensures |ParseDescription(lines[2..]).value.rest| > 0 <==> 3 + CommentRun(lines[2..]) < |lines|
    ensures |ParseDescription(lines[2..]).value.rest| > 0 ==>
      ParseDescription(lines[2..]).value.rest[|ParseDescription(lines[2..]).value.rest| - 1] == lines[|lines| - 1]
  {
    var tail := lines[2..];
    var k := CommentRun(tail);
    var rest := ParseDescription(tail).value.rest;
    if k < |tail| {
      assert rest == tail[k + 1..];
      if |rest| > 0 {
        assert rest[|rest| - 1] == lines[|lines| - 1];
      }
    }
  }

  lemma ScriptLayout<T>(header: seq<T>, block: seq<T>, code: seq<T>, last: T)
    requires |header| == 2 && |code| >= 1
    ensures (header + block + code + [last])[2..] == block + [code[0]] + (code[1..] + [last])
  {
    assert (header + block + code + [last])[2..] == block + code + [last];
    assert code == [code[0]] + code[1..];
  }

  /**
   * A well-formed script parses to the record it was written from: the name
   * line, the empty comment, a description, at least one line of code (the
   * first not a comment), and a modeline as the last line.
   */
  lemma ScriptRoundTrip(name: string, ts: seq<string>, code: seq<string>, ds: seq<Directive>,
                        commit: string, script: string)
    requires |code| >= 1 && !IsComment(code[0])
    requires |ds| >= 1 && forall i :: 0 <= i < |ds| ==> Writable(ds[i])
    ensures FromPy(["# " + name, "#"] + CommentBlock(ts) + code + [RenderModeline(ds)], commit, script)
         == Success(ExampleMetadata(name, OfficialAuthors, Unlines(ts), OfficialRepository, commit, script,
                                    [OfficialTag] + DirectiveTags(ds), None, None, DirectiveThumbnail(ds)))
  {
    var lines := ["# " + name, "#"] + CommentBlock(ts) + code + [RenderModeline(ds)];
    StripPrefixOfConcat("# ", name);
    var rest := code[1..] + [RenderModeline(ds)];
    ScriptLayout(["# " + name, "#"], CommentBlock(ts), code, RenderModeline(ds));
    DescriptionRoundTrip(ts, code[0], rest);
    ModelineRoundTrip(ds, code[1..]);
    FromPyAssembles(lines, commit, script, name, Description(Unlines(ts), rest),
                    Modeline(DirectiveThumbnail(ds), [OfficialTag] + DirectiveTags(ds)));
  }

  lemma {:induction false} DescriptionToEnd(ts: seq<string>)
    ensures ParseDescription(CommentBlock(ts)) == Success(Description(Unlines(ts), []))
    decreases |ts|
  {
    if |ts| > 0 {
      CommentLineText(ts[0]);
      DescriptionToEnd(ts[1..]);
      assert CommentBlock(ts) == [CommentLine(ts[0])] + CommentBlock(ts[1..]);
      DescriptionStep(CommentLine(ts[0]), ts[0], CommentBlock(ts[1..]), Description(Unlines(ts[1..]), []));
    }
  }

  lemma {:induction false} CommentBlockSnoc(ts: seq<string>, t: string)
    ensures CommentBlock(ts + [t]) == CommentBlock(ts) + [CommentLine(t)]
    decreases |ts|
  {
    if |ts| > 0 {
      assert (ts + [t])[1..] == ts[1..] + [t];
      CommentBlockSnoc(ts[1..], t);
    }
  }

  /**
   * A modeline that directly follows the description, with no code line in
   * between, is not a modeline: the comment run swallows it into the
   * description, and the example keeps the default tags and no thumbnail.
   */
  lemma ModelineSwallowedByDescription(name: string, ts: seq<string>, ds: seq<Directive>,
                                       commit: string, script: string)
    ensures var modeline := RenderModeline(ds);
      FromPy(["# " + name, "#"] + CommentBlock(ts) + [modeline], commit, script)
        == Success(ExampleMetadata(name, OfficialAuthors, Unlines(ts + [modeline[2..]]), OfficialRepository,
                                   commit, script, [OfficialTag], None, None, None))
  {
    var modeline := RenderModeline(ds);
    var text := modeline[2..];
    assert modeline[..2] == "# ";
    assert modeline == "# " + text;
    assert CommentLine(text) == modeline;
    CommentBlockSnoc(ts, text);
    var body := CommentBlock(ts + [text]);
    var lines := ["# " + name, "#"] + body;
    assert lines == ["# " + name, "#"] + CommentBlock(ts) + [modeline];
    assert lines[2..] == body;
    DescriptionToEnd(ts + [text]);
    FromPyAssembles(lines, commit, script, name, Description(Unlines(ts + [text]), []), DefaultModeline);
  }

  // ---- get_script_url ----

  const GitHub: string := "https://github.com/"
  const GitLab: string := "https://gitlab.com/"

  datatype UrlError = NotAGitRepository(repository: string) | UnknownHost(repository: string)

  /** The repository URL without its `.git` suffix. */
  function RepositoryBase(repository: string): string
    requires EndsWith(repository, ".git")
  {
    repository[..|repository| - 4]
  }

  /**
   * `get_script_url`: the blob permalink of `script` at `commit`, in the
   * GitHub or the GitLab shape.
   */
  function ScriptUrl(repository: string, commit: string, script: string): (r: Result<string, UrlError>)
    ensures r.Success? <==>
      EndsWith(repository, ".git")
      && (StartsWith(RepositoryBase(repository), GitHub) || StartsWith(RepositoryBase(repository), GitLab))
    ensures !EndsWith(repository, ".git") ==> r == Failure(NotAGitRepository(repository))
    ensures EndsWith(repository, ".git") && r.Failure? ==> r == Failure(UnknownHost(repository))
    ensures r.Success? && StartsWith(RepositoryBase(repository), GitHub) ==>
      r.value == RepositoryBase(repository) + "/blob/" + commit + "/" + script
    ensures r.Success? && StartsWith(RepositoryBase(repository), GitLab) ==>
      r.value == RepositoryBase(repository) + "/-/blob/" + commit + "/" + script
  {
    match StripSuffix(repository, ".git")
    case None => Failure(NotAGitRepository(repository))
    case Some(prefix) =>
      if StartsWith(prefix, GitHub) then
        assert !StartsWith(prefix, GitLab) by { assert prefix[11] == GitHub[11] != GitLab[11]; }
        Success(prefix + "/blob/" + commit + "/" + script)
      else if StartsWith(prefix, GitLab) then Success(prefix + "/-/blob/" + commit + "/" + script)
      else Failure(UnknownHost(repository))
  }

  /** The official repository's permalinks are GitHub blob links. */
  lemma OfficialRepositoryUrl(commit: string, script: string)
    ensures ScriptUrl(OfficialRepository, commit, script)
         == Success("https://github.com/evalf/nutils/blob/" + commit + "/" + script)
  {
    assert EndsWith(OfficialRepository, ".git");
    assert RepositoryBase(OfficialRepository) == "https://github.com/evalf/nutils";
    assert StartsWith(RepositoryBase(OfficialRepository), GitHub);
    assert "https://github.com/evalf/nutils" + "/blob/" == "https://github.com/evalf/nutils/blob/";
  }

  /** Every official example links to its script on GitHub at the commit it was parsed at. */
  lemma OfficialScriptUrl(lines: seq<string>, commit: string, script: string)
    requires FromPy(lines, commit, script).Success?
    ensures var m := FromPy(lines, commit, script).value;
      ScriptUrl(m.repository, m.commit, m.script)
        == Success("https://github.com/evalf/nutils/blob/" + commit + "/" + script)
  {
    OfficialRepositoryUrl(commit, script);
  }
}
