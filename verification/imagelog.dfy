/**
 * `ImageIterator` (src/main.rs:199-244): reads the execution log line by line
 * and yields one `(name, filename)` pair per line that the image-announcement
 * pattern matches. The regular expression itself is not modelled: it is the
 * `matcher` parameter, which yields the three capture groups of a matching
 * line (1: the `href` filename, 2: the `download` attribute, 3: the link text).
 */
module ImageLog {
  import opened Wrappers

  /** One generated image the log announces: the figure's logical name and its file. */
  datatype ImageEvent = ImageEvent(name: string, filename: string)

  /** Capture groups 1, 2 and 3 of the pattern at src/main.rs:210. */
  datatype Captures = Captures(href: string, download: string, text: string)

  /** The pair a matching line yields: group 2 is the name, group 1 the filename. */
  function EventOf(c: Captures): (e: ImageEvent)
    ensures e.name == c.download && e.filename == c.href
  {
    ImageEvent(c.download, c.href)
  }

  /** All events of the log, in log order: the iterator seen as a filter-map over lines. */
  function Scan(lines: seq<string>, matcher: string -> Option<Captures>): (events: seq<ImageEvent>)
    ensures |events| <= |lines|
  {
    if |lines| == 0 then []
    else
      (match matcher(lines[0]) case None => [] case Some(c) => [EventOf(c)])
      + Scan(lines[1..], matcher)
  }

  /** Every event comes from a line the pattern matched: its name is group 2 and its filename group 1. */
  lemma {:induction false} ScanSound(lines: seq<string>, matcher: string -> Option<Captures>, k: nat)
    requires k < |Scan(lines, matcher)|
    ensures exists j ::
      && 0 <= j < |lines| && matcher(lines[j]).Some?
      && Scan(lines, matcher)[k] == ImageEvent(matcher(lines[j]).value.download, matcher(lines[j]).value.href)
    decreases |lines|
  {
    var head := match matcher(lines[0]) case None => [] case Some(c) => [EventOf(c)];
    var tail := Scan(lines[1..], matcher);
    assert Scan(lines, matcher) == head + tail;
    if k >= |head| {
      ScanSound(lines[1..], matcher, k - |head|);
      var j :| 0 <= j < |lines[1..]| && matcher(lines[1..][j]).Some?
        && tail[k - |head|] == ImageEvent(matcher(lines[1..][j]).value.download, matcher(lines[1..][j]).value.href);
      assert lines[1..][j] == lines[j + 1];
    }
  }

  /** Scanning is line by line: a log split anywhere scans to the two parts' events, in order. */
  lemma {:induction false} ScanAppend(a: seq<string>, b: seq<string>, matcher: string -> Option<Captures>)
    ensures Scan(a + b, matcher) == Scan(a, matcher) + Scan(b, matcher)
    decreases |a|
  {
    if |a| > 0 {
      assert (a + b)[0] == a[0] && (a + b)[1..] == a[1..] + b;
      ScanAppend(a[1..], b, matcher);
      var head := match matcher(a[0]) case None => [] case Some(c) => [EventOf(c)];
      assert Scan(a + b, matcher) == head + Scan(a[1..] + b, matcher);
      assert head + (Scan(a[1..], matcher) + Scan(b, matcher)) == (head + Scan(a[1..], matcher)) + Scan(b, matcher);
    } else {
      assert a + b == b;
    }
  }

  /** A line the pattern does not match yields nothing; a matching one yields exactly its (download, href) pair. */
  lemma ScanLine(line: string, matcher: string -> Option<Captures>)
    ensures matcher(line).None? ==> Scan([line], matcher) == []
    ensures matcher(line).Some? ==>
      Scan([line], matcher) == [ImageEvent(matcher(line).value.download, matcher(line).value.href)]
  {
    assert [line][1..] == [];
  }

  /** Unmatched lines can be dropped from anywhere in the log without changing the events. */
  lemma SkipUnmatched(a: seq<string>, line: string, b: seq<string>, matcher: string -> Option<Captures>)
    requires matcher(line).None?
    ensures Scan(a + [line] + b, matcher) == Scan(a + b, matcher)
  {
    ScanAppend(a + [line], b, matcher);
    ScanAppend(a, [line], matcher);
    ScanAppend(a, b, matcher);
    ScanLine(line, matcher);
  }

  /**
   * `ImageIterator::next`: from line `pos` on, read lines until one matches
   * (yield its pair and continue after it) or the log ends (yield nothing).
   */
  method Next(lines: seq<string>, pos: nat, matcher: string -> Option<Captures>)
    returns (item: Option<ImageEvent>, next: nat)
    requires pos <= |lines|
    ensures pos <= next <= |lines|
    ensures item.None? ==> next == |lines| && Scan(lines[pos..], matcher) == []
    ensures item.Some? ==> pos < next && Scan(lines[pos..], matcher) == [item.value] + Scan(lines[next..], matcher)
  {
    next := pos;
    while next < |lines|
      invariant pos <= next <= |lines|
      invariant Scan(lines[pos..], matcher) == Scan(lines[next..], matcher)
      decreases |lines| - next
    {
      var line := lines[next];
      assert lines[next..] == [line] + lines[next + 1..];
      ScanAppend([line], lines[next + 1..], matcher);
      ScanLine(line, matcher);
      next := next + 1;
      match matcher(line)
      case Some(c) =>
        item := Some(ImageEvent(c.download, c.href));
        return;
      case None =>
    }
    item := None;
  }

  /** Draining the iterator: repeated `next` calls yield exactly the scanned events. */
  method Events(lines: seq<string>, matcher: string -> Option<Captures>) returns (events: seq<ImageEvent>)
    ensures events == Scan(lines, matcher)
  {
    events := [];
    var pos: nat := 0;
    while pos < |lines|
      invariant pos <= |lines|
      invariant events + Scan(lines[pos..], matcher) == Scan(lines, matcher)
      decreases |lines| - pos
    {
      var item, next := Next(lines, pos, matcher);
      if item.Some? {
        events := events + [item.value];
      }
      pos := next;
    }
  }
}
