/**
 * Image selection (src/main.rs:176-196, 269-275): the events of the log are
 * grouped into one sequence of filenames per logical name, and each sequence
 * is reduced to one image with the "nth, else last" rule (`nth_or_last`).
 *
 * With a fixed name list (`images` set) only the listed names are tracked, in
 * list order; without one, every name is tracked in the order it first
 * appears in the log.
 */
module ImageSelection {
  import opened Wrappers
  import opened ImageLog
  import Text

  // ---- nth_or_last ----

  /** `Iterator::nth`: skip `n` items, then take the next one. */
  function Nth<T>(items: seq<T>, n: nat): (r: Option<T>)
    ensures r.Some? <==> n < |items|
    ensures r.Some? ==> r.value == items[n]
  {
    if |items| == 0 then None
    else if n == 0 then Some(items[0])
    else Nth(items[1..], n - 1)
  }

  /** `Iterator::last`: a fold that keeps the latest item seen. */
  function Last<T>(latest: Option<T>, items: seq<T>): (r: Option<T>)
    ensures |items| > 0 ==> r == Some(items[|items| - 1])
    ensures |items| == 0 ==> r == latest
    decreases |items|
  {
    if |items| == 0 then latest else Last(Some(items[0]), items[1..])
  }

  /** `nth_or_last`: the item at index `n` if one is given, the last item otherwise; nothing when out of range. */
  function NthOrLast<T>(items: seq<T>, n: Option<nat>): (r: Option<T>)
    ensures n.Some? ==> (r.Some? <==> n.value < |items|) && (r.Some? ==> r.value == items[n.value])
    ensures n.None? ==> (r.Some? <==> |items| > 0) && (r.Some? ==> r.value == items[|items| - 1])
  {
    match n
    case Some(k) => Nth(items, k)
    case None => Last(None, items)
  }

  /** The default picks what an explicit index of the final position picks: the latest render. */
  lemma LastIsFinalIndex<T>(items: seq<T>, later: T)
    ensures |items| > 0 ==> NthOrLast(items, None) == NthOrLast(items, Some(|items| - 1))
    ensures NthOrLast(items + [later], None) == Some(later)
  {
  }

  /** An explicit index ignores everything after it, so later renders do not change the choice. */
  lemma NthIgnoresLater<T>(items: seq<T>, more: seq<T>, n: nat)
    requires n < |items|
    ensures NthOrLast(items + more, Some(n)) == NthOrLast(items, Some(n))
  {
  }

  // ---- the per-name sequences, as `get_images` builds them ----

  /** A logical name and the filenames recorded for it, in log order. */
  type Slot = (string, seq<string>)

  /** `image_sequences.iter_mut().find(|item| item.0 == name)`: the first slot for `name`. */
  function FindSlot(slots: seq<Slot>, name: string): (r: Option<nat>)
    ensures r.Some? ==> r.value < |slots| && slots[r.value].0 == name
    ensures r.Some? ==> forall k :: 0 <= k < r.value ==> slots[k].0 != name
    ensures r.None? ==> forall k :: 0 <= k < |slots| ==> slots[k].0 != name
  {
    if |slots| == 0 then None
    else if slots[0].0 == name then Some(0)
    else match FindSlot(slots[1..], name)
      case None => None
      case Some(k) => Some(k + 1)
  }

  /**
   * One pass of the loop over the log's events: the filename joins the first
   * slot of its name; an unknown name opens a new slot only in discovery mode.
   */
  function Record(slots: seq<Slot>, e: ImageEvent, discover: bool): (r: seq<Slot>)
    ensures |r| == (if discover && FindSlot(slots, e.name).None? then |slots| + 1 else |slots|)
    ensures forall k :: 0 <= k < |slots| && FindSlot(slots, e.name) != Some(k) ==> r[k] == slots[k]
    ensures FindSlot(slots, e.name).Some? ==>
      var k := FindSlot(slots, e.name).value;
      r[k] == (e.name, slots[k].1 + [e.filename])
    ensures |r| > |slots| ==> r[|slots|] == (e.name, [e.filename])
  {
    match FindSlot(slots, e.name)
    case Some(k) => slots[k := (slots[k].0, slots[k].1 + [e.filename])]
    case None => if discover then slots + [(e.name, [e.filename])] else slots
  }

  /** The slots before any event: one empty slot per listed name, none in discovery mode. */
  function InitialSlots(images: Option<seq<string>>): (slots: seq<Slot>)
    ensures images.None? ==> slots == []
    ensures images.Some? ==> |slots| == |images.value|
    ensures images.Some? ==> forall k :: 0 <= k < |slots| ==> slots[k] == (images.value[k], [])
  {
    match images
    case None => []
    case Some(names) => seq(|names|, k requires 0 <= k < |names| => (names[k], []))
  }

  /** The image a slot with these filenames contributes, as a sequence of at most one. */
  function Pick(files: seq<string>, index: Option<nat>): (picked: seq<string>)
    ensures |picked| <= 1
    ensures |picked| == 1 ==> picked[0] in files
  {
    match NthOrLast(files, index) case Some(f) => [f] case None => []
  }

  /** `filter_map(nth_or_last)` over the slots: at most one image per slot, in slot order. */
  function Selected(slots: seq<Slot>, index: Option<nat>): (images: seq<string>)
    ensures |images| <= |slots|
  {
    if |slots| == 0 then []
    else
      Pick(slots[0].1, index) + Selected(slots[1..], index)
  }

  lemma {:induction false} SelectedAppend(a: seq<Slot>, b: seq<Slot>, index: Option<nat>)
    ensures Selected(a + b, index) == Selected(a, index) + Selected(b, index)
    decreases |a|
  {
    if |a| == 0 {
      assert a + b == b;
    } else {
      assert (a + b)[0] == a[0] && (a + b)[1..] == a[1..] + b;
      SelectedAppend(a[1..], b, index);
      var head := match NthOrLast(a[0].1, index) case Some(f) => [f] case None => [];
      assert Selected(a + b, index) == head + Selected(a[1..] + b, index);
      Text.AppendAssoc(head, Selected(a[1..], index), Selected(b, index));
    }
  }

  // ---- an independent description of the grouping ----

  /** Every filename the log gives for `name`, in log order. */
  function FilesFor(events: seq<ImageEvent>, name: string): seq<string>
  {
    if |events| == 0 then []
    else
      var e := events[|events| - 1];
      FilesFor(events[..|events| - 1], name) + (if e.name == name then [e.filename] else [])
  }

  /** The names of the log's events, each once, in the order they first appear. */
  function FirstSeen(events: seq<ImageEvent>): seq<string>
  {
    if |events| == 0 then []
    else
      var earlier := FirstSeen(events[..|events| - 1]);
      var name := events[|events| - 1].name;
      if name in earlier then earlier else earlier + [name]
  }

  /** The name the log introduced last. */
  function LastSeen(events: seq<ImageEvent>): string
    requires |FirstSeen(events)| > 0
  {
    FirstSeen(events)[|FirstSeen(events)| - 1]
  }

  /** Position of the first occurrence of `n` in `names`. */
  function FirstIndex(names: seq<string>, n: string): (i: nat)
    requires n in names
    ensures i < |names| && names[i] == n
    ensures forall j :: 0 <= j < i ==> names[j] != n
  {
    if names[0] == n then 0 else FirstIndex(names[1..], n) + 1
  }

  /**
   * The slots for a fixed name list: the first slot of each listed name holds
   * all of that name's filenames; a repeated name's later slots stay empty.
   */
  function ListedSlots(names: seq<string>, events: seq<ImageEvent>): seq<Slot>
  {
    seq(|names|, k requires 0 <= k < |names| =>
      (names[k], if FirstIndex(names, names[k]) == k then FilesFor(events, names[k]) else []))
  }

  /** The slots in discovery mode: one per name, in first-seen order. */
  function DiscoveredSlots(events: seq<ImageEvent>): seq<Slot>
  {
    var keys := FirstSeen(events);
    seq(|keys|, k requires 0 <= k < |keys| => (keys[k], FilesFor(events, keys[k])))
  }

  function ExpectedSlots(images: Option<seq<string>>, events: seq<ImageEvent>): seq<Slot>
  {
    match images
    case Some(names) => ListedSlots(names, events)
    case None => DiscoveredSlots(events)
  }

  /** The image list `get_images` returns for a log with these events. */
  function SelectImages(images: Option<seq<string>>, index: Option<nat>, events: seq<ImageEvent>): seq<string>
  {
    Selected(ExpectedSlots(images, events), index)
  }

  // ---- facts about the reference ----

  predicate Distinct(s: seq<string>) {
    forall i, j :: 0 <= i < j < |s| ==> s[i] != s[j]
  }

  lemma FilesForSnoc(events: seq<ImageEvent>, e: ImageEvent, name: string)
    ensures FilesFor(events + [e], name) == FilesFor(events, name) + (if e.name == name then [e.filename] else [])
  {
    assert (events + [e])[..|events|] == events;
  }

  /** The filenames of a name in a log split in two are those of the first part, then those of the second. */
  lemma {:induction false} FilesForAppend(a: seq<ImageEvent>, b: seq<ImageEvent>, name: string)
    ensures FilesFor(a + b, name) == FilesFor(a, name) + FilesFor(b, name)
    decreases |b|
  {
    if |b| == 0 {
      assert a + b == a;
    } else {
      var b' := b[..|b| - 1];
      var e := b[|b| - 1];
      assert a + b == (a + b') + [e];
      assert b == b' + [e];
      FilesForSnoc(a + b', e, name);
      FilesForSnoc(b', e, name);
      FilesForAppend(a, b', name);
    }
  }

  /** A filename belongs to a name's sequence exactly when some event announces it under that name. */
  lemma {:induction false} FilesForMembers(events: seq<ImageEvent>, name: string, f: string)
    ensures f in FilesFor(events, name) <==> exists j :: 0 <= j < |events| && events[j] == ImageEvent(name, f)
    decreases |events|
  {
    if |events| > 0 {
      var prefix := events[..|events| - 1];
      FilesForMembers(prefix, name, f);
      assert forall j :: 0 <= j < |prefix| ==> prefix[j] == events[j];
    }
  }

  /** The first-seen names are exactly the names of the events. */
  lemma {:induction false} FirstSeenMembers(events: seq<ImageEvent>, name: string)
    ensures name in FirstSeen(events) <==> exists j :: 0 <= j < |events| && events[j].name == name
    decreases |events|
  {
    if |events| > 0 {
      var prefix := events[..|events| - 1];
      FirstSeenMembers(prefix, name);
      assert forall j :: 0 <= j < |prefix| ==> prefix[j] == events[j];
    }
  }

  lemma {:induction false} FirstSeenDistinct(events: seq<ImageEvent>)
    ensures Distinct(FirstSeen(events))
    decreases |events|
  {
    if |events| > 0 {
      FirstSeenDistinct(events[..|events| - 1]);
    }
  }

  /** A name no event carries has no filenames. */
  lemma NoEventsNoFiles(events: seq<ImageEvent>, name: string)
    requires name !in FirstSeen(events)
    ensures FilesFor(events, name) == []
  {
    FirstSeenMembers(events, name);
    if FilesFor(events, name) != [] {
      var f := FilesFor(events, name)[0];
      FilesForMembers(events, name, f);
    }
  }

  /** Every first-seen name has at least one filename. */
  lemma SeenHasFiles(events: seq<ImageEvent>, name: string)
    requires name in FirstSeen(events)
    ensures |FilesFor(events, name)| > 0
  {
    FirstSeenMembers(events, name);
    var j :| 0 <= j < |events| && events[j].name == name;
    FilesForMembers(events, name, events[j].filename);
  }

  /**
   * First-seen order: of two discovered names, the earlier one occurs in the
   * log before any occurrence of the later one.
   */
  lemma {:induction false} FirstSeenOrder(events: seq<ImageEvent>, a: nat, b: nat)
    requires a < b < |FirstSeen(events)|
    ensures exists j ::
      && 0 <= j < |events| && events[j].name == FirstSeen(events)[a]
      && (forall i :: 0 <= i <= j ==> events[i].name != FirstSeen(events)[b])
    decreases |events|
  {
    var prefix := events[..|events| - 1];
    var keys := FirstSeen(events);
    var earlier := FirstSeen(prefix);
    assert forall i :: 0 <= i < |prefix| ==> prefix[i] == events[i];
    if b < |earlier| {
      assert keys[a] == earlier[a] && keys[b] == earlier[b];
      FirstSeenOrder(prefix, a, b);
      var j :| 0 <= j < |prefix| && prefix[j].name == earlier[a]
        && forall i :: 0 <= i <= j ==> prefix[i].name != earlier[b];
      assert events[j].name == keys[a];
    } else {
      // the later name is new in the last event: it occurs nowhere before it
      assert keys == earlier + [events[|events| - 1].name];
      assert keys[b] !in earlier;
      FirstSeenMembers(prefix, keys[b]);
      FirstSeenMembers(prefix, keys[a]);
      var j :| 0 <= j < |prefix| && prefix[j].name == keys[a];
      assert events[j].name == keys[a];
    }
  }

  /** A sequence without repetitions has as many distinct elements as it has elements. */
  lemma {:induction false} DistinctCard(s: seq<string>)
    requires Distinct(s)
    ensures |set i | 0 <= i < |s| :: s[i]| == |s|
    decreases |s|
  {
    if |s| > 0 {
      var prefix := s[..|s| - 1];
      DistinctCard(prefix);
      var all := set i | 0 <= i < |s| :: s[i];
      var before := set i | 0 <= i < |prefix| :: prefix[i];
      assert all == before + {s[|s| - 1]};
      assert s[|s| - 1] !in before;
    }
  }

  // ---- the loop of `get_images` against the reference ----

  lemma ListedStep(names: seq<string>, events: seq<ImageEvent>, e: ImageEvent)
    ensures ListedSlots(names, events + [e]) == Record(ListedSlots(names, events), e, false)
  {
    if e.name in names {
      ListedStepListed(names, events, e);
    } else {
      ListedStepUnlisted(names, events, e);
    }
  }

  lemma ListedStepListed(names: seq<string>, events: seq<ImageEvent>, e: ImageEvent)
    requires e.name in names
    ensures ListedSlots(names, events + [e]) == Record(ListedSlots(names, events), e, false)
  {
    var before := ListedSlots(names, events);
    var after := ListedSlots(names, events + [e]);
    var i := FirstIndex(names, e.name);
    assert before[i].0 == e.name;
    assert FindSlot(before, e.name) == Some(i);
    var recorded := before[i := (before[i].0, before[i].1 + [e.filename])];
    forall m | 0 <= m < |names| ensures after[m] == recorded[m] {
      var n := names[m];
      FilesForSnoc(events, e, n);
      var first := FirstIndex(names, n) == m;
      assert after[m] == (n, if first then FilesFor(events + [e], n) else []);
      assert before[m] == (n, if first then FilesFor(events, n) else []);
      if m == i {
        assert first;
        assert recorded[m] == (n, FilesFor(events, n) + [e.filename]);
      } else if n == e.name {
        assert !first;
        assert recorded[m] == before[m];
      } else {
        assert FilesFor(events + [e], n) == FilesFor(events, n);
        assert recorded[m] == before[m];
      }
      assert after[m] == recorded[m];
    }
  }

  lemma ListedStepUnlisted(names: seq<string>, events: seq<ImageEvent>, e: ImageEvent)
    requires e.name !in names
    ensures ListedSlots(names, events + [e]) == Record(ListedSlots(names, events), e, false)
  {
    var before := ListedSlots(names, events);
    var after := ListedSlots(names, events + [e]);
    assert FindSlot(before, e.name).None?;
    forall m | 0 <= m < |names| ensures after[m] == before[m] {
      var n := names[m];
      FilesForSnoc(events, e, n);
      var first := FirstIndex(names, n) == m;
      assert FilesFor(events + [e], n) == FilesFor(events, n);
      assert after[m] == (n, if first then FilesFor(events + [e], n) else []);
      assert before[m] == (n, if first then FilesFor(events, n) else []);
      assert after[m] == before[m];
    }
  }

  lemma DiscoveredStep(events: seq<ImageEvent>, e: ImageEvent)
    ensures DiscoveredSlots(events + [e]) == Record(DiscoveredSlots(events), e, true)
  {
    assert (events + [e])[..|events|] == events;
    if e.name in FirstSeen(events) {
      DiscoveredStepSeen(events, e);
    } else {
      DiscoveredStepNew(events, e);
    }
  }

  lemma DiscoveredStepSeen(events: seq<ImageEvent>, e: ImageEvent)
    requires e.name in FirstSeen(events)
    requires FirstSeen(events + [e]) == FirstSeen(events)
    ensures DiscoveredSlots(events + [e]) == Record(DiscoveredSlots(events), e, true)
  {
    var keys := FirstSeen(events);
    var before := DiscoveredSlots(events);
    var after := DiscoveredSlots(events + [e]);
    FirstSeenDistinct(events);
    var i :| 0 <= i < |keys| && keys[i] == e.name;
    assert before[i].0 == e.name;
    var found := FindSlot(before, e.name);
    assert found.Some?;
    var j := found.value;
    assert keys[j] == before[j].0 == e.name;
    assert j == i;
    var recorded := before[i := (before[i].0, before[i].1 + [e.filename])];
    forall m | 0 <= m < |keys| ensures after[m] == recorded[m] {
      var n := keys[m];
      FilesForSnoc(events, e, n);
      assert after[m] == (n, FilesFor(events + [e], n));
      assert before[m] == (n, FilesFor(events, n));
      if m == i {
        assert recorded[m] == (n, FilesFor(events, n) + [e.filename]);
      } else {
        assert n != e.name;
        assert FilesFor(events + [e], n) == FilesFor(events, n);
        assert recorded[m] == before[m];
      }
      assert after[m] == recorded[m];
    }
  }

  lemma DiscoveredStepNew(events: seq<ImageEvent>, e: ImageEvent)
    requires e.name !in FirstSeen(events)
    requires FirstSeen(events + [e]) == FirstSeen(events) + [e.name]
    ensures DiscoveredSlots(events + [e]) == Record(DiscoveredSlots(events), e, true)
  {
    var keys := FirstSeen(events);
    var before := DiscoveredSlots(events);
    var after := DiscoveredSlots(events + [e]);
    NoEventsNoFiles(events, e.name);
    assert FindSlot(before, e.name).None?;
    var recorded := before + [(e.name, [e.filename])];
    forall m | 0 <= m < |keys| + 1 ensures after[m] == recorded[m] {
      var n := (keys + [e.name])[m];
      FilesForSnoc(events, e, n);
      assert after[m] == (n, FilesFor(events + [e], n));
      if m < |keys| {
        assert n == keys[m] != e.name;
        assert FilesFor(events + [e], n) == FilesFor(events, n);
        assert before[m] == (n, FilesFor(events, n));
        assert recorded[m] == before[m];
      } else {
        assert n == e.name;
        assert FilesFor(events + [e], n) == [e.filename];
        assert recorded[m] == (e.name, [e.filename]);
      }
      assert after[m] == recorded[m];
    }
  }

  lemma ExpectedStep(images: Option<seq<string>>, events: seq<ImageEvent>, e: ImageEvent)
    ensures ExpectedSlots(images, events + [e]) == Record(ExpectedSlots(images, events), e, images.None?)
  {
    match images
    case Some(names) => ListedStep(names, events, e);
    case None => DiscoveredStep(events, e);
  }

  datatype ImageError = LogNotFound

  /**
   * `get_images`: open the log (a missing log is an error), read its events
   * with the image iterator, group them into slots and pick one image per slot.
   */
  method GetImages(images: Option<seq<string>>, imageIndex: Option<nat>, log: Option<seq<string>>,
                   matcher: string -> Option<Captures>)
    returns (r: Result<seq<string>, ImageError>)
    ensures log.None? ==> r == Failure(LogNotFound)
    ensures log.Some? ==> r == Success(SelectImages(images, imageIndex, Scan(log.value, matcher)))
  {
    if log.None? {
      return Failure(LogNotFound);
    }
    var lines := log.value;
    var slots := InitialSlots(images);
    ghost var seen: seq<ImageEvent> := [];
    assert ExpectedSlots(images, []) == slots;
    var pos: nat := 0;
    while pos < |lines|
      invariant pos <= |lines|
      invariant seen + Scan(lines[pos..], matcher) == Scan(lines, matcher)
      invariant slots == ExpectedSlots(images, seen)
      decreases |lines| - pos
    {
      var item, next := Next(lines, pos, matcher);
      if item.Some? {
        ExpectedStep(images, seen, item.value);
        Text.AppendAssoc(seen, [item.value], Scan(lines[next..], matcher));
        slots := Record(slots, item.value, images.None?);
        seen := seen + [item.value];
      }
      pos := next;
    }
    assert lines[pos..] == [];
    assert seen + [] == seen;
    r := Success(Selected(slots, imageIndex));
  }

  // ---- properties of the selection ----

  /** The most recent render of a name. */
  function Latest(files: seq<string>): string
    requires |files| > 0
  {
    files[|files| - 1]
  }

  lemma SelectedSingle(slot: Slot, index: Option<nat>)
    ensures Selected([slot], index) == Pick(slot.1, index)
  {
    assert [slot][1..] == [];
  }

  lemma {:induction false} FirstIndexSnoc(names: seq<string>, n: string, x: string)
    requires x in names
    ensures FirstIndex(names + [n], x) == FirstIndex(names, x)
    decreases |names|
  {
    if names[0] != x {
      assert (names + [n])[1..] == names[1..] + [n];
      FirstIndexSnoc(names[1..], n, x);
    }
  }

  lemma ListedSlotsSnoc(names: seq<string>, n: string, events: seq<ImageEvent>)
    ensures ListedSlots(names + [n], events)
         == ListedSlots(names, events) + [(n, if n in names then [] else FilesFor(events, n))]
  {
    var longer := names + [n];
    var lhs := ListedSlots(longer, events);
    var rhs := ListedSlots(names, events) + [(n, if n in names then [] else FilesFor(events, n))];
    forall m | 0 <= m < |longer| ensures lhs[m] == rhs[m] {
      if m < |names| {
        FirstIndexSnoc(names, n, names[m]);
      } else if n in names {
        FirstIndexSnoc(names, n, n);
      }
    }
  }

  /**
   * Output follows the list: listing one more name adds that name's pick at the
   * end, unless the name is already listed (its later slot stays empty).
   */
  lemma ListedOrder(names: seq<string>, n: string, index: Option<nat>, events: seq<ImageEvent>)
    ensures SelectImages(Some(names + [n]), index, events)
         == SelectImages(Some(names), index, events) + (if n in names then [] else Pick(FilesFor(events, n), index))
  {
    ListedSlotsSnoc(names, n, events);
    var slot := (n, if n in names then [] else FilesFor(events, n));
    SelectedAppend(ListedSlots(names, events), [slot], index);
    SelectedSingle(slot, index);
  }

  /**
   * A listed name without events, or with too few for the index, contributes
   * nothing, and listing it changes nothing else.
   */
  lemma ListedWithoutImage(names: seq<string>, n: string, index: Option<nat>, events: seq<ImageEvent>)
    requires FilesFor(events, n) == [] || (index.Some? && index.value >= |FilesFor(events, n)|)
    ensures SelectImages(Some(names + [n]), index, events) == SelectImages(Some(names), index, events)
  {
    ListedOrder(names, n, index, events);
  }

  /** An event for a name outside the list is ignored, wherever it appears in the log. */
  lemma UnlistedIgnored(names: seq<string>, index: Option<nat>, a: seq<ImageEvent>, e: ImageEvent, b: seq<ImageEvent>)
    requires e.name !in names
    ensures SelectImages(Some(names), index, a + [e] + b) == SelectImages(Some(names), index, a + b)
  {
    var with := ListedSlots(names, a + [e] + b);
    var without := ListedSlots(names, a + b);
    forall m | 0 <= m < |names| ensures with[m] == without[m] {
      var n := names[m];
      FilesForAppend(a + [e], b, n);
      FilesForAppend(a, b, n);
      FilesForSnoc(a, e, n);
      assert FilesFor(a + [e] + b, n) == FilesFor(a + b, n);
    }
    assert with == without;
  }

  /** Every selected image is a filename of one of the slots. */
  lemma {:induction false} SelectedFromSlots(slots: seq<Slot>, index: Option<nat>, f: string)
    requires f in Selected(slots, index)
    ensures exists k :: 0 <= k < |slots| && f in slots[k].1
    decreases |slots|
  {
    var head := Pick(slots[0].1, index);
    assert Selected(slots, index) == head + Selected(slots[1..], index);
    if f !in head {
      SelectedFromSlots(slots[1..], index, f);
      var k :| 0 <= k < |slots[1..]| && f in slots[1..][k].1;
      assert slots[k + 1] == slots[1..][k];
    }
  }

  /**
   * Every image `get_images` returns was announced in the log, and with a
   * fixed list, under a listed name.
   */
  lemma SelectedFromLog(images: Option<seq<string>>, index: Option<nat>, events: seq<ImageEvent>, f: string)
    requires f in SelectImages(images, index, events)
    ensures exists j ::
      && 0 <= j < |events| && events[j].filename == f
      && (images.Some? ==> events[j].name in images.value)
  {
    var slots := ExpectedSlots(images, events);
    SelectedFromSlots(slots, index, f);
    var k :| 0 <= k < |slots| && f in slots[k].1;
    FilesForMembers(events, slots[k].0, f);
    var j :| 0 <= j < |events| && events[j] == ImageEvent(slots[k].0, f);
    assert images.Some? ==> slots[k].0 == images.value[k];
  }

  /**
   * Discovery mode gives at most one image per distinct name of the log (and
   * the first-seen list has each name once).
   */
  lemma DiscoveredAtMostOnePerName(index: Option<nat>, events: seq<ImageEvent>)
    ensures |SelectImages(None, index, events)| <= |FirstSeen(events)|
    ensures |FirstSeen(events)| == |set j | 0 <= j < |events| :: events[j].name|
  {
    var keys := FirstSeen(events);
    FirstSeenDistinct(events);
    DistinctCard(keys);
    var names := set j | 0 <= j < |events| :: events[j].name;
    var keySet := set i | 0 <= i < |keys| :: keys[i];
    forall n ensures n in keySet <==> n in names {
      FirstSeenMembers(events, n);
    }
    assert keySet == names;
  }

  lemma {:induction false} SelectedAllLast(slots: seq<Slot>)
    requires forall k :: 0 <= k < |slots| ==> |slots[k].1| > 0
    ensures |Selected(slots, None)| == |slots|
    ensures forall k :: 0 <= k < |slots| ==> Selected(slots, None)[k] == slots[k].1[|slots[k].1| - 1]
    decreases |slots|
  {
    if |slots| > 0 {
      var tail := slots[1..];
      SelectedAllLast(tail);
      var files := slots[0].1;
      assert Selected(slots, None) == [files[|files| - 1]] + Selected(tail, None);
      forall k | 1 <= k < |slots| ensures Selected(slots, None)[k] == slots[k].1[|slots[k].1| - 1] {
        assert slots[k] == tail[k - 1];
      }
    }
  }

  /** Without a list or index, the k-th image is the latest file of the k-th name first seen. */
  lemma DiscoveredLatestAt(events: seq<ImageEvent>, k: nat)
    requires k < |FirstSeen(events)|
    ensures |SelectImages(None, None, events)| == |FirstSeen(events)|
    ensures |FilesFor(events, FirstSeen(events)[k])| > 0 && SelectImages(None, None, events)[k] == Latest(FilesFor(events, FirstSeen(events)[k]))
  {
    var keys := FirstSeen(events);
    var slots := DiscoveredSlots(events);
    assert SelectImages(None, None, events) == Selected(slots, None);
    forall m | 0 <= m < |slots| ensures |slots[m].1| > 0 {
      SeenHasFiles(events, keys[m]);
    }
    SelectedAllLast(slots);
    assert slots[k] == (keys[k], FilesFor(events, keys[k]));
  }

  /**
   * Without a fixed list and without an index, every name the log mentions
   * gives exactly one image, its latest render, in first-seen order.
   */
  lemma DiscoveredLatest(events: seq<ImageEvent>)
    ensures |SelectImages(None, None, events)| == |FirstSeen(events)|
    ensures forall k :: 0 <= k < |FirstSeen(events)| ==>
      |FilesFor(events, FirstSeen(events)[k])| > 0 && SelectImages(None, None, events)[k] == Latest(FilesFor(events, FirstSeen(events)[k]))
  {
    if |FirstSeen(events)| == 0 {
      assert DiscoveredSlots(events) == [];
    } else {
      DiscoveredLatestAt(events, 0);
    }
    forall k | 0 <= k < |FirstSeen(events)|
      ensures |FilesFor(events, FirstSeen(events)[k])| > 0 && SelectImages(None, None, events)[k] == Latest(FilesFor(events, FirstSeen(events)[k]))
    {
      DiscoveredLatestAt(events, k);
    }
  }
}
