# nutils-website gallery builder — a Dafny model

The nutils website is a static gallery of example scripts. For every example,
the builder (a single Rust program, `src/main.rs`) does four things:

- It reads the example's metadata.
- It runs the script in a container.
- It finds the images the script announced in its HTML execution log.
- It renders two pages: the example's own page and the overview page.

This project models the pure logic of that pipeline in Dafny 4.11 and proves
properties of it:

- **`text.dfy`** (`Text`): the Rust string operations the program relies on.
  These are `strip_prefix`/`strip_suffix`, `split` (never empty, and `""`
  gives `[""]`), `split_once` (at the first separator) and `usize` parsing
  (optional `+`, digits only, at most 2^64-1).
- **`metadata.dfy`** (`Metadata`): the text part of `from_py`.
  - A script's header has three parts: a `# name` line, an empty `#` line and
    a run of comment lines (the description).
  - A trailing `# example:` modeline can give `thumbnail=N` and `tags=a,b`
    directives.
  - It also covers `get_script_url`, which turns a GitHub or GitLab
    repository, a commit and a script path into a link to the script.
- **`imagelog.dfy`** (`ImageLog`): `ImageIterator::next`. The log is a
  sequence of lines. The image-link regular expression is an abstract
  `matcher` that returns the three capture groups or nothing. A matched line
  yields the pair (download name, href file); lines that do not match are
  skipped.
- **`images.dfy`** (`ImageSelection`): `nth_or_last` and `get_images`.
  - Events are grouped into per-name slots. The slots are either fixed by the
    metadata's `images` list or discovered in first-seen order.
  - One file is chosen per slot: the file at `image_index`, or else the
    latest one.
  - Independent reference definitions say which files each name gets
    (`FilesFor`) and in which order names appear (`FirstSeen`). The loop is
    proved to compute exactly this reference.
- **`site.dfy`** (`Site`): the per-example body of `main`.
  - `comma_and_join` is reproduced with its ",  and " double space.
  - The overview thumbnail is chosen by the same nth-or-last rule.
  - The two template records are assembled.
  - Worked examples are given as lemmas.

The program's I/O is turned into parameters:

- the file contents are a sequence of lines;
- `git rev-parse` gives the commit and the script path;
- the log file is `Option<lines>`, where `None` means the file cannot be
  opened;
- the regex is the `matcher` function;
- the Markdown renderer is a function parameter.

## Model

| member | source | states |
|---|---|---|
| Text.StripPrefix | src/main.rs:85-90 | the stripped rest exists exactly when the string starts with the prefix, and prefix + rest gives the string back |
| Text.StripSuffix | src/main.rs:137-140 | the stripped front exists exactly when the string ends with the suffix, and front + suffix gives the string back |
| Text.SplitOnce | src/main.rs:110 | a split exists exactly when the separator occurs; the left part holds no separator, and left + separator + right is the input |
| Text.SplitOnceAtFirst | src/main.rs:110 | for any left part free of the separator, splitting left + sep + right returns exactly (left, right) |
| Text.Split | src/main.rs:109 | always at least one part, no part contains the separator, and joining the parts with the separator restores the input |
| Text.SplitJoin | src/main.rs:115 | splitting a join of separator-free parts (at least one) returns exactly those parts, so each comma-separated tag comes back intact |
| Text.ParseUsize | src/main.rs:112 | an accepted number fits in a 64-bit usize, and the text is exactly its decimal rendering behind leading zeros and an optional '+': no other character, no empty digit run |
| Text.ParseDecimal | src/main.rs:112 | every value up to 2^64-1, written in decimal with or without a leading '+', parses back to itself |
| Text.ParsePadded | src/main.rs:112 | leading zeros are accepted too: zeros followed by the rendering of any usize parse to that value, with or without '+' |
| Text.ParseRejectsOverflow | src/main.rs:112 | a digit run whose value exceeds 2^64-1 is rejected, with or without '+' |
| Text.ParseRejectsNonDigit | src/main.rs:112 | any character that is not a digit, other than a '+' in front, makes the number invalid |
| Text.ParseRejectsMinus | src/main.rs:112 | a thumbnail argument starting with '-' is always rejected |
| Metadata.CommentRun | src/main.rs:97 | the comment run is the longest prefix of lines starting with '#': all lines before it are comments and the line at its end, if any, is not |
| Metadata.ParseDescription | src/main.rs:96-104 | succeeds exactly when every line in the comment run is "#" or "# text"; otherwise fails with "expected space or newline"; the remaining lines skip the first non-comment line, which `map_while` consumes |
| Metadata.DescriptionRoundTrip | src/main.rs:96-104 | a block of comment lines rendered from texts, followed by a code line, parses back to those texts each ended by a newline, and the lines after the code line remain |
| Metadata.DescriptionStops | src/main.rs:97-104 | a first line that is not a comment ends the description at once: empty text, and that line is consumed |
| Metadata.DescriptionText | src/main.rs:96-104 | an accepted description is the text of every line of the comment run, everything after "# " or nothing for a bare "#", each ended by a newline |
| Metadata.HashSpaceLine | src/main.rs:97-103 | a "# " line (a hash and one space) is accepted and adds an empty line to the description |
| Metadata.DescriptionToEnd | src/main.rs:97-104 | a comment block that runs to the end of the file parses to its texts and leaves nothing for the modeline |
| Metadata.ApplyDirectives | src/main.rs:109-121 | succeeds exactly when every item is thumbnail=N with a valid usize or tags=...; the tags are the old ones extended by every tags item in order; the thumbnail is the last one given, otherwise the old one; a failure is the error of the first rejected item |
| Metadata.ApplyDirective | src/main.rs:110-120 | one item is accepted exactly when it is thumbnail=N with a valid usize or tags=...; a tags item appends its comma-separated parts, a thumbnail item replaces the index; a rejected item fails with the number's parse error exactly when its key is thumbnail, and with "invalid modeline" otherwise |
| Metadata.FirstInvalid | src/main.rs:109-121 | the position where the loop stops: the first item that is not valid, all items before it being valid |
| Metadata.ParseModeline | src/main.rs:106-122 | when there is no last line, or it lacks the "# example:" prefix: no thumbnail and the tags [official]; otherwise succeeds exactly when all its ':'-items are valid, giving tags official + the listed tags and the last thumbnail |
| Metadata.RenderedDirectiveParses | src/main.rs:110-119 | each writable directive's text is accepted by the item parser and has the directive's effect |
| Metadata.ThumbnailDirectiveParses | src/main.rs:110-113 | thumbnail=N, for any N up to 2^64-1, is accepted, holds no ':' and sets the index to N without touching the tags |
| Metadata.TagsDirectiveParses | src/main.rs:110-115 | tags= followed by comma-joined tags free of ',' and ':' is accepted, holds no ':' and appends exactly those tags |
| Metadata.RenderedDirectivesParse | src/main.rs:109-121 | applying rendered directives adds all their tags in order and sets the last thumbnail given |
| Metadata.ModelineRoundTrip | src/main.rs:106-122 | a rendered modeline as the last line, after any lines, parses back to the directives' thumbnail and official + their tags |
| Metadata.ModelineOfItems | src/main.rs:106-109 | a last line "# example:" followed by ':'-joined items free of ':' hands exactly those items to the directive loop |
| Metadata.RenderedModelineItems | src/main.rs:106-109 | a rendered modeline as the last line hands exactly the rendered directives to the directive loop |
| Metadata.FromPy | src/main.rs:82-134 | empty file: premature end of file; a first line without "# ": expected comment; a second line that is not "#": the empty-comment error; on success the name is the first line minus "# ", the authors and repository are the official ones, commit and script are the rev-parse values, images and image_index are absent, and tags start with official |
| Metadata.FromPyAccepts | src/main.rs:96-121 | after a valid header, from_py succeeds exactly when every line of the comment run is "#" or "# text" and, if a last line remains after the run and its stop line and starts with "# example:", all its items are valid |
| Metadata.FromPyErrors | src/main.rs:96-121 | after a valid header, a malformed comment line in the run makes from_py fail with "expected space or newline"; every other failure is an invalid number or an invalid modeline |
| Metadata.ScriptRoundTrip | src/main.rs:82-134 | a script written as name line, "#", description comments, a code line, any body and a final modeline parses back to the name, the description text, the modeline's thumbnail and official + its tags |
| Metadata.ModelineSwallowedByDescription | src/main.rs:97-108 | if the comment run reaches the end of the file, the "# example:" line is consumed as description text, so its tags and thumbnail are lost (tags [official], no thumbnail) |
| Metadata.ScriptUrl | src/main.rs:136-151 | succeeds exactly when the repository ends in ".git" and its base starts with the GitHub or GitLab host; without ".git" it fails with NotAGitRepository ("repository does not end with .git"); with ".git" and another host it fails with UnknownHost; GitHub gives base/blob/commit/script and GitLab gives base/-/blob/commit/script |
| Metadata.OfficialRepositoryUrl | src/main.rs:127-142 | the official repository always yields https://github.com/evalf/nutils/blob/commit/script |
| Metadata.OfficialScriptUrl | src/main.rs:123-142 | every example that from_py accepts gets a script URL on the nutils GitHub repository |
| ImageLog.EventOf | src/main.rs:235-239 | a matched line's pair takes its name from the download group (2) and its filename from the href group (1) |
| ImageLog.Scan | src/main.rs:221-244 | the events of a log are never more than its lines; what the events are is stated by ImageLog.ScanLine, ImageLog.ScanAppend and ImageLog.Events |
| ImageLog.ScanSound | src/main.rs:230-240 | every event comes from a line the pattern matched, with name = the download group and file = the href group |
| ImageLog.ScanAppend | src/main.rs:223-243 | the events of two consecutive log parts are the events of the first followed by those of the second |
| ImageLog.ScanLine | src/main.rs:230-240 | an unmatched line yields nothing; a matched line yields exactly its (download, href) pair |
| ImageLog.SkipUnmatched | src/main.rs:230-234 | removing a line the pattern does not match, anywhere in the log, leaves the events unchanged |
| ImageLog.Next | src/main.rs:223-243 | one iterator step: None only at end of log when no event remains; otherwise the item is the next event and the position moves past its line |
| ImageLog.Events | src/main.rs:184 | draining the iterator yields exactly the events of the whole log, in order |
| ImageSelection.Nth | src/main.rs:271 | the element at n exists exactly when n is below the length, and it is items[n] |
| ImageSelection.Last | src/main.rs:273 | the last item of a non-empty sequence, and nothing for an empty one |
| ImageSelection.NthOrLast | src/main.rs:269-275 | with an index: items[n] if n is in range, else nothing; without one: the last item, or nothing for an empty sequence |
| ImageSelection.LastIsFinalIndex | src/main.rs:269-275 | the default choice equals an explicit index of the final position, and appending an item makes that item the default choice |
| ImageSelection.NthIgnoresLater | src/main.rs:271 | an in-range index is not affected by items appended later |
| ImageSelection.FindSlot | src/main.rs:185 | returns the first slot with the given name, or nothing when no slot carries it |
| ImageSelection.InitialSlots | src/main.rs:177-183 | one empty slot per listed name, in list order, and no slots when no list is given |
| ImageSelection.Record | src/main.rs:184-189 | one event appends its filename to the first slot of its name and leaves every other slot as it was; an unknown name opens a new last slot only when no list is fixed, otherwise nothing changes |
| ImageSelection.Selected | src/main.rs:191-195 | at most one image per slot; ImageSelection.SelectedAppend gives its value slot by slot |
| ImageSelection.Pick | src/main.rs:193-194 | a slot contributes at most one image, and only one of its own files |
| ImageSelection.SelectedAppend | src/main.rs:191-195 | the selection over consecutive slot groups is the selection of each group, concatenated in slot order |
| ImageSelection.FilesForAppend | src/main.rs:184-186 | a name's files over consecutive log parts are its files in the first part followed by those in the second |
| ImageSelection.FilesForMembers | src/main.rs:184-186 | a file is recorded for a name exactly when some log event pairs that name with that file |
| ImageSelection.FirstSeenMembers | src/main.rs:187-189 | a name gets a discovered slot exactly when some log event carries it |
| ImageSelection.FirstSeenDistinct | src/main.rs:185-188 | discovered names are pairwise distinct, because a known name is found and never pushed again |
| ImageSelection.FirstSeenOrder | src/main.rs:184-189 | discovered slots are ordered by first appearance: an earlier slot's name occurs in the log before any event of a later slot's name |
| ImageSelection.ListedStep | src/main.rs:184-186 | with a fixed list, one more event appends its file to the first slot of its name and changes nothing else |
| ImageSelection.DiscoveredStep | src/main.rs:185-189 | without a list, one more event appends to its name's slot or opens a new slot at the end |
| ImageSelection.ExpectedStep | src/main.rs:184-190 | recording one more event turns the reference slots of a log into those of the extended log |
| ImageSelection.GetImages | src/main.rs:176-196 | a log that cannot be opened is an error; otherwise the result equals the reference selection over the log's scanned events |
| ImageSelection.ListedOrder | src/main.rs:177-195 | adding a name to the fixed list appends that name's pick at the end, or nothing if the name is already listed (the later duplicate slot stays empty) |
| ImageSelection.ListedWithoutImage | src/main.rs:191-195 | a listed name with no files, or whose files do not reach the index, is silently dropped from the result |
| ImageSelection.UnlistedIgnored | src/main.rs:185-189 | with a fixed list, an event for an unlisted name has no effect wherever it occurs |
| ImageSelection.SelectedFromLog | src/main.rs:184-195 | every selected file was announced in the log, and under a listed name when a list is fixed |
| ImageSelection.DiscoveredAtMostOnePerName | src/main.rs:184-195 | without a list there is at most one image per distinct name in the log, and the discovered slots are exactly the distinct names |
| ImageSelection.DiscoveredLatest | src/main.rs:187-195 | without a list or index, the result has one image per distinct name, in first-seen order, each the latest file of that name |
| ImageSelection.DiscoveredLatestAt | src/main.rs:187-195 | without a list or index, the image at position k is the latest file of the k-th newly discovered name |
| Site.CommaAndJoin | src/main.rs:255-267 | the loop yields the readable list: empty for no authors, the one author alone, otherwise ", " between items and ",  and " (two spaces) before the last |
| Site.OfficialAuthorsProse | src/main.rs:255-267 | the official author pair renders as "Evalf,  and other Nutils contributors" |
| Site.ThreeAuthorsProse | src/main.rs:255-267 | three authors render as "a, b,  and c" |
| Site.Thumbnail | src/main.rs:379-380 | with a thumbnail index: id/images[n] if n is in range, else none; without one: id/ followed by the last image, or none if there are no images |
| Site.DefaultThumbnail | src/main.rs:373-380 | with no list and no indices, the thumbnail is the latest file of the last newly discovered name, and absent for a log without images |
| Site.NoNamesNoThumbnail | src/main.rs:373-380 | a log without any image events gives no thumbnail |
| Site.LastNameThumbnail | src/main.rs:373-380 | a log with image events gives id/ followed by the latest file of the last newly discovered name |
| Site.RenderExample | src/main.rs:373-397 | a missing log fails before anything else; an unusable repository URL fails; with a log and a usable URL it succeeds, and then the overview entry and the page carry the selected images, thumbnail, readable authors, rendered description, script URL and the metadata fields unchanged |
| Site.LogExample | src/main.rs:176-196 | the events x:h1.png, x:h2.png, y:h3.jpg select [h2.png, h3.jpg] and the thumbnail id/h3.jpg |
| Site.ModelineExample | src/main.rs:106-122 | the modeline "# example:thumbnail=1:tags=a,b" yields thumbnail 1 and the tags official, a, b |

## Left out

- Running `git rev-parse` (src/main.rs:59-80) is not modelled. Its two results are parameters: the commit, and the script path relative to the repository.
- Reading the file and `str::lines` splitting are not modelled. Scripts and logs are given as sequences of lines, so the handling of `\r\n` and of a final newline is not modelled.
- `read_line` keeps the trailing newline and panics on an I/O error. Both are out of scope, because log lines are given whole and reading cannot fail.
- `from_yaml` is not modelled. It delegates entirely to serde_yaml deserialization, so `ExampleMetadata` values from YAML enter as arbitrary records.
- `run_script` (git fetch and checkout, podman) is not modelled. It is process and container I/O.
- The directory walk in `examples()` and its `file_stem` handling are not modelled, for the same reason. So are `copy_all` and the skip-if-output-directory-exists check in `main`.
- The ordering of examples in the `BTreeMap` and the lifetimes of temporary directories are not modelled.
- The Markdown conversion (`render_markdown`) is a function parameter, not a model of pulldown-cmark.
- Handlebars template rendering and page writing are not modelled. `RenderExample` returns the two records the templates would receive.
- The regular expression of `ImageIterator::new` is not modelled. It is the abstract `matcher`, which returns the three capture groups or nothing. Whether a given line matches is therefore not modelled.
- A log file that cannot be opened is an error (`LogNotFound`), not an empty image list. The program's `File::open` fails in that case (src/main.rs:208).
- Text.ParseUsize: assumes a 64-bit `usize`. `image_index` and `thumbnail` values from YAML are unbounded naturals.
- Error messages are constructors of `ParseError`, `UrlError`, `ImageError` and `SiteError`, not anyhow context strings.
- Strings are sequences of characters, not UTF-8 bytes. The one length test in the program, `line.len() == 0`, means the same on both.
