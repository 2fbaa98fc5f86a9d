/** `WikiLinksReferenceProvider.provideReferences`: every wiki-link in every
    note file whose text fuzzy-matches the link under the cursor. */
module References {
  import opened Common
  import opened Names
  import opened LinkRef
  import opened LinkScanner

  /** The span of match `t` on line `lineNum`. */
  function TokenRange(lineNum: nat, t: Token): (r: Range)
  {
    Range(Position(lineNum, t.start), Position(lineNum, t.end))
  }

  /** `range` is the span of a match on `line` whose link text fuzzy-matches
      `word`. The empty line is skipped before any matching. */
  ghost predicate LineReports(cm: CharModel, word: string, line: string, range: Range)
  {
    var ts := Scan(line, 0);
    && line != []
    && exists j :: 0 <= j < |ts| && range == TokenRange(range.start.line, ts[j])
                   && FuzzyMatchText(cm, Inner(line, ts[j]), word)
  }

  /** The locations of those matches `ts` of one line whose link text
      `accept` takes, in order. */
  function MatchLocations(file: Path, lineNum: nat, line: string, ts: seq<Token>,
                          accept: string -> bool): (r: seq<Location>)
    requires forall j :: 0 <= j < |ts| ==> IsMatch(line, ts[j])
    ensures forall loc :: loc in r <==>
      exists j :: 0 <= j < |ts| && loc == Location(file, TokenRange(lineNum, ts[j]))
                  && accept(Inner(line, ts[j]))
  {
    if ts == [] then []
    else
      var rest := MatchLocations(file, lineNum, line, ts[1..], accept);
      assert forall j :: 1 <= j < |ts| ==> ts[j] == ts[1..][j - 1];
      (if accept(Inner(line, ts[0])) then [Location(file, TokenRange(lineNum, ts[0]))] else []) + rest
  }

  /** The test applied to each link text: `noteNamesFuzzyMatchText(text, word)`. */
  function Matcher(cm: CharModel, word: string): (r: string -> bool)
  {
    (text: string) => FuzzyMatchText(cm, text, word)
  }

  /** One line: a fresh global regex scans it and each fuzzy-matching link
      is reported, in order along the line. */
  function LineLocations(cm: CharModel, word: string, file: Path, lineNum: nat, line: string): (r: seq<Location>)
    ensures forall loc :: loc in r <==>
      loc.file == file && loc.range.start.line == lineNum && LineReports(cm, word, line, loc.range)
  {
    if line == [] then []
    else MatchLocations(file, lineNum, line, Scan(line, 0), Matcher(cm, word))
  }

  /** The lines `lines[n..]` of one file, numbered from `n`. */
  function TextLocations(cm: CharModel, word: string, file: Path, lines: seq<string>, n: nat): (r: seq<Location>)
    requires n <= |lines|
    ensures forall loc :: loc in r <==>
      && loc.file == file && n <= loc.range.start.line < |lines|
      && LineReports(cm, word, lines[loc.range.start.line], loc.range)
    decreases |lines| - n
  {
    if n == |lines| then []
    else LineLocations(cm, word, file, n, lines[n]) + TextLocations(cm, word, file, lines, n + 1)
  }

  /** A file's contents, if it reads: `read` stands for
      `workspace.fs.readFile`, and `None` for a read that throws. */
  type Reader = Path -> Option<string>

  /** `loc` is a link in the text of its file, as `read` gives it. */
  ghost predicate FileReports(cm: CharModel, word: string, read: Reader, loc: Location)
  {
    && read(loc.file).Some?
    && var lines := Split(read(loc.file).value, '\n');
       loc.range.start.line < |lines| && LineReports(cm, word, lines[loc.range.start.line], loc.range)
  }

  /** One file: the links of each of its lines, line by line; nothing when
      the file cannot be read. */
  function FileLocations(cm: CharModel, word: string, file: Path, read: Reader): (r: seq<Location>)
    ensures forall loc :: loc in r <==> loc.file == file && FileReports(cm, word, read, loc)
  {
    match read(file)
    case None => []
    case Some(text) => TextLocations(cm, word, file, Split(text, '\n'), 0)
  }

  /** Every file of `files` in turn; a file that cannot be read is skipped. */
  function FilesLocations(cm: CharModel, word: string, files: seq<Path>, read: Reader): (r: seq<Location>)
    ensures forall loc :: loc in r <==> loc.file in files && FileReports(cm, word, read, loc)
  {
    FlatMapMembers(files, FileReader(cm, word, read));
    FlatMap(files, FileReader(cm, word, read))
  }

  function FileReader(cm: CharModel, word: string, read: Reader): (r: Path -> seq<Location>)
  {
    (f: Path) => FileLocations(cm, word, f, read)
  }

  /** `provideReferences`: nothing unless the cursor is on a wiki-link;
      otherwise exactly the links, in the note files among `workspaceFiles`,
      whose text fuzzy-matches the link's word. */
  function ProvideReferences(cm: CharModel, ref: Option<WikiLinkRef>, workspaceFiles: seq<Path>,
                             read: Reader): (r: seq<Location>)
    ensures (ref.None? || ref.value.refType != WikiLink) ==> r == []
    ensures ref.Some? && ref.value.refType == WikiLink ==>
      forall loc :: loc in r <==>
        loc.file in NoteFiles(workspaceFiles) && FileReports(cm, ref.value.word, read, loc)
  {
    if ref.None? || ref.value.refType != WikiLink then []
    else FilesLocations(cm, ref.value.word, NoteFiles(workspaceFiles), read)
  }

  /** Each reported span holds a whole link, `[[text]]`, whose text
      fuzzy-matches the word. */
  lemma ReportedSpansLink(cm: CharModel, word: string, line: string, range: Range)
    requires LineReports(cm, word, line, range)
    ensures range.start.line == range.end.line
    ensures range.start.character + 5 <= range.end.character <= |line|
    ensures IsLinkText(line[range.start.character..range.end.character])
    ensures FuzzyMatchText(cm, line[range.start.character + 2..range.end.character - 2], word)
  {
    var ts := Scan(line, 0);
    var j :| 0 <= j < |ts| && range == TokenRange(range.start.line, ts[j])
             && FuzzyMatchText(cm, Inner(line, ts[j]), word);
    AcceptedSpan(line, ts[j], range, Matcher(cm, word));
  }

  /** The span of an accepted match holds a link whose text is accepted. */
  lemma AcceptedSpan(line: string, t: Token, range: Range, accept: string -> bool)
    requires IsMatch(line, t) && range == TokenRange(range.start.line, t)
    requires accept(Inner(line, t))
    ensures range.start.line == range.end.line
    ensures range.start.character + 5 <= range.end.character <= |line|
    ensures IsLinkText(line[range.start.character..range.end.character])
    ensures accept(line[range.start.character + 2..range.end.character - 2])
  {
    MatchSpan(line, t);
  }

  lemma MatchSpan(line: string, t: Token)
    requires IsMatch(line, t)
    ensures t.start + 5 <= t.end <= |line|
    ensures IsLinkText(line[t.start..t.end])
    ensures Inner(line, t) == line[t.start + 2..t.end - 2]
  {
    MatchIsLinkText(line, t);
  }

  /** Locations that follow one another along a line without overlapping. */
  predicate InLineOrder(locs: seq<Location>)
  {
    forall j :: 0 <= j < |locs| - 1 ==> locs[j].range.end.character <= locs[j + 1].range.start.character
  }

  /** The matches of a line are reported left to right. */
  lemma {:induction false} MatchLocationsInOrder(file: Path, lineNum: nat, line: string, ts: seq<Token>,
                                                 accept: string -> bool)
    requires forall j :: 0 <= j < |ts| ==> IsMatch(line, ts[j])
    requires Ordered(ts)
    ensures InLineOrder(MatchLocations(file, lineNum, line, ts, accept))
  {
    if ts != [] {
      var rest := ts[1..];
      assert forall j :: 0 <= j < |rest| ==> rest[j] == ts[j + 1];
      var tail := MatchLocations(file, lineNum, line, rest, accept);
      MatchLocationsInOrder(file, lineNum, line, rest, accept);
      if accept(Inner(line, ts[0])) {
        if tail != [] {
          assert tail[0] in tail;
          assert forall j :: 0 <= j < |ts| ==> ts[j].start < ts[j].end;
          OrderedStarts(ts);
        }
        ConsInOrder(Location(file, TokenRange(lineNum, ts[0])), tail);
      }
    }
  }

  lemma ConsInOrder(loc: Location, tail: seq<Location>)
    requires InLineOrder(tail)
    requires tail != [] ==> loc.range.end.character <= tail[0].range.start.character
    ensures InLineOrder([loc] + tail)
  {
    var r := [loc] + tail;
    assert forall j :: 1 <= j < |r| ==> r[j] == tail[j - 1];
  }

  /** So each line's locations come in increasing column order. */
  lemma LineLocationsInOrder(cm: CharModel, word: string, file: Path, lineNum: nat, line: string)
    ensures InLineOrder(LineLocations(cm, word, file, lineNum, line))
  {
    if line != [] {
      MatchLocationsInOrder(file, lineNum, line, Scan(line, 0), Matcher(cm, word));
    }
  }

  /** Locations in reading order: by line, and along a line by column
      without overlapping. */
  predicate InReadingOrder(locs: seq<Location>)
  {
    forall j :: 0 <= j < |locs| - 1 ==>
      || locs[j].range.start.line < locs[j + 1].range.start.line
      || (&& locs[j].range.start.line == locs[j + 1].range.start.line
          && locs[j].range.end.character <= locs[j + 1].range.start.character)
  }

  /** The lines of a file are searched top to bottom, so its locations come
      in reading order. */
  lemma {:induction false} TextLocationsInOrder(cm: CharModel, word: string, file: Path, lines: seq<string>, n: nat)
    requires n <= |lines|
    ensures InReadingOrder(TextLocations(cm, word, file, lines, n))
    decreases |lines| - n
  {
    if n < |lines| {
      var here := LineLocations(cm, word, file, n, lines[n]);
      var rest := TextLocations(cm, word, file, lines, n + 1);
      LineLocationsInOrder(cm, word, file, n, lines[n]);
      TextLocationsInOrder(cm, word, file, lines, n + 1);
      LineLocationsOnLine(cm, word, file, n, lines[n]);
      TextLocationsBelow(cm, word, file, lines, n + 1);
      LinesInOrder(here, rest, n);
    }
  }

  lemma LineLocationsOnLine(cm: CharModel, word: string, file: Path, n: nat, line: string)
    ensures var here := LineLocations(cm, word, file, n, line);
      forall j :: 0 <= j < |here| ==> here[j].range.start.line == n
  {
    var here := LineLocations(cm, word, file, n, line);
    assert forall j :: 0 <= j < |here| ==> here[j] in here;
  }

  lemma TextLocationsBelow(cm: CharModel, word: string, file: Path, lines: seq<string>, n: nat)
    requires n <= |lines|
    ensures var rest := TextLocations(cm, word, file, lines, n);
      forall j :: 0 <= j < |rest| ==> rest[j].range.start.line >= n
  {
    var rest := TextLocations(cm, word, file, lines, n);
    assert forall j :: 0 <= j < |rest| ==> rest[j] in rest;
  }

  /** The locations of line `n`, in column order, followed by locations in
      reading order from later lines, are in reading order. */
  lemma LinesInOrder(here: seq<Location>, rest: seq<Location>, n: nat)
    requires InLineOrder(here) && InReadingOrder(rest)
    requires forall j :: 0 <= j < |here| ==> here[j].range.start.line == n
    requires forall j :: 0 <= j < |rest| ==> rest[j].range.start.line > n
    ensures InReadingOrder(here + rest)
  {
    var r := here + rest;
    forall j | 0 <= j < |r| - 1
      ensures || r[j].range.start.line < r[j + 1].range.start.line
              || (&& r[j].range.start.line == r[j + 1].range.start.line
                  && r[j].range.end.character <= r[j + 1].range.start.character)
    {
      if j + 1 < |here| {
        assert r[j] == here[j] && r[j + 1] == here[j + 1];
      } else if j + 1 == |here| {
        assert r[j] == here[j] && r[j + 1] == rest[0];
      } else {
        assert r[j] == rest[j - |here|] && r[j + 1] == rest[j + 1 - |here|];
      }
    }
  }

  /** Each file's locations are in reading order. */
  lemma FileLocationsInOrder(cm: CharModel, word: string, file: Path, read: Reader)
    ensures InReadingOrder(FileLocations(cm, word, file, read))
  {
    if read(file).Some? {
      TextLocationsInOrder(cm, word, file, Split(read(file).value, '\n'), 0);
    }
  }

  /** Files are searched in the order given: the locations found in `a + b`
      are those found in `a` followed by those found in `b`. */
  lemma FilesLocationsAppend(cm: CharModel, word: string, a: seq<Path>, b: seq<Path>,
                                                read: Reader)
    ensures FilesLocations(cm, word, a + b, read)
            == FilesLocations(cm, word, a, read) + FilesLocations(cm, word, b, read)
  {
    FlatMapAppend(a, b, FileReader(cm, word, read));
  }

  /** A line that opens with a link `[[text]]` reports it exactly when its
      text fuzzy-matches the word. */
  lemma LinkAtLineStart(cm: CharModel, word: string, file: Path, lineNum: nat, text: string, rest: string)
    requires text != [] && ']' !in text
    ensures var line := "[[" + text + "]]" + rest;
      Location(file, Range(Position(lineNum, 0), Position(lineNum, |text| + 4)))
        in LineLocations(cm, word, file, lineNum, line)
      <==> FuzzyMatchText(cm, text, word)
  {
    var line := "[[" + text + "]]" + rest;
    LeadingLinkScan(text, rest);
    FirstMatchLocation(file, lineNum, line, Scan(line, 0), Matcher(cm, word));
    assert Matcher(cm, word)(text) == FuzzyMatchText(cm, text, word);
  }

  /** A line that opens with `[[text]]` scans to that link first. */
  lemma LeadingLinkScan(text: string, rest: string)
    requires text != [] && ']' !in text
    ensures var line := "[[" + text + "]]" + rest;
      && Scan(line, 0) != [] && Scan(line, 0)[0] == Token(0, |text| + 4)
      && Inner(line, Token(0, |text| + 4)) == text
  {
    var line := "[[" + text + "]]" + rest;
    var k := CloseFrom(line, 2);
    assert forall j :: 2 <= j < |text| + 2 ==> line[j] == text[j - 2];
    assert line[|text| + 2] == ']';
    assert k == |text| + 2;
    assert TokenAt(line, 0);
    var t := Token(0, |text| + 4);
    assert Scan(line, 0) == [t] + Scan(line, t.end);
    assert line[0..|text| + 4] == "[[" + text + "]]";
  }

  /** The first match of a scan is reported exactly when its text is
      accepted: no later match shares its span. */
  lemma FirstMatchLocation(file: Path, lineNum: nat, line: string, ts: seq<Token>, accept: string -> bool)
    requires ts != [] && Ordered(ts)
    requires forall j :: 0 <= j < |ts| ==> IsMatch(line, ts[j])
    ensures Location(file, TokenRange(lineNum, ts[0])) in MatchLocations(file, lineNum, line, ts, accept)
            <==> accept(Inner(line, ts[0]))
  {
    assert forall j :: 0 <= j < |ts| ==> ts[j].start < ts[j].end;
    OrderedStarts(ts);
  }
}
