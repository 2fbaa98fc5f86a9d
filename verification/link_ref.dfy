/** The wiki-link reference under the cursor (`WikiLinksRef.ts`): the text
    after the last `[[` before the cursor, provided no `]]` closes it there. */
module LinkRef {
  import opened Common
  import opened Names

  /** A zero-based line and column in a document. */
  datatype Position = Position(line: nat, character: nat)

  datatype Range = Range(start: Position, end: Position)

  /** A span in a named file, as a `vscode.Location` carries it. */
  datatype Location = Location(file: Path, range: Range)

  datatype RefType = WikiLink | Null

  /** `WikiLinkRef`: the kind, the partial link text, and the span that a
      completion replaces. */
  datatype WikiLinkRef = WikiLinkRef(refType: RefType, word: string, range: Option<Range>)

  /** `NULL_WIKI_LINK_REF`. */
  const NullRef: WikiLinkRef := WikiLinkRef(Null, "", None)

  /** `[[` starts at index `k` of `s`. */
  predicate OpenAt(s: string, k: int)
  {
    0 <= k && k + 1 < |s| && s[k] == '[' && s[k + 1] == '['
  }

  /** `]]` starts at index `k` of `s`. */
  predicate CloseAt(s: string, k: int)
  {
    0 <= k && k + 1 < |s| && s[k] == ']' && s[k + 1] == ']'
  }

  /** `s.includes(']]')`. */
  function ContainsClose(s: string): (r: bool)
    ensures r <==> exists a, b :: s == a + "]]" + b
  {
    CloseSplits(s);
    exists k :: 0 <= k < |s| && CloseAt(s, k)
  }

  /** `]]` occurs at some index exactly when the text splits around it. */
  lemma CloseSplits(s: string)
    ensures (exists k :: 0 <= k < |s| && CloseAt(s, k)) <==> exists a, b :: s == a + "]]" + b
  {
    if k :| 0 <= k < |s| && CloseAt(s, k) {
      assert s == s[..k] + "]]" + s[k + 2..];
    }
    if a, b :| s == a + "]]" + b {
      assert CloseAt(s, |a|);
    }
  }

  /** `s.lastIndexOf('[[')`, with `None` for -1. */
  function LastIndexOfOpen(s: string): (r: Option<nat>)
    ensures r.Some? ==> OpenAt(s, r.value) && forall j :: r.value < j < |s| ==> !OpenAt(s, j)
    ensures r.None? ==> forall j :: 0 <= j < |s| ==> !OpenAt(s, j)
  {
    if |s| < 2 then None
    else if s[|s| - 2] == '[' && s[|s| - 1] == '[' then Some(|s| - 2)
    else
      var r := LastIndexOfOpen(s[..|s| - 1]);
      assert forall j :: 0 <= j < |s| - 2 ==> (OpenAt(s, j) <==> OpenAt(s[..|s| - 1], j));
      r
  }

  /** `lineText.substring(0, position.character)`: the column is clamped to
      the line's length. */
  function TextBefore(line: string, col: nat): (r: string)
    ensures |r| <= |line| && r == line[..|r|]
    ensures col <= |line| ==> |r| == col
    ensures col > |line| ==> r == line
  {
    if col <= |line| then line[..col] else line
  }

  /** `k` is the last `[[` in `before` and no `]]` follows it there: the
      cursor sits in an open link whose text began at `k + 2`. */
  predicate OpenLinkAt(before: string, k: int)
  {
    && OpenAt(before, k)
    && (forall j :: k < j < |before| ==> !OpenAt(before, j))
    && !ContainsClose(before[k..])
  }

  /** `getWikiLinkOrEmptyAt` on the text of the cursor's line. A link is
      reported exactly when some `[[` opens an unclosed link before the
      cursor; its word is the text from there to the cursor, and its range
      runs from just after the `[[` to the cursor position as given. */
  function GetWikiLinkOrEmptyAt(line: string, pos: Position): (r: WikiLinkRef)
    ensures r.refType == WikiLink <==> exists k :: OpenLinkAt(TextBefore(line, pos.character), k)
    ensures r.refType == WikiLink ==>
      exists k :: && OpenLinkAt(TextBefore(line, pos.character), k)
                  && r.word == TextBefore(line, pos.character)[k + 2..]
                  && r.range == Some(Range(Position(pos.line, k + 2), pos))
    ensures r.refType == Null ==> r == NullRef
  {
    var before := TextBefore(line, pos.character);
    match LastIndexOfOpen(before)
    case None => NullRef
    case Some(k) =>
      if ContainsClose(before[k..]) then
        assert forall j :: OpenLinkAt(before, j) ==> j == k;
        NullRef
      else
        assert OpenLinkAt(before, k);
        WikiLinkRef(WikiLink, before[k + 2..], Some(Range(Position(pos.line, k + 2), pos)))
  }

  /** The reported word is exactly what follows the `[[` up to the cursor:
      it neither opens nor closes a link, and when the cursor lies within the
      line the range spans the word. */
  lemma LinkWordShape(line: string, pos: Position)
    requires GetWikiLinkOrEmptyAt(line, pos).refType == WikiLink
    ensures var r := GetWikiLinkOrEmptyAt(line, pos);
      && (forall j :: !OpenAt(r.word, j) && !CloseAt(r.word, j))
      && TextBefore(line, pos.character)
         == TextBefore(line, pos.character)[..r.range.value.start.character - 2] + "[[" + r.word
      && (pos.character <= |line| ==>
            r.range.value.end.character - r.range.value.start.character == |r.word|)
  {
    var r := GetWikiLinkOrEmptyAt(line, pos);
    var before := TextBefore(line, pos.character);
    var k :| && OpenLinkAt(before, k)
             && r.word == before[k + 2..]
             && r.range == Some(Range(Position(pos.line, k + 2), pos));
    OpenLinkWord(before, k, r.word);
  }

  /** What follows the `[[` of an open link neither opens nor closes one. */
  lemma OpenLinkWord(before: string, k: int, word: string)
    requires OpenLinkAt(before, k) && word == before[k + 2..]
    ensures forall j :: !OpenAt(word, j) && !CloseAt(word, j)
    ensures before == before[..k] + "[[" + word
  {
    forall j ensures !OpenAt(word, j) && !CloseAt(word, j) {
      if OpenAt(word, j) {
        assert OpenAt(before, k + 2 + j);
      }
      if CloseAt(word, j) {
        assert CloseAt(before[k..], j + 2);
      }
    }
  }

  /** The text typed so far after a `[[` (with no `[[` or `]]` in it and not
      starting with `[`) is the word, whatever follows the cursor. */
  lemma TypingInsideLink(prefix: string, typed: string, rest: string, n: nat)
    requires forall j :: !OpenAt(typed, j) && !CloseAt(typed, j)
    requires typed == [] || typed[0] != '['
    ensures var col := |prefix| + 2 + |typed|;
      GetWikiLinkOrEmptyAt(prefix + "[[" + typed + rest, Position(n, col))
      == WikiLinkRef(WikiLink, typed, Some(Range(Position(n, |prefix| + 2), Position(n, col))))
  {
    var line := prefix + "[[" + typed + rest;
    var col := |prefix| + 2 + |typed|;
    var before := TextBefore(line, col);
    var k := |prefix|;
    assert before == prefix + "[[" + typed;
    assert before[k + 2..] == typed;
    forall j | k < j < |before|
      ensures !OpenAt(before, j)
    {
      if j >= k + 2 && OpenAt(before, j) {
        assert OpenAt(typed, j - k - 2);
      }
    }
    forall j | 0 <= j < |before[k..]|
      ensures !CloseAt(before[k..], j)
    {
      if j >= 2 && CloseAt(before[k..], j) {
        assert CloseAt(typed, j - 2);
      }
    }
    assert OpenLinkAt(before, k);
    var r := GetWikiLinkOrEmptyAt(line, Position(n, col));
    if r.refType == WikiLink {
      var k' :| && OpenLinkAt(before, k')
                && r.word == before[k' + 2..]
                && r.range == Some(Range(Position(n, k' + 2), Position(n, col)));
      assert k' == k;
    }
  }

  /** Once the cursor has passed the `]]` of a link, and no new `[[` was
      typed after it, the cursor is no longer in a link, whatever follows. */
  lemma AfterClosedLink(prefix: string, text: string, after: string, rest: string, n: nat)
    requires forall j :: !OpenAt(after, j)
    ensures GetWikiLinkOrEmptyAt(prefix + "[[" + text + "]]" + after + rest,
                                 Position(n, |prefix| + |text| + 4 + |after|)) == NullRef
  {
    var line := prefix + "[[" + text + "]]" + after + rest;
    var before := TextBefore(line, |prefix| + |text| + 4 + |after|);
    assert before == prefix + "[[" + text + "]]" + after;
    var c := |prefix| + |text| + 2;
    assert CloseAt(before, c);
    forall j | c + 2 <= j < |before|
      ensures OpenAt(before, j) == OpenAt(after, j - c - 2)
    {
      assert before[j] == after[j - c - 2];
      if j + 1 < |before| {
        assert before[j + 1] == after[j - c - 1];
      }
    }
    assert OpenAt(before, |prefix|);
    var last := LastIndexOfOpen(before);
    assert last.Some?;
    var k := last.value;
    assert k < c;
    assert before[k..][c - k] == before[c] && before[k..][c - k + 1] == before[c + 1];
    assert CloseAt(before[k..], c - k);
  }

  /** Right after typing `[[` the link is there with an empty word and a
      zero-width range at the cursor. */
  lemma JustOpenedLink(prefix: string, rest: string, n: nat)
    ensures GetWikiLinkOrEmptyAt(prefix + "[[" + rest, Position(n, |prefix| + 2))
      == WikiLinkRef(WikiLink, "", Some(Range(Position(n, |prefix| + 2), Position(n, |prefix| + 2))))
  {
    TypingInsideLink(prefix, "", rest, n);
    assert prefix + "[[" + "" + rest == prefix + "[[" + rest;
  }

  /** On `a [[foo]] b` with the cursor between `o` and `o`, the word is the
      text up to the cursor, not the whole link text. */
  lemma CursorInsideWordExample()
    ensures GetWikiLinkOrEmptyAt("a [[foo]] b", Position(0, 6))
      == WikiLinkRef(WikiLink, "fo", Some(Range(Position(0, 4), Position(0, 6))))
  {
    TypingInsideLink("a ", "fo", "o]] b", 0);
    assert "a " + "[[" + "fo" + "o]] b" == "a [[foo]] b";
  }

  /** On `a [[foo]] b` with the cursor at column 9 (just past `]]`) or
      later, there is no link. */
  lemma CursorPastLinkExample(col: nat)
    requires col >= 9
    ensures GetWikiLinkOrEmptyAt("a [[foo]] b", Position(0, col)) == NullRef
  {
    var line := "a [[foo]] b";
    if col == 9 {
      AfterClosedLink("a ", "foo", "", " b", 0);
      assert "a " + "[[" + "foo" + "]]" + "" + " b" == line;
    } else if col == 10 {
      AfterClosedLink("a ", "foo", " ", "b", 0);
      assert "a " + "[[" + "foo" + "]]" + " " + "b" == line;
    } else {
      assert forall j :: !OpenAt(" b", j);
      AfterClosedLink("a ", "foo", " b", "", 0);
      assert "a " + "[[" + "foo" + "]]" + " b" + "" == line;
      assert TextBefore(line, col) == TextBefore(line, 11);
    }
  }
}
