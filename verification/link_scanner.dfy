/** The wiki-link pattern `\[\[[^\]]+\]\]` run globally over one line, as the
    reference provider's `exec` loop does: leftmost matches, each search
    resuming where the previous match ended. */
module LinkScanner {

  /** A match: the half-open span `[start, end)` of the line. */
  datatype Token = Token(start: nat, end: nat)

  /** Index of the first `]` at or after `i`, or `|s|` when there is none. */
  function CloseFrom(s: string, i: nat): (k: nat)
    requires i <= |s|
    ensures i <= k <= |s|
    ensures k < |s| ==> s[k] == ']'
    ensures forall j :: i <= j < k ==> s[j] != ']'
    decreases |s| - i
  {
    if i == |s| then i
    else if s[i] == ']' then i
    else CloseFrom(s, i + 1)
  }

  /** The pattern matches at `i`: `[[`, then at least one character other
      than `]` (the greedy run stops at the first `]`), then `]]`. Backing
      off the greedy run cannot help, since `]` would then have to match a
      character that is not `]`. */
  predicate TokenAt(s: string, i: nat)
  {
    && i + 1 < |s| && s[i] == '[' && s[i + 1] == '['
    && var k := CloseFrom(s, i + 2);
       k > i + 2 && k + 1 < |s| && s[k + 1] == ']'
  }

  /** Where the match at `i` ends: just after its `]]`. */
  function TokenEnd(s: string, i: nat): (e: nat)
    requires TokenAt(s, i)
    ensures i + 5 <= e <= |s|
  {
    CloseFrom(s, i + 2) + 2
  }

  /** The text of a whole link: `[[`, a non-empty run without `]`, `]]`. */
  predicate IsLinkText(x: string)
  {
    && |x| >= 5
    && x[0] == '[' && x[1] == '[' && x[|x| - 2] == ']' && x[|x| - 1] == ']'
    && forall j :: 2 <= j < |x| - 2 ==> x[j] != ']'
  }

  /** `t` is the match the pattern makes at its start. */
  predicate IsMatch(s: string, t: Token)
  {
    TokenAt(s, t.start) && t.end == TokenEnd(s, t.start)
  }

  /** Each match spans a link text. */
  lemma MatchIsLinkText(s: string, t: Token)
    requires IsMatch(s, t)
    ensures t.end <= |s| && IsLinkText(s[t.start..t.end])
  {
    var x := s[t.start..t.end];
    assert forall j :: 2 <= j < |x| - 2 ==> x[j] == s[t.start + j];
  }

  /** Conversely, every link text is the match the pattern makes where it
      starts: the scan cannot pass over a `[[x]]`. */
  lemma LinkTextIsMatch(s: string, i: nat, e: nat)
    requires i <= e <= |s| && IsLinkText(s[i..e])
    ensures IsMatch(s, Token(i, e))
  {
    var x := s[i..e];
    assert s[i] == x[0] && s[i + 1] == x[1];
    assert s[e - 2] == x[|x| - 2] && s[e - 1] == x[|x| - 1];
    assert forall j :: i + 2 <= j < e - 2 ==> s[j] == x[j - i];
    CloseFromAt(s, i + 2, e - 2);
  }

  /** `CloseFrom` finds the first `]`. */
  lemma {:induction false} CloseFromAt(s: string, i: nat, k: nat)
    requires i <= k < |s| && s[k] == ']'
    requires forall j :: i <= j < k ==> s[j] != ']'
    ensures CloseFrom(s, i) == k
    decreases k - i
  {
    if i < k {
      CloseFromAt(s, i + 1, k);
    }
  }

  /** The link text between the brackets: `match[0].slice(2, -2)`. */
  function Inner(s: string, t: Token): (r: string)
    requires IsMatch(s, t)
    ensures |r| == t.end - t.start - 4 && |r| > 0
    ensures forall j :: 0 <= j < |r| ==> r[j] != ']'
    ensures s[t.start..t.end] == "[[" + r + "]]"
  {
    var r := s[t.start + 2..t.end - 2];
    assert forall j :: 0 <= j < |r| ==> r[j] == s[t.start + 2 + j];
    r
  }

  /** Tokens in order, none overlapping the next. */
  predicate Ordered(ts: seq<Token>)
  {
    forall j :: 0 <= j < |ts| - 1 ==> ts[j].end <= ts[j + 1].start
  }

  /** Every position from `i` on where the pattern could match lies in one
      of the tokens: the scan misses no link it has not already consumed. */
  predicate Covers(s: string, i: nat, ts: seq<Token>)
  {
    CoversWhere(MatchStarts(s), |s|, i, ts)
  }

  /** `TokenAt` as a predicate on positions. */
  function MatchStarts(s: string): (r: nat -> bool)
  {
    (p: nat) => TokenAt(s, p)
  }

  /** Every position in `[i, hi)` that satisfies `at` lies in a token. */
  predicate CoversWhere(at: nat -> bool, hi: nat, i: nat, ts: seq<Token>)
  {
    forall p: nat :: i <= p < hi && at(p) ==> Covered(ts, p)
  }

  /** Position `p` lies inside one of the tokens. */
  predicate Covered(ts: seq<Token>, p: nat)
  {
    exists j :: 0 <= j < |ts| && ts[j].start <= p < ts[j].end
  }

  /** A correct global scan from `i`: genuine matches at or after `i`, in
      order, missing nothing. */
  predicate LeftmostScan(s: string, i: nat, ts: seq<Token>)
  {
    && (forall j :: 0 <= j < |ts| ==> IsMatch(s, ts[j]) && i <= ts[j].start)
    && Ordered(ts)
    && Covers(s, i, ts)
  }

  /** The `while ((match = rx.exec(line)) !== null)` loop from `lastIndex = i`:
      genuine matches at or after `i`, in order. That it misses nothing is
      `ScanCovers`. */
  function Scan(s: string, i: nat): (ts: seq<Token>)
    requires i <= |s|
    ensures forall j :: 0 <= j < |ts| ==> IsMatch(s, ts[j]) && i <= ts[j].start
    ensures Ordered(ts)
    decreases |s| - i
  {
    if i == |s| then []
    else if TokenAt(s, i) then
      var e := TokenEnd(s, i);
      [Token(i, e)] + Scan(s, e)
    else Scan(s, i + 1)
  }

  /** No position where the pattern could match is skipped. */
  lemma {:induction false} ScanCovers(s: string, i: nat)
    requires i <= |s|
    ensures LeftmostScan(s, i, Scan(s, i))
    decreases |s| - i
  {
    if i == |s| {
    } else if TokenAt(s, i) {
      var e := TokenEnd(s, i);
      ScanCovers(s, e);
      CoversCons(MatchStarts(s), |s|, i, e, Scan(s, e));
    } else {
      ScanCovers(s, i + 1);
      CoversSkip(MatchStarts(s), |s|, i, Scan(s, i + 1));
    }
  }

  lemma CoversCons(at: nat -> bool, hi: nat, i: nat, e: nat, rest: seq<Token>)
    requires i < e
    requires CoversWhere(at, hi, e, rest)
    ensures CoversWhere(at, hi, i, [Token(i, e)] + rest)
  {
    var ts := [Token(i, e)] + rest;
    forall p: nat | i <= p < hi && at(p)
      ensures Covered(ts, p)
    {
      if p >= e {
        var j :| 0 <= j < |rest| && rest[j].start <= p < rest[j].end;
        assert ts[j + 1] == rest[j];
      } else {
        assert ts[0].start <= p < ts[0].end;
      }
    }
  }

  lemma CoversSkip(at: nat -> bool, hi: nat, i: nat, ts: seq<Token>)
    requires !at(i)
    requires CoversWhere(at, hi, i + 1, ts)
    ensures CoversWhere(at, hi, i, ts)
  {
    forall p: nat | i <= p < hi && at(p)
      ensures Covered(ts, p)
    {
      assert p != i;
    }
  }

  /** Conversely, a correct global scan is unique: any sequence of tokens
      that are genuine, ordered and missing nothing is what `Scan` returns. */
  lemma {:induction false} ScanUnique(s: string, i: nat, ts: seq<Token>)
    requires i <= |s|
    requires LeftmostScan(s, i, ts)
    ensures ts == Scan(s, i)
    decreases |s| - i
  {
    if ts == [] {
      EmptyScan(s, i);
    } else {
      ScanStep(s, i, ts);
      ScanUnique(s, ts[0].end, ts[1..]);
    }
  }

  /** With no token to cover anything, there is no match from `i` on. */
  lemma EmptyScan(s: string, i: nat)
    requires i <= |s|
    requires LeftmostScan(s, i, [])
    ensures Scan(s, i) == []
  {
    NothingUncovered(MatchStarts(s), |s|, i);
    assert forall p: nat :: MatchStarts(s)(p) == TokenAt(s, p);
    ScanSkipTo(s, i, |s|);
  }

  /** The first token of a correct scan is the scanner's first match, and the
      rest is a correct scan from its end. */
  lemma ScanStep(s: string, i: nat, ts: seq<Token>)
    requires i <= |s|
    requires LeftmostScan(s, i, ts) && ts != []
    ensures Scan(s, i) == [ts[0]] + Scan(s, ts[0].end)
    ensures LeftmostScan(s, ts[0].end, ts[1..])
  {
    assert forall j :: 0 <= j < |ts| ==> ts[j].start < ts[j].end;
    FirstCovering(MatchStarts(s), |s|, i, ts);
    OrderedStarts(ts);
    ScanStepHead(s, i, ts);
    RestOfScan(s, ts);
  }

  lemma ScanStepHead(s: string, i: nat, ts: seq<Token>)
    requires i <= |s| && ts != [] && IsMatch(s, ts[0]) && i <= ts[0].start
    requires forall p: nat :: i <= p < ts[0].start && p < |s| ==> !MatchStarts(s)(p)
    ensures Scan(s, i) == [ts[0]] + Scan(s, ts[0].end)
  {
    assert forall p: nat :: MatchStarts(s)(p) == TokenAt(s, p);
    ScanSkipTo(s, i, ts[0].start);
  }

  lemma RestOfScan(s: string, ts: seq<Token>)
    requires ts != [] && Ordered(ts)
    requires forall j :: 0 <= j < |ts| ==> IsMatch(s, ts[j])
    requires forall j :: 1 <= j < |ts| ==> ts[0].end <= ts[j].start
    requires Covers(s, ts[0].end, ts[1..])
    ensures LeftmostScan(s, ts[0].end, ts[1..])
  {
    var rest := ts[1..];
    assert forall j :: 0 <= j < |rest| ==> rest[j] == ts[j + 1];
  }

  lemma NothingUncovered(at: nat -> bool, hi: nat, i: nat)
    requires CoversWhere(at, hi, i, [])
    ensures forall p: nat :: i <= p < hi ==> !at(p)
  {
    forall p: nat | i <= p < hi
      ensures !at(p)
    {
    }
  }

  /** Nothing the tokens must cover comes before the first one, and the
      remaining tokens cover everything from its end. */
  lemma FirstCovering(at: nat -> bool, hi: nat, i: nat, ts: seq<Token>)
    requires ts != [] && Ordered(ts) && i <= ts[0].start
    requires forall j :: 0 <= j < |ts| ==> ts[j].start < ts[j].end
    requires CoversWhere(at, hi, i, ts)
    ensures forall p: nat :: i <= p < ts[0].start && p < hi ==> !at(p)
    ensures CoversWhere(at, hi, ts[0].end, ts[1..])
  {
    OrderedStarts(ts);
    var rest := ts[1..];
    forall p: nat | i <= p < ts[0].start && p < hi
      ensures !at(p)
    {
    }
    forall p: nat | ts[0].end <= p < hi && at(p)
      ensures Covered(rest, p)
    {
      assert Covered(ts, p);
      var j :| 0 <= j < |ts| && ts[j].start <= p < ts[j].end;
      assert rest[j - 1] == ts[j];
    }
  }

  /** In ordered tokens every later token starts after the first one ends. */
  lemma OrderedStarts(ts: seq<Token>)
    requires ts != [] && Ordered(ts)
    requires forall j :: 0 <= j < |ts| ==> ts[j].start < ts[j].end
    ensures forall j :: 1 <= j < |ts| ==> ts[0].end <= ts[j].start
  {
    var k := 1;
    while k < |ts|
      invariant 1 <= k <= |ts|
      invariant forall j :: 1 <= j < k ==> ts[0].end <= ts[j].start
    {
      if k > 1 {
        assert ts[0].end <= ts[k - 1].start < ts[k - 1].end <= ts[k].start;
      }
      k := k + 1;
    }
  }

  /** Scanning from `i` and from `q` agree when no match starts in between. */
  lemma {:induction false} ScanSkipTo(s: string, i: nat, q: nat)
    requires i <= q <= |s|
    requires forall p :: i <= p < q ==> !TokenAt(s, p)
    ensures Scan(s, i) == Scan(s, q)
    decreases q - i
  {
    if i < q {
      ScanSkipTo(s, i + 1, q);
    }
  }
}
