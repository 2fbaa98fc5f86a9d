/** Note-name handling of `WikiLinksWorkspace`: the configuration record,
    extension stripping, the fuzzy name normaliser and the two equality tests
    built on it, the classic slugger that turns a title into a file name, and
    the extension filter that decides which workspace files are notes. */
module Names {
  import opened Common

  /** A file-system path (`Uri.fsPath`). */
  type Path = string

  /** `workspaceFilenameConvention`; any value the settings may hold other
      than the two known ones is `Unrecognized`. */
  datatype Convention = UniqueFilenames | RelativePaths | Unrecognized

  /** The extension's settings, passed in instead of read from the editor. */
  datatype Config = Config(
    createNoteOnGoToDefinitionWhenMissing: bool,
    convention: Convention,
    triggerSuggestOnReplacement: bool)

  const DefaultConfig: Config := Config(true, UniqueFilenames, true)

  predicate UseUniqueFilenames(cfg: Config)
  {
    cfg.convention == UniqueFilenames
  }

  predicate UseRelativePaths(cfg: Config)
  {
    cfg.convention == RelativePaths
  }

  // ---------------------------------------------------------------------------
  // Characters
  // ---------------------------------------------------------------------------

  function AsciiLower(c: char): (r: char)
  {
    if 'A' <= c <= 'Z' then (c as int + 32) as char else c
  }

  predicate IsAsciiAlnum(c: char)
  {
    'a' <= c <= 'z' || 'A' <= c <= 'Z' || '0' <= c <= '9'
  }

  /** The class `\s` of JavaScript regular expressions: the WhiteSpace and
      LineTerminator code points of ECMAScript. */
  predicate IsJsWhitespace(c: char)
  {
    var n := c as int;
    (9 <= n <= 13) || n == 0x20 || n == 0xA0 || n == 0x1680
    || (0x2000 <= n <= 0x200A) || n == 0x2028 || n == 0x2029
    || n == 0x202F || n == 0x205F || n == 0x3000 || n == 0xFEFF
  }

  /** The characters the normaliser deletes: `[\s\-_.]`. */
  predicate IsSeparator(c: char)
  {
    IsJsWhitespace(c) || c == '-' || c == '_' || c == '.'
  }

  /** The complement of `IsSeparator`, named so that it can be passed to
      `Filter` as a function value. */
  predicate IsWordChar(c: char)
  {
    !IsSeparator(c)
  }

  /** The host's Unicode tables, which the model does not spell out:
      `toLowerCase` on one character and the class `[\p{L}\p{N}]`. */
  datatype CharOps = CharOps(lower: char -> char, isLetterOrDigit: char -> bool)
  {
    /** What the model relies on: lower-casing is idempotent, leaves the
        separators alone and never produces one, separators are neither
        letters nor digits, and on ASCII both tables are the familiar ones. */
    ghost predicate Valid()
    {
      && (forall c {:trigger lower(lower(c))} :: lower(lower(c)) == lower(c))
      && (forall c :: IsSeparator(lower(c)) ==> IsSeparator(c))
      && (forall c :: IsSeparator(c) ==> lower(c) == c && !isLetterOrDigit(c))
      && (forall c :: c as int < 128 ==> lower(c) == AsciiLower(c))
      && (forall c :: c as int < 128 ==> (isLetterOrDigit(c) <==> IsAsciiAlnum(c)))
    }
  }

  predicate IsWitnessLetterOrDigit(c: char)
  {
    IsAsciiAlnum(c) || (c as int >= 128 && !IsJsWhitespace(c))
  }

  const AsciiOps: CharOps := CharOps(AsciiLower, IsWitnessLetterOrDigit)

  /** Character tables that satisfy the assumptions above. */
  type CharModel = ops: CharOps | ops.Valid() witness AsciiOps

  /** `s.toLowerCase()`, character by character. */
  function Lower(cm: CharModel, s: string): (r: string)
    ensures |r| == |s|
    ensures forall i :: 0 <= i < |r| ==> cm.lower(r[i]) == r[i]
  {
    seq(|s|, i requires 0 <= i < |s| => cm.lower(s[i]))
  }

  // ---------------------------------------------------------------------------
  // Extensions
  // ---------------------------------------------------------------------------

  /** The alternatives of `\.(md|markdown|mdx|fountain|txt)$`. */
  const NoteExtensions: seq<string> := ["md", "markdown", "mdx", "fountain", "txt"]

  function AsciiLowerString(s: string): (r: string)
  {
    seq(|s|, i requires 0 <= i < |s| => AsciiLower(s[i]))
  }

  /** `s` ends with `.` followed by `ext`, compared ignoring ASCII case (the
      regular expression carries the `i` flag but not `u`, so only ASCII
      letters fold). */
  predicate EndsWithExtension(s: string, ext: string)
  {
    |ext| < |s| && s[|s| - |ext| - 1] == '.' && AsciiLowerString(s[|s| - |ext|..]) == ext
  }

  /** The test `/\.(md|markdown|mdx|fountain|txt)$/i`. */
  predicate HasNoteExtension(s: string)
  {
    exists e :: e in NoteExtensions && EndsWithExtension(s, e)
  }

  /** The extension `s` ends with, trying the longer names first. */
  function MatchedExtension(s: string): (r: Option<string>)
    ensures r.Some? ==> r.value in NoteExtensions && EndsWithExtension(s, r.value)
    ensures r.None? ==> !HasNoteExtension(s)
  {
    if EndsWithExtension(s, "markdown") then Some("markdown")
    else if EndsWithExtension(s, "fountain") then Some("fountain")
    else if EndsWithExtension(s, "mdx") then Some("mdx")
    else if EndsWithExtension(s, "txt") then Some("txt")
    else if EndsWithExtension(s, "md") then Some("md")
    else None
  }

  /** `stripExtension`: drops one trailing note extension, if there is one,
      and leaves any other string unchanged. */
  function StripExtension(s: string): (r: string)
    ensures |r| <= |s|
    ensures !HasNoteExtension(s) <==> r == s
  {
    match MatchedExtension(s)
    case None => s
    case Some(e) => s[..|s| - |e| - 1]
  }

  lemma ExtensionLastChars(s: string, e: string, k: nat)
    requires EndsWithExtension(s, e)
    requires k < |e|
    ensures AsciiLower(s[|s| - |e| + k]) == e[k]
  {
    assert AsciiLowerString(s[|s| - |e|..])[k] == e[k];
  }

  /** At most one extension can match: none of them contains a `.`, and
      those of equal length differ in some letter. */
  lemma ExtensionsUnique(s: string, e1: string, e2: string)
    requires e1 in NoteExtensions && e2 in NoteExtensions
    requires EndsWithExtension(s, e1) && EndsWithExtension(s, e2)
    ensures e1 == e2
  {
    if |e1| < |e2| {
      ExtensionLastChars(s, e2, |e2| - |e1| - 1);
      assert false;
    } else if |e2| < |e1| {
      ExtensionLastChars(s, e1, |e1| - |e2| - 1);
      assert false;
    }
  }

  /** `stripExtension` removes exactly the extension that matched. */
  lemma StripExtensionRemovesMatch(s: string, e: string)
    requires e in NoteExtensions && EndsWithExtension(s, e)
    ensures StripExtension(s) == s[..|s| - |e| - 1]
    ensures StripExtension(s) + "." == s[..|s| - |e|]
  {
    var m := MatchedExtension(s);
    ExtensionsUnique(s, e, m.value);
  }

  /** Appending `.md` is undone by `stripExtension`. */
  lemma StripExtensionOfMd(x: string)
    ensures EndsWithExtension(x + ".md", "md")
    ensures StripExtension(x + ".md") == x
  {
    var s := x + ".md";
    assert s[|s| - 3] == '.';
    assert s[|s| - 2..] == "md";
    assert AsciiLowerString("md") == "md";
    StripExtensionRemovesMatch(s, "md");
    assert s[..|s| - 3] == x;
  }

  /** A string without `.` has no extension to strip. */
  lemma NoDotNoExtension(s: string)
    requires '.' !in s
    ensures !HasNoteExtension(s)
    ensures StripExtension(s) == s
  {
  }

  /** The extension test ignores ASCII case: `.MD` goes as `.md` does. */
  lemma StripExtensionOfUpperMd(x: string)
    ensures StripExtension(x + ".MD") == x
  {
    var s := x + ".MD";
    assert s[|s| - 3] == '.';
    assert s[|s| - 2..] == "MD";
    assert AsciiLowerString("MD") == "md";
    StripExtensionRemovesMatch(s, "md");
    assert s[..|s| - 3] == x;
  }

  /** Only the last extension goes: `x.md.md` becomes `x.md`. */
  lemma StripDoubleMd(x: string)
    ensures StripExtension(x + ".md.md") == x + ".md"
  {
    DoubleMd(x);
    StripExtensionOfMd(x + ".md");
  }

  lemma DoubleMd(x: string)
    ensures x + ".md.md" == (x + ".md") + ".md"
  {
    assert ".md.md" == ".md" + ".md";
    AppendAssoc(x, ".md", ".md");
  }

  // ---------------------------------------------------------------------------
  // Fuzzy names
  // ---------------------------------------------------------------------------

  /** `s.replace(/[\s\-_.]+/g, '')`: every separator goes, runs or not. */
  function DeleteSeparators(s: string): (r: string)
    ensures forall i :: 0 <= i < |r| ==> !IsSeparator(r[i])
    ensures r == s <==> forall i :: 0 <= i < |s| ==> !IsSeparator(s[i])
  {
    var r := Filter(s, IsWordChar);
    if forall i :: 0 <= i < |s| ==> IsWordChar(s[i]) then
      FilterAll(s, IsWordChar);
      r
    else r
  }

  /** Separator deletion works piece by piece, so it keeps every other
      character, in order. */
  lemma DeleteSeparatorsAppend(a: string, b: string)
    ensures DeleteSeparators(a + b) == DeleteSeparators(a) + DeleteSeparators(b)
  {
    FilterAppend(a, b, IsWordChar);
  }

  /** A single character is deleted exactly when it is a separator. */
  lemma DeleteSeparatorsSingle(c: char)
    ensures DeleteSeparators([c]) == if IsSeparator(c) then [] else [c]
  {
    FilterSingle(c, IsWordChar);
  }

  /** `normalizeNoteNameForFuzzyMatch`: strip the extension, lower-case,
      delete the separators. */
  function Normalize(cm: CharModel, name: string): (r: string)
    ensures |r| <= |name|
    ensures forall i :: 0 <= i < |r| ==> !IsSeparator(r[i])
    ensures forall i :: 0 <= i < |r| ==> cm.lower(r[i]) == r[i]
  {
    var lowered := Lower(cm, StripExtension(name));
    var r := DeleteSeparators(lowered);
    assert forall i :: 0 <= i < |r| ==> r[i] in lowered;
    r
  }

  /** Lower-casing and separator deletion both leave a normalised name alone,
      and so does stripping, since it has no `.` left. */
  lemma NormalizeIdempotent(cm: CharModel, name: string)
    ensures Normalize(cm, Normalize(cm, name)) == Normalize(cm, name)
  {
    var n := Normalize(cm, name);
    NoDotNoExtension(n);
    assert Lower(cm, n) == n;
    FilterAll(n, IsWordChar);
  }

  /** `noteNamesFuzzyMatchText`: equality of normalised forms. */
  predicate FuzzyMatchText(cm: CharModel, left: string, right: string)
  {
    Normalize(cm, left) == Normalize(cm, right)
  }

  /** `path.basename` on a POSIX path: the part after the last `/`. */
  function Basename(p: Path): (r: string)
    ensures '/' !in r
    ensures |r| <= |p| && p[|p| - |r|..] == r
    ensures |r| < |p| ==> p[|p| - |r| - 1] == '/'
  {
    if p == [] then []
    else if p[|p| - 1] == '/' then []
    else
      var r := Basename(p[..|p| - 1]) + [p[|p| - 1]];
      assert p[|p| - |r|..] == p[..|p| - 1][|p| - |r|..] + [p[|p| - 1]];
      r
  }

  /** `noteNamesFuzzyMatch`: the left side is a path whose basename is
      compared; the right side is taken as it is. */
  predicate FuzzyMatch(cm: CharModel, left: Path, right: string)
  {
    FuzzyMatchText(cm, Basename(left), right)
  }

  /** The text equality is an equivalence relation. */
  lemma FuzzyMatchTextIsEquivalence(cm: CharModel, a: string, b: string, c: string)
    ensures FuzzyMatchText(cm, a, a)
    ensures FuzzyMatchText(cm, a, b) ==> FuzzyMatchText(cm, b, a)
    ensures FuzzyMatchText(cm, a, b) && FuzzyMatchText(cm, b, c) ==> FuzzyMatchText(cm, a, c)
  {
  }

  /** A name and its normal form always match. */
  lemma FuzzyMatchTextNormal(cm: CharModel, name: string)
    ensures FuzzyMatchText(cm, Normalize(cm, name), name)
  {
    NormalizeIdempotent(cm, name);
  }

  /** The path test is the text test on the basename of the left side. */
  lemma FuzzyMatchIsTextOnBasename(cm: CharModel, left: Path, right: string)
    ensures FuzzyMatch(cm, left, right) <==> FuzzyMatchText(cm, Basename(left), right)
    ensures '/' !in left ==> (FuzzyMatch(cm, left, right) <==> FuzzyMatchText(cm, left, right))
  {
  }

  /** A name without separators normalises to its lower-cased self. */
  lemma NormalizePlain(cm: CharModel, s: string)
    requires forall i :: 0 <= i < |s| ==> !IsSeparator(s[i])
    ensures Normalize(cm, s) == Lower(cm, s)
  {
    NoDotNoExtension(s);
    var l := Lower(cm, s);
    assert forall i :: 0 <= i < |l| ==> IsWordChar(l[i]);
    FilterAll(l, IsWordChar);
  }

  /** Normalisation drops a separator between two words and keeps every
      other character, lower-cased and in order. A `.` is left out here,
      since it could start an extension. */
  lemma NormalizeJoined(cm: CharModel, u: string, c: char, v: string)
    requires forall i :: 0 <= i < |u| ==> !IsSeparator(u[i])
    requires forall i :: 0 <= i < |v| ==> !IsSeparator(v[i])
    requires IsSeparator(c) && c != '.'
    ensures Normalize(cm, u + [c] + v) == Lower(cm, u) + Lower(cm, v)
  {
    var s := u + [c] + v;
    NoDotInJoined(u, c, v);
    NoDotNoExtension(s);
    LowerOfJoined(cm, u, c, v);
    LowerNoSeparators(cm, u);
    LowerNoSeparators(cm, v);
    DeleteAroundSeparator(Lower(cm, u), c, Lower(cm, v));
  }

  lemma NoDotInJoined(u: string, c: char, v: string)
    requires forall i :: 0 <= i < |u| ==> !IsSeparator(u[i])
    requires forall i :: 0 <= i < |v| ==> !IsSeparator(v[i])
    requires c != '.'
    ensures '.' !in u + [c] + v
  {
    assert '.' !in u && '.' !in v;
  }

  lemma LowerOfJoined(cm: CharModel, u: string, c: char, v: string)
    requires IsSeparator(c)
    ensures Lower(cm, u + [c] + v) == Lower(cm, u) + ([c] + Lower(cm, v))
  {
    var s := u + [c] + v;
    assert forall i :: 0 <= i < |s| ==> Lower(cm, s)[i] == cm.lower(s[i]);
  }

  /** Lower-casing never makes a separator. */
  lemma LowerNoSeparators(cm: CharModel, x: string)
    requires forall i :: 0 <= i < |x| ==> !IsSeparator(x[i])
    ensures forall i :: 0 <= i < |Lower(cm, x)| ==> !IsSeparator(Lower(cm, x)[i])
  {
  }

  /** One separator between two separator-free words is all that goes. */
  lemma DeleteAroundSeparator(x: string, c: char, y: string)
    requires forall i :: 0 <= i < |x| ==> !IsSeparator(x[i])
    requires forall i :: 0 <= i < |y| ==> !IsSeparator(y[i])
    requires IsSeparator(c)
    ensures DeleteSeparators(x + ([c] + y)) == x + y
  {
    assert forall i :: 0 <= i < |x| ==> IsWordChar(x[i]);
    assert forall i :: 0 <= i < |y| ==> IsWordChar(y[i]);
    FilterDropsOne(x, c, y, IsWordChar);
  }


  /** Which separator stands between two words does not matter to the fuzzy
      match: `my note` and `my-note` name the same note. */
  lemma SeparatorsInterchangeable(cm: CharModel, u: string, c1: char, c2: char, v: string)
    requires forall i :: 0 <= i < |u| ==> !IsSeparator(u[i])
    requires forall i :: 0 <= i < |v| ==> !IsSeparator(v[i])
    requires IsSeparator(c1) && c1 != '.' && IsSeparator(c2) && c2 != '.'
    ensures FuzzyMatchText(cm, u + [c1] + v, u + [c2] + v)
  {
    NormalizeJoined(cm, u, c1, v);
    NormalizeJoined(cm, u, c2, v);
  }

  /** A path without `/` is its own basename. */
  lemma {:induction false} BasenameNoSlash(p: Path)
    requires '/' !in p
    ensures Basename(p) == p
  {
    if p != [] {
      var q := p[..|p| - 1];
      assert '/' !in q by {
        assert forall k :: 0 <= k < |q| ==> q[k] == p[k];
      }
      BasenameNoSlash(q);
      assert q + [p[|p| - 1]] == p;
    }
  }

  /** The basename of `dir/name` is `name`. */
  lemma BasenameOfJoin(dir: string, name: string)
    requires '/' !in name
    ensures Basename(dir + "/" + name) == name
  {
    var p := dir + "/" + name;
    assert p[|p| - |name|..] == name;
    assert p[|p| - |name| - 1] == '/';
  }

  /** Only the left side is basenamed, so the path test is not symmetric:
      `dir/name` matches `name`, but `name` does not match `dir/name`. */
  lemma FuzzyMatchNotSymmetric(cm: CharModel, dir: string, name: string)
    requires '/' !in name
    requires forall i :: 0 <= i < |dir| ==> !IsSeparator(dir[i])
    requires forall i :: 0 <= i < |name| ==> !IsSeparator(name[i])
    ensures FuzzyMatch(cm, dir + "/" + name, name)
    ensures !FuzzyMatch(cm, name, dir + "/" + name)
  {
    var p := dir + "/" + name;
    BasenameOfJoin(dir, name);
    JoinPlain(dir, name);
    NormalizePlain(cm, p);
    NormalizePlain(cm, name);
    assert |Normalize(cm, p)| != |Normalize(cm, name)|;
  }

  lemma JoinPlain(dir: string, name: string)
    requires forall i :: 0 <= i < |dir| ==> !IsSeparator(dir[i])
    requires forall i :: 0 <= i < |name| ==> !IsSeparator(name[i])
    ensures forall i :: 0 <= i < |dir + "/" + name| ==> !IsSeparator((dir + "/" + name)[i])
  {
    var p := dir + "/" + name;
    forall i | 0 <= i < |p|
      ensures !IsSeparator(p[i])
    {
      if i < |dir| {
        assert p[i] == dir[i];
      } else if i > |dir| {
        assert p[i] == name[i - |dir| - 1];
      }
    }
  }

  // ---------------------------------------------------------------------------
  // Slugs
  // ---------------------------------------------------------------------------

  /** Drops the leading run of characters outside the class `alnum`. */
  function SkipNonAlnum(alnum: char -> bool, s: string): (r: string)
    ensures |r| <= |s|
    ensures r == [] || alnum(r[0])
    ensures s != [] && !alnum(s[0]) ==> |r| < |s|
  {
    if s == [] || alnum(s[0]) then s
    else SkipNonAlnum(alnum, s[1..])
  }

  /** Skipping drops a prefix: what is left is a suffix of the text. */
  lemma {:induction false} SkipIsSuffix(alnum: char -> bool, s: string)
    ensures var r := SkipNonAlnum(alnum, s); r == s[|s| - |r|..]
    decreases |s|
  {
    if s != [] && !alnum(s[0]) {
      SkipIsSuffix(alnum, s[1..]);
    }
  }

  /** Skipping drops no letter or digit. */
  lemma {:induction false} SkipKeepsAlnum(alnum: char -> bool, s: string)
    ensures Filter(SkipNonAlnum(alnum, s), alnum) == Filter(s, alnum)
    decreases |s|
  {
    if s != [] && !alnum(s[0]) {
      SkipKeepsAlnum(alnum, s[1..]);
    }
  }

  /** `s.replace(/[^\p{L}\p{N}]+/gu, '-')` with `alnum` the class
      `[\p{L}\p{N}]`: each maximal run of characters outside the class
      becomes one `-`. */
  function ReplaceNonAlnumRuns(alnum: char -> bool, s: string): (r: string)
    ensures s == [] <==> r == []
    ensures r != [] && alnum(s[0]) ==> r[0] == s[0]
    ensures r != [] && !alnum(s[0]) ==> r[0] == '-'
    decreases |s|
  {
    if s == [] then []
    else if alnum(s[0]) then [s[0]] + ReplaceNonAlnumRuns(alnum, s[1..])
    else "-" + ReplaceNonAlnumRuns(alnum, SkipNonAlnum(alnum, s[1..]))
  }

  /** `s.replace(/^-+|-+$/g, '')`. */
  function TrimDashes(s: string): (r: string)
    ensures r == [] || (r[0] != '-' && r[|r| - 1] != '-')
  {
    TrimTrailingDashes(TrimLeadingDashes(s))
  }

  function TrimLeadingDashes(s: string): (r: string)
    ensures r == [] || r[0] != '-'
  {
    if s != [] && s[0] == '-' then TrimLeadingDashes(s[1..]) else s
  }

  function TrimTrailingDashes(s: string): (r: string)
    ensures |r| <= |s|
    ensures r == [] || (r[0] == s[0] && r[|r| - 1] != '-')
  {
    if s != [] && s[|s| - 1] == '-' then TrimTrailingDashes(s[..|s| - 1]) else s
  }

  /** `slugifyClassic`: lower-case, collapse every run of non-letters and
      non-digits into one `-`, trim `-` from both ends. */
  function SlugifyClassic(cm: CharModel, title: string): (r: string)
    ensures IsSlug(cm, r)
  {
    var alnum := cm.isLetterOrDigit;
    var lowered := Lower(cm, title);
    var replaced := ReplaceNonAlnumRuns(alnum, lowered);
    ReplacedShape(alnum, lowered);
    ReplacedNoDoubleDash(alnum, lowered);
    ReplacedFixedBy(alnum, cm.lower, lowered);
    TrimLeadingKeeps(alnum, cm.lower, replaced);
    TrimTrailingKeeps(alnum, cm.lower, TrimLeadingDashes(replaced));
    TrimDashes(replaced)
  }

  /** `slugifyTitle`, which uses the classic slugger. */
  function SlugifyTitle(cm: CharModel, title: string): (r: string)
    ensures IsSlug(cm, r)
  {
    SlugifyClassic(cm, title)
  }

  predicate NoDoubleDash(s: string)
  {
    forall i :: 0 <= i < |s| - 1 ==> !(s[i] == '-' && s[i + 1] == '-')
  }

  predicate DashOrAlnum(alnum: char -> bool, s: string)
  {
    forall i :: 0 <= i < |s| ==> s[i] == '-' || alnum(s[i])
  }

  /** Every character of `s` is a fixed point of `f`. */
  predicate FixedBy(f: char -> char, s: string)
  {
    forall i :: 0 <= i < |s| ==> f(s[i]) == s[i]
  }

  /** What a slug looks like: lower-case letter/digit runs joined by single
      dashes, with no dash at either end. */
  predicate IsSlug(cm: CharModel, s: string)
  {
    && (s == [] || (s[0] != '-' && s[|s| - 1] != '-'))
    && NoDoubleDash(s)
    && DashOrAlnum(cm.isLetterOrDigit, s)
    && FixedBy(cm.lower, s)
  }

  lemma {:induction false} ReplacedShape(alnum: char -> bool, s: string)
    ensures DashOrAlnum(alnum, ReplaceNonAlnumRuns(alnum, s))
    decreases |s|
  {
    if s == [] {
    } else if alnum(s[0]) {
      ReplacedShape(alnum, s[1..]);
      var rest := ReplaceNonAlnumRuns(alnum, s[1..]);
      assert ReplaceNonAlnumRuns(alnum, s) == [s[0]] + rest;
    } else {
      var t := SkipNonAlnum(alnum, s[1..]);
      ReplacedShape(alnum, t);
      var rest := ReplaceNonAlnumRuns(alnum, t);
      assert ReplaceNonAlnumRuns(alnum, s) == "-" + rest;
    }
  }

  lemma {:induction false} ReplacedNoDoubleDash(alnum: char -> bool, s: string)
    requires !alnum('-')
    ensures NoDoubleDash(ReplaceNonAlnumRuns(alnum, s))
    decreases |s|
  {
    if s == [] {
    } else if alnum(s[0]) {
      ReplacedNoDoubleDash(alnum, s[1..]);
      var rest := ReplaceNonAlnumRuns(alnum, s[1..]);
      assert ReplaceNonAlnumRuns(alnum, s) == [s[0]] + rest;
    } else {
      var t := SkipNonAlnum(alnum, s[1..]);
      ReplacedNoDoubleDash(alnum, t);
      var rest := ReplaceNonAlnumRuns(alnum, t);
      assert ReplaceNonAlnumRuns(alnum, s) == "-" + rest;
    }
  }

  lemma {:induction false} ReplacedFixedBy(alnum: char -> bool, f: char -> char, s: string)
    requires FixedBy(f, s) && f('-') == '-'
    ensures FixedBy(f, ReplaceNonAlnumRuns(alnum, s))
    decreases |s|
  {
    if s == [] {
    } else if alnum(s[0]) {
      assert FixedBy(f, s[1..]);
      ReplacedFixedBy(alnum, f, s[1..]);
      var rest := ReplaceNonAlnumRuns(alnum, s[1..]);
      assert ReplaceNonAlnumRuns(alnum, s) == [s[0]] + rest;
    } else {
      var t := SkipNonAlnum(alnum, s[1..]);
      SkipIsSuffix(alnum, s[1..]);
      assert FixedBy(f, t) by {
        assert forall j :: 0 <= j < |t| ==> t[j] == s[|s| - |t| + j];
      }
      ReplacedFixedBy(alnum, f, t);
      var rest := ReplaceNonAlnumRuns(alnum, t);
      assert ReplaceNonAlnumRuns(alnum, s) == "-" + rest;
    }
  }

  lemma {:induction false} ReplacedKeepsAlnum(alnum: char -> bool, s: string)
    requires !alnum('-')
    ensures Filter(ReplaceNonAlnumRuns(alnum, s), alnum) == Filter(s, alnum)
    decreases |s|
  {
    if s == [] {
    } else if alnum(s[0]) {
      ReplacedKeepsAlnum(alnum, s[1..]);
      var rest := ReplaceNonAlnumRuns(alnum, s[1..]);
      assert ([s[0]] + rest)[1..] == rest;
    } else {
      var t := SkipNonAlnum(alnum, s[1..]);
      SkipKeepsAlnum(alnum, s[1..]);
      ReplacedKeepsAlnum(alnum, t);
      var rest := ReplaceNonAlnumRuns(alnum, t);
      assert ("-" + rest)[1..] == rest;
    }
  }

  /** The per-character shape of a collapsed string, which every slice of
      it inherits. */
  ghost predicate CollapsedShape(alnum: char -> bool, f: char -> char, s: string)
  {
    NoDoubleDash(s) && DashOrAlnum(alnum, s) && FixedBy(f, s)
  }

  lemma SliceKeepsShape(alnum: char -> bool, f: char -> char, s: string, a: nat, b: nat)
    requires a <= b <= |s|
    requires CollapsedShape(alnum, f, s)
    ensures CollapsedShape(alnum, f, s[a..b])
  {
    assert forall i :: 0 <= i < b - a ==> s[a..b][i] == s[a + i];
  }

  /** Trimming leading dashes loses no letter or digit and keeps the shape. */
  lemma {:induction false} TrimLeadingKeeps(alnum: char -> bool, f: char -> char, s: string)
    requires !alnum('-')
    ensures Filter(TrimLeadingDashes(s), alnum) == Filter(s, alnum)
    ensures CollapsedShape(alnum, f, s) ==> CollapsedShape(alnum, f, TrimLeadingDashes(s))
  {
    if s != [] && s[0] == '-' {
      if CollapsedShape(alnum, f, s) {
        SliceKeepsShape(alnum, f, s, 1, |s|);
      }
      TrimLeadingKeeps(alnum, f, s[1..]);
    }
  }

  /** Trimming trailing dashes loses no letter or digit and keeps the shape. */
  lemma TrimTrailingKeeps(alnum: char -> bool, f: char -> char, s: string)
    requires !alnum('-')
    ensures Filter(TrimTrailingDashes(s), alnum) == Filter(s, alnum)
    ensures CollapsedShape(alnum, f, s) ==> CollapsedShape(alnum, f, TrimTrailingDashes(s))
  {
    TrimTrailingIsPrefix(s);
    DropDashesKeepsAlnum(alnum, s, TrimTrailingDashes(s));
    if CollapsedShape(alnum, f, s) {
      SliceKeepsShape(alnum, f, s, 0, |TrimTrailingDashes(s)|);
    }
  }

  lemma DropDashesKeepsAlnum(alnum: char -> bool, s: string, r: string)
    requires !alnum('-')
    requires |r| <= |s| && r == s[..|r|] && forall i :: |r| <= i < |s| ==> s[i] == '-'
    ensures Filter(r, alnum) == Filter(s, alnum)
  {
    var dashes := s[|r|..];
    assert s == r + dashes;
    FilterAppend(r, dashes, alnum);
    FilterNone(dashes, alnum);
  }

  /** Trimming trailing dashes keeps a prefix and drops only dashes. */
  lemma {:induction false} TrimTrailingIsPrefix(s: string)
    ensures var r := TrimTrailingDashes(s);
      r == s[..|r|] && forall i :: |r| <= i < |s| ==> s[i] == '-'
  {
    if s != [] && s[|s| - 1] == '-' {
      TrimTrailingIsPrefix(s[..|s| - 1]);
    }
  }

  /** A text of letters and digits only is left as it is. */
  lemma {:induction false} ReplaceKeepsAlnumText(alnum: char -> bool, s: string)
    requires forall i :: 0 <= i < |s| ==> alnum(s[i])
    ensures ReplaceNonAlnumRuns(alnum, s) == s
    decreases |s|
  {
    if s != [] {
      ReplaceKeepsAlnumText(alnum, s[1..]);
    }
  }

  /** Skipping stops at the first letter or digit: when `x` ends in one,
      whatever follows `x` is left alone, and the skip keeps that last
      character. */
  lemma {:induction false} SkipAppend(alnum: char -> bool, x: string, b: string)
    requires x != [] && alnum(x[|x| - 1])
    ensures SkipNonAlnum(alnum, x + b) == SkipNonAlnum(alnum, x) + b
    ensures var t := SkipNonAlnum(alnum, x); t != [] && alnum(t[|t| - 1])
    decreases |x|
  {
    if !alnum(x[0]) {
      assert (x + b)[1..] == x[1..] + b;
      SkipAppend(alnum, x[1..], b);
    }
  }

  /** Skipping a run of non-letters and non-digits lands on what follows. */
  lemma {:induction false} SkipRun(alnum: char -> bool, run: string, b: string)
    requires forall i :: 0 <= i < |run| ==> !alnum(run[i])
    requires b == [] || alnum(b[0])
    ensures SkipNonAlnum(alnum, run + b) == b
    decreases |run|
  {
    if run == [] {
      assert run + b == b;
    } else {
      assert (run + b)[1..] == run[1..] + b;
      SkipRun(alnum, run[1..], b);
    }
  }

  /** Unfolding the replacement on a text that starts with a letter or digit. */
  lemma ReplaceCons(alnum: char -> bool, c: char, t: string)
    requires alnum(c)
    ensures ReplaceNonAlnumRuns(alnum, [c] + t) == [c] + ReplaceNonAlnumRuns(alnum, t)
  {
    assert ([c] + t)[1..] == t;
  }

  /** Unfolding the replacement on a text that starts with anything else. */
  lemma ReplaceConsRun(alnum: char -> bool, c: char, t: string)
    requires !alnum(c)
    ensures ReplaceNonAlnumRuns(alnum, [c] + t) == "-" + ReplaceNonAlnumRuns(alnum, SkipNonAlnum(alnum, t))
  {
    assert ([c] + t)[1..] == t;
  }

  /** The replacement works piece by piece when the text is cut right after
      a letter or digit. */
  lemma {:induction false} ReplaceAppend(alnum: char -> bool, a: string, b: string)
    requires a == [] || alnum(a[|a| - 1])
    ensures ReplaceNonAlnumRuns(alnum, a + b) == ReplaceNonAlnumRuns(alnum, a) + ReplaceNonAlnumRuns(alnum, b)
    decreases |a|
  {
    if a == [] {
      assert a + b == b;
    } else if alnum(a[0]) {
      ReplaceAppend(alnum, a[1..], b);
      ReplaceAppendCopied(alnum, a, b);
    } else {
      SkipAppend(alnum, a[1..], b);
      ReplaceAppend(alnum, SkipNonAlnum(alnum, a[1..]), b);
      ReplaceAppendRun(alnum, a, b);
    }
  }

  /** The step of `ReplaceAppend` for a leading letter or digit. */
  lemma ReplaceAppendCopied(alnum: char -> bool, a: string, b: string)
    requires a != [] && alnum(a[0])
    requires ReplaceNonAlnumRuns(alnum, a[1..] + b)
          == ReplaceNonAlnumRuns(alnum, a[1..]) + ReplaceNonAlnumRuns(alnum, b)
    ensures ReplaceNonAlnumRuns(alnum, a + b) == ReplaceNonAlnumRuns(alnum, a) + ReplaceNonAlnumRuns(alnum, b)
  {
    var a0, a1 := a[0], a[1..];
    SplitHead(a, b);
    ReplaceCons(alnum, a0, a1 + b);
    ReplaceCons(alnum, a0, a1);
    var ra, rb := ReplaceNonAlnumRuns(alnum, a1), ReplaceNonAlnumRuns(alnum, b);
    AppendAssoc([a0], ra, rb);
  }

  /** The step of `ReplaceAppend` for a leading run that becomes `-`. */
  lemma ReplaceAppendRun(alnum: char -> bool, a: string, b: string)
    requires a != [] && !alnum(a[0])
    requires SkipNonAlnum(alnum, a[1..] + b) == SkipNonAlnum(alnum, a[1..]) + b
    requires var t := SkipNonAlnum(alnum, a[1..]);
      ReplaceNonAlnumRuns(alnum, t + b) == ReplaceNonAlnumRuns(alnum, t) + ReplaceNonAlnumRuns(alnum, b)
    ensures ReplaceNonAlnumRuns(alnum, a + b) == ReplaceNonAlnumRuns(alnum, a) + ReplaceNonAlnumRuns(alnum, b)
  {
    var a0, a1 := a[0], a[1..];
    SplitHead(a, b);
    ReplaceConsRun(alnum, a0, a1 + b);
    ReplaceConsRun(alnum, a0, a1);
    var t := SkipNonAlnum(alnum, a1);
    var rt, rb := ReplaceNonAlnumRuns(alnum, t), ReplaceNonAlnumRuns(alnum, b);
    AppendAssoc("-", rt, rb);
  }

  /** A non-empty run of non-letters and non-digits, up to the next letter
      or digit, becomes exactly one `-`. */
  lemma ReplaceRun(alnum: char -> bool, run: string, b: string)
    requires run != [] && forall i :: 0 <= i < |run| ==> !alnum(run[i])
    requires b == [] || alnum(b[0])
    ensures ReplaceNonAlnumRuns(alnum, run + b) == "-" + ReplaceNonAlnumRuns(alnum, b)
  {
    SplitHead(run, b);
    SkipRun(alnum, run[1..], b);
    ReplaceConsRun(alnum, run[0], run[1..] + b);
  }

  /** Trimming leading dashes keeps a suffix and drops only dashes. */
  lemma {:induction false} TrimLeadingIsSuffix(s: string)
    ensures var r := TrimLeadingDashes(s);
      |r| <= |s| && r == s[|s| - |r|..] && forall i :: 0 <= i < |s| - |r| ==> s[i] == '-'
  {
    if s != [] && s[0] == '-' {
      TrimLeadingIsSuffix(s[1..]);
    }
  }

  /** Trimming removes the leading and the trailing run of dashes and
      nothing else: what is left is a slice of the text, with only dashes
      before and after it. */
  lemma TrimDashesSlice(s: string)
    ensures exists i, j :: && 0 <= i <= j <= |s| && TrimDashes(s) == s[i..j]
                           && (forall k :: 0 <= k < i ==> s[k] == '-')
                           && (forall k :: j <= k < |s| ==> s[k] == '-')
  {
    var i, j := TrimDashesBounds(s);
  }

  /** The two ends `TrimDashesSlice` speaks of. */
  lemma TrimDashesBounds(s: string) returns (i: nat, j: nat)
    ensures i <= j <= |s| && TrimDashes(s) == s[i..j]
    ensures forall k :: 0 <= k < i ==> s[k] == '-'
    ensures forall k :: j <= k < |s| ==> s[k] == '-'
  {
    TrimLeadingIsSuffix(s);
    var l := TrimLeadingDashes(s);
    i := |s| - |l|;
    TrimTrailingIsPrefix(l);
    var r := TrimTrailingDashes(l);
    j := i + |r|;
    SliceOfSuffix(s, i, |r|);
  }

  /** Two words joined by any run of characters that are neither letters
      nor digits slug to the words joined by one `-`: `My Note` becomes
      `my-note`, not `mynote`. */
  lemma SlugOfTwoWords(cm: CharModel, u: string, sep: string, v: string)
    requires u != [] && forall i :: 0 <= i < |u| ==> cm.isLetterOrDigit(u[i]) && cm.lower(u[i]) == u[i]
    requires v != [] && forall i :: 0 <= i < |v| ==> cm.isLetterOrDigit(v[i]) && cm.lower(v[i]) == v[i]
    requires sep != [] && forall i :: 0 <= i < |sep| ==> !cm.isLetterOrDigit(cm.lower(sep[i]))
    ensures SlugifyClassic(cm, u + sep + v) == u + "-" + v
  {
    var l := Lower(cm, sep);
    LowerOfJoin(cm, u, sep, v);
    ReplaceTwoWords(cm.isLetterOrDigit, u, l, v);
    var r := u + "-" + v;
    assert IsSeparator('-');
    assert r[0] == u[0] && r[|r| - 1] == v[|v| - 1];
    TrimUndashed(r);
  }

  lemma ReplaceTwoWords(alnum: char -> bool, u: string, run: string, v: string)
    requires u != [] && forall i :: 0 <= i < |u| ==> alnum(u[i])
    requires v != [] && forall i :: 0 <= i < |v| ==> alnum(v[i])
    requires run != [] && forall i :: 0 <= i < |run| ==> !alnum(run[i])
    ensures ReplaceNonAlnumRuns(alnum, u + (run + v)) == u + "-" + v
  {
    assert alnum(u[|u| - 1]) && alnum(v[0]);
    ReplaceAppend(alnum, u, run + v);
    ReplaceKeepsAlnumText(alnum, u);
    ReplaceRun(alnum, run, v);
    ReplaceKeepsAlnumText(alnum, v);
    AppendAssoc(u, "-", v);
  }

  /** A text with no dash at either end is not trimmed. */
  lemma TrimUndashed(s: string)
    requires s != [] && s[0] != '-' && s[|s| - 1] != '-'
    ensures TrimDashes(s) == s
  {
  }

  lemma LowerOfJoin(cm: CharModel, u: string, sep: string, v: string)
    requires forall i :: 0 <= i < |u| ==> cm.lower(u[i]) == u[i]
    requires forall i :: 0 <= i < |v| ==> cm.lower(v[i]) == v[i]
    ensures Lower(cm, u + sep + v) == u + (Lower(cm, sep) + v)
  {
    var s := u + sep + v;
    assert forall i :: 0 <= i < |s| ==> Lower(cm, s)[i] == (u + (Lower(cm, sep) + v))[i];
  }

  /** `slugifyClassic` keeps every letter and digit of the lower-cased title,
      in order; everything else it drops or turns into dashes. */
  lemma SlugifyClassicKeepsAlnum(cm: CharModel, title: string)
    ensures Filter(SlugifyClassic(cm, title), cm.isLetterOrDigit)
         == Filter(Lower(cm, title), cm.isLetterOrDigit)
  {
    var alnum := cm.isLetterOrDigit;
    var lowered := Lower(cm, title);
    ReplacedKeepsAlnum(alnum, lowered);
    var replaced := ReplaceNonAlnumRuns(alnum, lowered);
    TrimLeadingKeeps(alnum, cm.lower, replaced);
    TrimTrailingKeeps(alnum, cm.lower, TrimLeadingDashes(replaced));
  }

  /** `noteFileNameFromTitle`: the slug with `.md` appended, so that
      stripping the extension gives the slug back. */
  function NoteFileNameFromTitle(cm: CharModel, title: string): (r: string)
    ensures |r| >= 3 && r[|r| - 3..] == ".md"
    ensures HasNoteExtension(r)
    ensures StripExtension(r) == SlugifyTitle(cm, title)
  {
    var slug := SlugifyTitle(cm, title);
    StripExtensionOfMd(slug);
    slug + ".md"
  }

  /** Titles made only of characters that are separators or lower-case to a
      letter or digit, and that carry no note extension. */
  ghost predicate SlugSafeTitle(cm: CharModel, title: string)
  {
    && StripExtension(title) == title
    && forall i :: 0 <= i < |title| ==> IsSeparator(title[i]) || cm.isLetterOrDigit(cm.lower(title[i]))
  }

  /** For such a title the file created for it fuzzy-matches the title, so a
      note created by go-to-definition is found by name afterwards. */
  lemma NoteFileNameMatchesTitle(cm: CharModel, title: string)
    requires SlugSafeTitle(cm, title)
    ensures FuzzyMatchText(cm, NoteFileNameFromTitle(cm, title), title)
  {
    var lowered := Lower(cm, title);
    NormalizeNoteFile(cm, title);
    assert Normalize(cm, title) == DeleteSeparators(lowered);
    SlugifyClassicKeepsAlnum(cm, title);
    assert forall i :: 0 <= i < |lowered| ==> (IsWordChar(lowered[i]) <==> cm.isLetterOrDigit(lowered[i]));
    FilterCongruent(lowered, IsWordChar, cm.isLetterOrDigit);
  }

  /** Conversely, a title without an extension that holds a character which
      is neither a separator nor lower-cases to a letter or digit (`+`, say)
      loses that character in the slug but keeps it in its normal form, so
      the created file does not fuzzy-match the title. */
  lemma NoteFileNameMissesUnsafeTitle(cm: CharModel, title: string, i: nat)
    requires StripExtension(title) == title
    requires i < |title| && !IsSeparator(title[i]) && !cm.isLetterOrDigit(cm.lower(title[i]))
    ensures !FuzzyMatchText(cm, NoteFileNameFromTitle(cm, title), title)
  {
    var lowered := Lower(cm, title);
    NormalizeNoteFile(cm, title);
    assert Normalize(cm, title) == DeleteSeparators(lowered);
    SlugifyClassicKeepsAlnum(cm, title);
    assert IsWordChar(lowered[i]) && !cm.isLetterOrDigit(lowered[i]);
    FilterWeaker(lowered, cm.isLetterOrDigit, IsWordChar);
  }

  /** The normal form of a created note's file name is the letters and
      digits of its slug. */
  lemma NormalizeNoteFile(cm: CharModel, title: string)
    ensures Normalize(cm, NoteFileNameFromTitle(cm, title))
         == Filter(SlugifyTitle(cm, title), cm.isLetterOrDigit)
  {
    var slug := SlugifyTitle(cm, title);
    assert Lower(cm, slug) == slug;
    FilterCongruent(slug, IsWordChar, cm.isLetterOrDigit);
  }

  // ---------------------------------------------------------------------------
  // Note files
  // ---------------------------------------------------------------------------

  /** `noteFiles` after the workspace listing: the files whose path ends in a
      note extension, in listing order. These are exactly the paths that
      `stripExtension` shortens. */
  function NoteFiles(files: seq<Path>): (r: seq<Path>)
    ensures forall f :: f in r <==> f in files && StripExtension(f) != f
    ensures forall i :: 0 <= i < |r| ==> HasNoteExtension(r[i])
  {
    var r := Filter(files, HasNoteExtension);
    assert forall f :: HasNoteExtension(f) <==> StripExtension(f) != f by {
      forall f ensures HasNoteExtension(f) <==> StripExtension(f) != f {
        if HasNoteExtension(f) {
          assert |StripExtension(f)| < |f|;
        }
      }
    }
    r
  }

  /** The filter keeps the listing order: the note files of two listings
      in a row are those of the first followed by those of the second, and
      a single path stays exactly when it carries a note extension. */
  lemma NoteFilesInOrder(a: seq<Path>, b: seq<Path>, f: Path)
    ensures NoteFiles(a + b) == NoteFiles(a) + NoteFiles(b)
    ensures NoteFiles([f]) == if HasNoteExtension(f) then [f] else []
  {
    FilterAppend(a, b, HasNoteExtension);
    FilterSingle(f, HasNoteExtension);
  }
}
