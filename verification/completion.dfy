/** `WikiLinksCompletionProvider`: the completion list offered inside an
    open wiki-link, and the heading shown when an item is resolved. */
module Completion {
  import opened Common
  import opened Names
  import opened LinkRef
  import opened SortKeys
  import opened Sorting
  import Definitions

  /** The two workspace services the display name uses: whether the
      document lies in a workspace folder (`getWorkspaceFolder`) and
      `asRelativePath`. */
  datatype WorkspaceOps = WorkspaceOps(inWorkspaceFolder: Path -> bool, asRelativePath: Path -> Path)

  /** `getDisplayName`: under the relative-paths convention, for a document
      in a workspace folder, the workspace-relative path; otherwise the
      basename; either way without its extension. */
  function DisplayName(cfg: Config, ws: WorkspaceOps, file: Path, doc: Option<Path>): (r: string)
    ensures !InWorkspaceFolder(cfg, ws, doc) ==> r == StripExtension(Basename(file))
    ensures InWorkspaceFolder(cfg, ws, doc) ==> r == StripExtension(ws.asRelativePath(file))
  {
    if InWorkspaceFolder(cfg, ws, doc) then
      StripExtension(ws.asRelativePath(file))
    else StripExtension(Basename(file))
  }

  /** The relative-paths convention is on, and the document lies in a
      workspace folder. */
  predicate InWorkspaceFolder(cfg: Config, ws: WorkspaceOps, doc: Option<Path>)
  {
    UseRelativePaths(cfg) && doc.Some? && ws.inWorkspaceFolder(doc.value)
  }

  /** A note `dir/x.md` is shown as `x`; inside a workspace folder under the
      relative-paths convention, a note at relative path `rel.md` is shown as
      `rel`. */
  lemma DisplayNameOfMdNote(cfg: Config, ws: WorkspaceOps, doc: Option<Path>, dir: string, x: string, rel: string)
    requires '/' !in x
    ensures var file := dir + "/" + x + ".md";
      && (!InWorkspaceFolder(cfg, ws, doc) ==> DisplayName(cfg, ws, file, doc) == x)
      && (InWorkspaceFolder(cfg, ws, doc) && ws.asRelativePath(file) == rel + ".md" ==>
            DisplayName(cfg, ws, file, doc) == rel)
  {
    AppendAssoc(dir + "/", x, ".md");
    assert '/' !in x + ".md";
    BasenameOfJoin(dir, x + ".md");
    StripExtensionOfMd(x);
    StripExtensionOfMd(rel);
  }

  /** One entry of the search data. */
  datatype SearchItem = SearchItem(file: Path, displayName: string, fileNameWithoutExt: string, relativePath: string)

  function SearchItemFor(cfg: Config, ws: WorkspaceOps, doc: Path, file: Path): (r: SearchItem)
  {
    SearchItem(file, DisplayName(cfg, ws, file, Some(doc)), StripExtension(Basename(file)), ws.asRelativePath(file))
  }

  /** `allFiles.map(...)`: one search item per note file, in order. */
  function SearchData(cfg: Config, ws: WorkspaceOps, doc: Path, files: seq<Path>): (r: seq<SearchItem>)
    ensures |r| == |files|
    ensures forall j :: 0 <= j < |r| ==> r[j] == SearchItemFor(cfg, ws, doc, files[j])
  {
    seq(|files|, j requires 0 <= j < |files| => SearchItemFor(cfg, ws, doc, files[j]))
  }

  /** A search result: the item and its score as `String(score)` prints it
      (`"0"` when the search gives none). */
  datatype Hit = Hit(item: SearchItem, scoreText: string)

  /** Fuse.js, left abstract: search data and a query in, ranked hits out. */
  type Search = (seq<SearchItem>, string) -> seq<Hit>

  function DisplayKey(item: SearchItem): (r: string)
  {
    item.displayName
  }

  /** The empty-query results: every item, sorted by display name, each
      with score 0. */
  function AllByName(data: seq<SearchItem>, le: Le): (r: seq<Hit>)
    ensures |r| == |data|
    ensures forall j :: 0 <= j < |r| ==> r[j].scoreText == "0"
  {
    var sorted := SortBy(data, DisplayKey, le);
    seq(|sorted|, j requires 0 <= j < |sorted| => Hit(sorted[j], "0"))
  }

  /** A `WikiLinksCompletionItem` with the fields the provider sets; its kind
      is always `File`. */
  datatype CompletionItem = CompletionItem(
    labelText: string,
    fsPath: Option<Path>,
    filterText: string,
    insertText: string,
    preselect: bool,
    commitCharacters: seq<string>,
    sortText: string,
    range: Option<Range>,
    detail: Option<string>)

  /** The item for the `index`-th hit of the query `inputText`. */
  function MakeItem(hit: Hit, index: nat, inputText: string, range: Option<Range>): (r: CompletionItem)
  {
    var name := hit.item.displayName;
    CompletionItem(name, Some(hit.item.file), inputText + " " + name, name, index == 0, ["]"],
                   SortText(hit.scoreText, index), range, None)
  }

  /** `provideCompletionItems` on the cursor's line. Off a wiki-link there is
      nothing. For an empty word every note file is offered, sorted by
      display name with score 0; otherwise the search decides. Each item
      inserts its display name over the typed word and keeps `]` as its
      commit character. */
  function ProvideCompletionItems(cfg: Config, ws: WorkspaceOps, doc: Path, line: string, pos: Position,
                                  workspaceFiles: seq<Path>, le: Le, search: Search): (r: seq<CompletionItem>)
    ensures GetWikiLinkOrEmptyAt(line, pos).refType != WikiLink ==> r == []
    ensures GetWikiLinkOrEmptyAt(line, pos).refType == WikiLink ==>
      var ref := GetWikiLinkOrEmptyAt(line, pos);
      var hits := Hits(cfg, ws, doc, ref.word, workspaceFiles, le, search);
      && |r| == |hits|
      && forall j :: 0 <= j < |r| ==>
           && r[j].labelText == r[j].insertText == hits[j].item.displayName
           && r[j].fsPath == Some(hits[j].item.file)
           && r[j].filterText == ref.word + " " + r[j].labelText
           && (r[j].preselect <==> j == 0)
           && r[j].commitCharacters == ["]"]
           && r[j].sortText == SortText(hits[j].scoreText, j)
           && r[j].range == ref.range
           && r[j].detail.None?
  {
    var ref := GetWikiLinkOrEmptyAt(line, pos);
    if ref.refType != WikiLink then []
    else
      var hits := Hits(cfg, ws, doc, ref.word, workspaceFiles, le, search);
      seq(|hits|, j requires 0 <= j < |hits| => MakeItem(hits[j], j, ref.word, ref.range))
  }

  /** The results the items are built from. */
  function Hits(cfg: Config, ws: WorkspaceOps, doc: Path, word: string, workspaceFiles: seq<Path>,
                le: Le, search: Search): (r: seq<Hit>)
  {
    var data := SearchData(cfg, ws, doc, NoteFiles(workspaceFiles));
    if word == "" then AllByName(data, le) else search(data, word)
  }

  /** The items of some hits. */
  function Items(hits: seq<Hit>): (r: seq<SearchItem>)
    ensures |r| == |hits|
    ensures forall j :: 0 <= j < |r| ==> r[j] == hits[j].item
  {
    seq(|hits|, j requires 0 <= j < |hits| => hits[j].item)
  }

  /** With an empty query the hits are the search items of all note files,
      rearranged, in display-name order for a total comparator, and all
      with score 0. */
  lemma EmptyQueryOffersEveryNote(cfg: Config, ws: WorkspaceOps, doc: Path, workspaceFiles: seq<Path>,
                                  le: Le, search: Search)
    requires Total(le)
    ensures var hits := Hits(cfg, ws, doc, "", workspaceFiles, le, search);
      && multiset(Items(hits)) == multiset(SearchData(cfg, ws, doc, NoteFiles(workspaceFiles)))
      && SortedBy(Items(hits), DisplayKey, le)
      && (forall j :: 0 <= j < |hits| ==> hits[j].scoreText == "0")
  {
    var data := SearchData(cfg, ws, doc, NoteFiles(workspaceFiles));
    var sorted := SortBy(data, DisplayKey, le);
    SortBySorted(data, DisplayKey, le);
    var hits := AllByName(data, le);
    assert Items(hits) == sorted;
  }

  /** The first line that starts with `# `, if any. */
  function FirstHeading(lines: seq<string>): (r: Option<string>)
    ensures r.None? <==> forall j :: 0 <= j < |lines| ==> !StartsWith(lines[j], "# ")
    ensures r.Some? ==> exists k :: 0 <= k < |lines| && lines[k] == r.value && StartsWith(lines[k], "# ")
                                    && forall j :: 0 <= j < k ==> !StartsWith(lines[j], "# ")
  {
    if lines == [] then None
    else if StartsWith(lines[0], "# ") then Some(lines[0])
    else
      var r := FirstHeading(lines[1..]);
      assert forall j :: 1 <= j < |lines| ==> lines[j] == lines[1..][j - 1];
      if r.Some? then
        var k :| 0 <= k < |lines[1..]| && lines[1..][k] == r.value && StartsWith(lines[1..][k], "# ")
                 && forall j :: 0 <= j < k ==> !StartsWith(lines[1..][j], "# ");
        assert lines[k + 1] == r.value;
        r
      else r
  }

  /** `resolveCompletionItem`: for an item with a (non-empty) path whose
      file reads and has a `# ` line, the first such line becomes the
      detail, prefix included; in every other case the item is returned
      unchanged. Nothing but the detail ever changes. */
  function ResolveCompletionItem(item: CompletionItem, read: Path -> Option<string>): (r: CompletionItem)
    ensures r == item.(detail := r.detail)
    ensures (item.fsPath.Some? && item.fsPath.value != "" && read(item.fsPath.value).Some?
             && FirstHeading(Split(read(item.fsPath.value).value, '\n')).Some?)
            ==> r.detail == FirstHeading(Split(read(item.fsPath.value).value, '\n'))
    ensures !(item.fsPath.Some? && item.fsPath.value != "" && read(item.fsPath.value).Some?
              && FirstHeading(Split(read(item.fsPath.value).value, '\n')).Some?)
            ==> r == item
  {
    if item.fsPath.None? || item.fsPath.value == "" then item
    else match read(item.fsPath.value)
      case None => item
      case Some(text) =>
        match FirstHeading(Split(text, '\n'))
        case None => item
        case Some(title) => item.(detail := Some(title))
  }

  /** Under unique filenames the label a completion inserts leads back to
      its file: `noteNamesFuzzyMatch(file, label)` holds, provided the
      basename carries at most one note extension. */
  lemma CompletionLabelResolves(cm: CharModel, cfg: Config, ws: WorkspaceOps, doc: Path, file: Path)
    requires UseUniqueFilenames(cfg)
    requires !HasNoteExtension(StripExtension(Basename(file)))
    ensures FuzzyMatch(cm, file, DisplayName(cfg, ws, file, Some(doc)))
  {
    var name := DisplayName(cfg, ws, file, Some(doc));
    assert name == StripExtension(Basename(file));
    assert StripExtension(name) == name;
  }

  /** With two extensions the label keeps the inner one, which the name
      test then strips where the file name keeps it: a note `x.md.md` is
      offered as `x.md`, and `[[x.md]]` does not resolve to it. */
  lemma DoubleExtensionLabelMisses(cm: CharModel, cfg: Config, ws: WorkspaceOps, doc: Path, x: string)
    requires UseUniqueFilenames(cfg)
    requires forall i :: 0 <= i < |x| ==> !IsSeparator(x[i]) && x[i] != '/'
    ensures DisplayName(cfg, ws, x + ".md.md", Some(doc)) == x + ".md"
    ensures !FuzzyMatch(cm, x + ".md.md", DisplayName(cfg, ws, x + ".md.md", Some(doc)))
  {
    var file := x + ".md.md";
    var name := x + ".md";
    DoubleExtensionName(x);
    StripDoubleMd(x);
    DoubleExtensionNormalForms(cm, x);
    assert DisplayName(cfg, ws, file, Some(doc)) == name;
  }

  /** Without a `/` in `x`, `x.md.md` is its own basename. */
  lemma DoubleExtensionName(x: string)
    requires forall i :: 0 <= i < |x| ==> x[i] != '/'
    ensures Basename(x + ".md.md") == x + ".md.md"
  {
    assert '/' !in x;
    assert '/' !in x + ".md.md";
    BasenameNoSlash(x + ".md.md");
  }

  /** The normal forms of `x.md.md` and `x.md` differ in length by two. */
  lemma DoubleExtensionNormalForms(cm: CharModel, x: string)
    requires forall i :: 0 <= i < |x| ==> !IsSeparator(x[i])
    ensures |Normalize(cm, x + ".md.md")| == |x| + 2
    ensures |Normalize(cm, x + ".md")| == |x|
  {
    DoubledNormalForm(cm, x);
    SingleNormalForm(cm, x);
  }

  /** `x.md.md` loses only its last extension and keeps `md`. */
  lemma DoubledNormalForm(cm: CharModel, x: string)
    requires forall i :: 0 <= i < |x| ==> !IsSeparator(x[i])
    ensures |Normalize(cm, x + ".md.md")| == |x| + 2
  {
    DoubleMd(x);
    NormalFormOfMd(cm, x + ".md");
    LowerDotMd(cm, x);
  }

  /** The normal form of `name.md` is that of `name` before its own
      extension is stripped. */
  lemma NormalFormOfMd(cm: CharModel, name: string)
    ensures Normalize(cm, name + ".md") == DeleteSeparators(Lower(cm, name))
  {
    StripExtensionOfMd(name);
  }

  /** `x.md` loses its extension and nothing else. */
  lemma SingleNormalForm(cm: CharModel, x: string)
    requires forall i :: 0 <= i < |x| ==> !IsSeparator(x[i])
    ensures |Normalize(cm, x + ".md")| == |x|
  {
    NormalFormOfMd(cm, x);
    LowerKeepsWordChars(cm, x);
    FilterAll(Lower(cm, x), IsWordChar);
  }

  /** Lower-casing and dropping separators from `x.md` leaves `md` after
      the lower-cased `x`, two characters more than `x` alone keeps. */
  lemma LowerDotMd(cm: CharModel, x: string)
    requires forall i :: 0 <= i < |x| ==> !IsSeparator(x[i])
    ensures |DeleteSeparators(Lower(cm, x + ".md"))| == |x| + 2
  {
    var l := Lower(cm, x);
    assert Lower(cm, x + ".md") == l + Lower(cm, ".md");
    FilterAppend(l, Lower(cm, ".md"), IsWordChar);
    LowerKeepsWordChars(cm, x);
    FilterAll(l, IsWordChar);
    LowerDotMdSuffix(cm);
  }

  /** Lower-casing never makes a separator. */
  lemma LowerKeepsWordChars(cm: CharModel, x: string)
    requires forall i :: 0 <= i < |x| ==> !IsSeparator(x[i])
    ensures forall i :: 0 <= i < |Lower(cm, x)| ==> IsWordChar(Lower(cm, x)[i])
  {
  }

  lemma LowerDotMdSuffix(cm: CharModel)
    ensures |DeleteSeparators(Lower(cm, ".md"))| == 2
  {
    assert cm.lower('.') == '.' && cm.lower('m') == 'm' && cm.lower('d') == 'd';
    assert Lower(cm, ".md") == ".md";
    assert ".md" == ['.'] + ['m', 'd'];
    FilterAppend(['.'], ['m', 'd'], IsWordChar);
    FilterAll(['m', 'd'], IsWordChar);
  }

  /** The heading a created note starts with is the one resolving an item
      for it shows. */
  lemma CreatedNoteHeading(title: string)
    requires '\n' !in title
    ensures FirstHeading(Split(Definitions.NewNoteContent(title), '\n')) == Some("# " + title)
  {
    var lines := Split(Definitions.NewNoteContent(title), '\n');
    assert lines[0] == "# " + title;
    assert StartsWith(lines[0], "# ");
  }

  /** Resolving a completion item for a note that go-to-definition created
      sets its detail to the note's heading and changes nothing else. */
  lemma ResolveCreatedNote(item: CompletionItem, read: Path -> Option<string>, title: string)
    requires item.fsPath.Some? && item.fsPath.value != ""
    requires read(item.fsPath.value) == Some(Definitions.NewNoteContent(title))
    requires '\n' !in title
    ensures ResolveCompletionItem(item, read) == item.(detail := Some("# " + title))
  {
    CreatedNoteHeading(title);
  }
}
