/** `WikiLinksDefinitionProvider`: resolving a wiki-link to note files, and
    creating the note when nothing resolves. */
module Definitions {
  import opened Common
  import opened Names
  import opened LinkRef

  /** The disk as `existsSync` and `writeFile` see it: file contents by path,
      and the directories. */
  datatype FileSystem = FileSystem(files: map<Path, string>, dirs: set<Path>)

  /** `existsSync`: a file or a directory is there. */
  predicate Exists(fs: FileSystem, p: Path)
  {
    p in fs.files || p in fs.dirs
  }

  /** `path.dirname` and `path.resolve`, which the model leaves abstract. */
  datatype PathOps = PathOps(dirname: Path -> Path, resolve: (Path, Path) -> Path)

  /** What the model assumes of `resolve`: a plain file name (not `.` or
      `..`) resolved against a directory ends in that name. */
  ghost predicate ResolvesIntoDir(paths: PathOps)
  {
    forall dir, name :: '/' !in name && name != [] && name != "." && name != ".." ==>
      Basename(paths.resolve(dir, name)) == name
  }

  /** The test applied to each note file: `noteNamesFuzzyMatch(f.fsPath, word)`. */
  function NameMatcher(cm: CharModel, word: string): (r: Path -> bool)
  {
    (f: Path) => FuzzyMatch(cm, f, word)
  }

  /** The note files whose name matches, under the unique-filenames
      convention only. */
  function NameMatches(cm: CharModel, cfg: Config, word: string, noteFiles: seq<Path>): (r: seq<Path>)
    ensures !UseUniqueFilenames(cfg) ==> r == []
    ensures UseUniqueFilenames(cfg) ==>
      forall f :: f in r <==> f in noteFiles && FuzzyMatch(cm, f, word)
  {
    if UseUniqueFilenames(cfg) then Filter(noteFiles, NameMatcher(cm, word)) else []
  }

  /** The name search keeps the listing order: the matches among two
      listings in a row are those of the first followed by those of the
      second, and a single file is kept exactly when its name matches. */
  lemma NameMatchesInOrder(cm: CharModel, cfg: Config, word: string, a: seq<Path>, b: seq<Path>, f: Path)
    ensures NameMatches(cm, cfg, word, a + b) == NameMatches(cm, cfg, word, a) + NameMatches(cm, cfg, word, b)
    ensures NameMatches(cm, cfg, word, [f]) ==
      if UseUniqueFilenames(cfg) && FuzzyMatch(cm, f, word) then [f] else []
  {
    if UseUniqueFilenames(cfg) {
      FilterAppend(a, b, NameMatcher(cm, word));
      FilterSingle(f, NameMatcher(cm, word));
    }
  }

  /** The name search comes back empty exactly when the convention is not
      unique filenames or no note file's name matches. */
  lemma NameMatchesEmpty(cm: CharModel, cfg: Config, word: string, noteFiles: seq<Path>)
    ensures NameMatches(cm, cfg, word, noteFiles) == [] <==>
      !UseUniqueFilenames(cfg) || forall f :: f in noteFiles ==> !FuzzyMatch(cm, f, word)
  {
    var r := NameMatches(cm, cfg, word, noteFiles);
    if UseUniqueFilenames(cfg) && r != [] {
      assert r[0] in r;
    }
  }

  /** Where the fallback looks: the word resolved against the directory of
      the document. */
  function RelativeTarget(paths: PathOps, doc: Path, word: string): (r: Path)
  {
    paths.resolve(paths.dirname(doc), word)
  }

  /** `_filesForWikiLinkRefAndNoteFiles`. Under unique filenames, the note
      files whose basename fuzzy-matches the word, in order; when there are
      none (always, under any other convention) and there is a document, the
      word taken as a path relative to that document if something exists
      there; otherwise nothing. */
  function FilesForRef(cm: CharModel, cfg: Config, ref: WikiLinkRef, doc: Option<Path>,
                       noteFiles: seq<Path>, paths: PathOps, fs: FileSystem): (r: seq<Path>)
    ensures NameMatches(cm, cfg, ref.word, noteFiles) != [] ==> r == NameMatches(cm, cfg, ref.word, noteFiles)
    ensures NameMatches(cm, cfg, ref.word, noteFiles) == [] ==>
      r == (if doc.Some? && Exists(fs, RelativeTarget(paths, doc.value, ref.word))
            then [RelativeTarget(paths, doc.value, ref.word)] else [])
  {
    var byName := NameMatches(cm, cfg, ref.word, noteFiles);
    if byName == [] && doc.Some? then
      var target := RelativeTarget(paths, doc.value, ref.word);
      if Exists(fs, target) then [target] else []
    else byName
  }

  /** Outcome of `createMissingNote`: the path it returns, the disk after
      it, and whether it showed the convention warning. */
  datatype Creation = Creation(path: Option<Path>, fs: FileSystem, warned: bool)

  /** The file name a new note for `word` gets: the slug of the word without
      its extension, plus `.md`. */
  function NewNoteName(cm: CharModel, word: string): (r: string)
  {
    NoteFileNameFromTitle(cm, StripExtension(word))
  }

  /** The first lines of a new note: a level-one heading with the title,
      then a blank line. */
  function NewNoteContent(title: string): (r: string)
    ensures StartsWith(r, "# ") && r[2..] == title + "\n\n"
    ensures '\n' !in title ==> Split(r, '\n') == ["# " + title, "", ""]
  {
    var r := "# " + title + "\n\n";
    if '\n' !in title then NewNoteLines(title); r else r
  }

  lemma NewNoteLines(title: string)
    requires '\n' !in title
    ensures Split("# " + title + "\n\n", '\n') == ["# " + title, "", ""]
  {
    var heading := "# " + title;
    assert '\n' !in heading;
    assert "# " + title + "\n\n" == heading + ['\n'] + "\n";
    SplitAt(heading, "\n", '\n');
    assert "\n" == [] + ['\n'] + [];
    SplitAt([], [], '\n');
    assert Split([], '\n') == [[]];
  }

  /** `createMissingNote`. Only for a wiki-link, with the setting on and an
      active editor; under another convention it only warns. Otherwise the
      note goes next to the active file, is written only when nothing
      exists there yet, and its path is returned either way. */
  function CreateMissingNote(cm: CharModel, cfg: Config, ref: WikiLinkRef, active: Option<Path>,
                             paths: PathOps, fs: FileSystem): (r: Creation)
    ensures r.path.Some? <==>
      ref.refType == WikiLink && cfg.createNoteOnGoToDefinitionWhenMissing && active.Some? && UseUniqueFilenames(cfg)
    ensures r.warned <==>
      ref.refType == WikiLink && cfg.createNoteOnGoToDefinitionWhenMissing && active.Some? && !UseUniqueFilenames(cfg)
    ensures r.path.None? ==> r.fs == fs
    ensures r.path.Some? ==>
      && r.path.value == paths.resolve(paths.dirname(active.value), NewNoteName(cm, ref.word))
      && Exists(r.fs, r.path.value)
      && r.fs.dirs == fs.dirs
      && (Exists(fs, r.path.value) ==> r.fs == fs)
      && (!Exists(fs, r.path.value) ==>
            r.fs.files == fs.files[r.path.value := NewNoteContent(StripExtension(ref.word))])
  {
    if ref.refType != WikiLink then Creation(None, fs, false)
    else if !cfg.createNoteOnGoToDefinitionWhenMissing then Creation(None, fs, false)
    else if active.None? then Creation(None, fs, false)
    else if !UseUniqueFilenames(cfg) then Creation(None, fs, true)
    else
      var title := StripExtension(ref.word);
      var target := paths.resolve(paths.dirname(active.value), NoteFileNameFromTitle(cm, title));
      if Exists(fs, target) then Creation(Some(target), fs, false)
      else Creation(Some(target), fs.(files := fs.files[target := NewNoteContent(title)]), false)
  }

  /** What `provideDefinition` yields: the locations, the disk after it and
      whether a warning was shown. */
  datatype Definition = Definition(locations: seq<Location>, fs: FileSystem, warned: bool)

  /** The start of a file, where every definition location points. */
  const FileStart: Range := Range(Position(0, 0), Position(0, 0))

  function AtFileStart(files: seq<Path>): (r: seq<Location>)
    ensures |r| == |files|
    ensures forall j :: 0 <= j < |r| ==> r[j] == Location(files[j], FileStart)
  {
    seq(|files|, j requires 0 <= j < |files| => Location(files[j], FileStart))
  }

  /** `provideDefinition`. Nothing off a wiki-link. Otherwise the files
      `FilesForRef` finds, each at its start; only when it finds none is the
      missing note created, and its path, if any, is the one location. */
  function ProvideDefinition(cm: CharModel, cfg: Config, ref: Option<WikiLinkRef>, doc: Option<Path>,
                             active: Option<Path>, workspaceFiles: seq<Path>, paths: PathOps,
                             fs: FileSystem): (r: Definition)
    ensures forall j :: 0 <= j < |r.locations| ==> r.locations[j].range == FileStart
    ensures (ref.None? || ref.value.refType != WikiLink) ==> r == Definition([], fs, false)
    ensures ref.Some? && ref.value.refType == WikiLink ==>
      var found := FilesForRef(cm, cfg, ref.value, doc, NoteFiles(workspaceFiles), paths, fs);
      var created := CreateMissingNote(cm, cfg, ref.value, active, paths, fs);
      && (found != [] ==> r == Definition(AtFileStart(found), fs, false))
      && (found == [] ==> r.fs == created.fs && r.warned == created.warned
                          && |r.locations| <= 1
                          && (r.locations != [] <==> created.path.Some?)
                          && (created.path.Some? ==> r.locations[0].file == created.path.value))
  {
    if ref.None? || ref.value.refType != WikiLink then Definition([], fs, false)
    else
      var found := FilesForRef(cm, cfg, ref.value, doc, NoteFiles(workspaceFiles), paths, fs);
      if found != [] then Definition(AtFileStart(found), fs, false)
      else
        var created := CreateMissingNote(cm, cfg, ref.value, active, paths, fs);
        var files := if created.path.Some? then [created.path.value] else [];
        Definition(AtFileStart(files), created.fs, created.warned)
  }

  /** Going to the definition again finds the note just created: asking a
      second time returns the same path and writes nothing. */
  lemma CreateMissingNoteIdempotent(cm: CharModel, cfg: Config, ref: WikiLinkRef, active: Option<Path>,
                                    paths: PathOps, fs: FileSystem)
    ensures var first := CreateMissingNote(cm, cfg, ref, active, paths, fs);
      CreateMissingNote(cm, cfg, ref, active, paths, first.fs) == first
  {
  }

  /** Creating a note never changes a file that was already there. */
  lemma CreateMissingNoteKeepsFiles(cm: CharModel, cfg: Config, ref: WikiLinkRef, active: Option<Path>,
                                    paths: PathOps, fs: FileSystem, p: Path)
    requires p in fs.files
    ensures var c := CreateMissingNote(cm, cfg, ref, active, paths, fs);
      p in c.fs.files && c.fs.files[p] == fs.files[p]
  {
  }

  /** The new note's file name is a plain name ending in `.md`. */
  lemma NewNoteNameShape(cm: CharModel, word: string)
    ensures var name := NewNoteName(cm, word);
      name != [] && '/' !in name && name[|name| - 3..] == ".md"
  {
    var title := StripExtension(word);
    var slug := SlugifyTitle(cm, title);
    SlugHasNoSlash(cm, slug);
    assert '/' !in slug + ".md";
  }

  /** A slug holds only dashes, letters and digits, never `/`. */
  lemma SlugHasNoSlash(cm: CharModel, slug: string)
    requires IsSlug(cm, slug)
    ensures '/' !in slug
  {
    assert !cm.isLetterOrDigit('/');
  }

  /** A path that ends in `.md` is a note file. */
  lemma MdPathIsNote(p: Path)
    requires |p| >= 3 && p[|p| - 3..] == ".md"
    ensures HasNoteExtension(p)
  {
    assert p == p[..|p| - 3] + ".md";
    StripExtensionOfMd(p[..|p| - 3]);
  }

  /** For a title the slugger keeps whole, the new note's file name
      fuzzy-matches the link word. */
  lemma NewNoteMatchesWord(cm: CharModel, word: string)
    requires SlugSafeTitle(cm, StripExtension(word))
    ensures FuzzyMatchText(cm, NewNoteName(cm, word), word)
  {
    var title := StripExtension(word);
    NoteFileNameMatchesTitle(cm, title);
    assert Normalize(cm, title) == Normalize(cm, word);
  }

  /** Once the note created for a link is listed in the workspace, the next
      go-to-definition finds it by name, provided the slugger kept the
      title whole (see `Names.NoteFileNameMissesUnsafeTitle` for when it
      does not). */
  lemma CreatedNoteIsFound(cm: CharModel, cfg: Config, ref: WikiLinkRef, doc: Option<Path>,
                           active: Option<Path>, workspaceFiles: seq<Path>, paths: PathOps, fs: FileSystem)
    requires ResolvesIntoDir(paths)
    requires ref.refType == WikiLink && cfg.createNoteOnGoToDefinitionWhenMissing
    requires active.Some? && UseUniqueFilenames(cfg)
    requires SlugSafeTitle(cm, StripExtension(ref.word))
    requires CreateMissingNote(cm, cfg, ref, active, paths, fs).path.value in workspaceFiles
    ensures var c := CreateMissingNote(cm, cfg, ref, active, paths, fs);
      c.path.value in FilesForRef(cm, cfg, ref, doc, NoteFiles(workspaceFiles), paths, c.fs)
  {
    var c := CreateMissingNote(cm, cfg, ref, active, paths, fs);
    var path := c.path.value;
    var name := NewNoteName(cm, ref.word);
    var noteFiles := NoteFiles(workspaceFiles);
    NewNoteNameShape(cm, ref.word);
    assert Basename(path) == name;
    MdBasenameIsNote(path, name);
    NewNoteMatchesWord(cm, ref.word);
    assert FuzzyMatch(cm, path, ref.word);
    FoundByName(cm, cfg, ref, doc, noteFiles, paths, c.fs, path);
  }

  /** A path whose basename ends in `.md` is a note file. */
  lemma MdBasenameIsNote(path: Path, name: string)
    requires Basename(path) == name && |name| >= 3 && name[|name| - 3..] == ".md"
    ensures HasNoteExtension(path)
  {
    assert path[|path| - 3..] == name[|name| - 3..];
    MdPathIsNote(path);
  }

  /** Under unique filenames a note file whose name matches is among the
      files found for the link. */
  lemma FoundByName(cm: CharModel, cfg: Config, ref: WikiLinkRef, doc: Option<Path>, noteFiles: seq<Path>,
                    paths: PathOps, fs: FileSystem, f: Path)
    requires UseUniqueFilenames(cfg) && f in noteFiles && FuzzyMatch(cm, f, ref.word)
    ensures f in FilesForRef(cm, cfg, ref, doc, noteFiles, paths, fs)
  {
    assert f in NameMatches(cm, cfg, ref.word, noteFiles);
  }
}
