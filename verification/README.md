# Wiki-link resolution in Dafny

A Dafny model of how a VS Code wiki-link extension resolves links between
markdown notes. A note refers to another as `[[name]]`. The model covers the
string logic behind these editor features:

- the link under the cursor (`getWikiLinkOrEmptyAt`);
- "find references", which scans every note line by line for
  `[[...]]` links whose text matches;
- "go to definition", which finds note files by name, falls back to a
  path relative to the document, and can create the missing note;
- completion items offered inside an open `[[`, and the heading shown
  when one is resolved;
- underneath all of them: extension stripping, fuzzy name normalisation
  and the slugger that turns a title into a file name.

Modules, one per concern:

| module | file | models |
|---|---|---|
| `Common` | common.dfy | `Option`, order-preserving filter, `split`/`join` on one character, concatenation of per-file results |
| `Names` | names.dfy | `WikiLinksWorkspace`: conventions, `stripExtension`, `normalizeNoteNameForFuzzyMatch`, the two fuzzy matches, `basename`, `slugifyClassic`, `noteFileNameFromTitle`, the note-file filter |
| `LinkRef` | link_ref.dfy | `WikiLinksRef`: `WikiLinkRef`, `NULL_WIKI_LINK_REF`, `getWikiLinkOrEmptyAt` |
| `LinkScanner` | link_scanner.dfy | the global regular expression `\[\[[^\]]+\]\]` run over one line |
| `References` | references.dfy | `WikiLinksReferenceProvider.provideReferences` |
| `Definitions` | definitions.dfy | `WikiLinksDefinitionProvider`: `_filesForWikiLinkRefAndNoteFiles`, `createMissingNote`, `provideDefinition` |
| `SortKeys` | sort_keys.dfy | the `sortText` key of a completion item and the string order it is compared by |
| `Sorting` | sorting.dfy | `Array.prototype.sort` with a comparator |
| `Completion` | completion.dfy | `getDisplayName` and `WikiLinksCompletionProvider` |

Everything the extension obtains from the editor, the disk or a library
is a parameter:

- `Config` holds the settings.
- `CharModel` holds the Unicode tables: `toLowerCase` on one character,
  and the class `[\p{L}\p{N}]`. The model assumes only that lower-casing
  is idempotent, leaves the separators `[\s\-_.]` alone and never
  produces one, that separators are neither letters nor digits, and
  that on ASCII both tables are the familiar ones.
- `PathOps` stands for `path.dirname` and `path.resolve`.
- `FileSystem` is a map of file contents plus a set of directories.
  `existsSync` means "is a file or a directory there".
- `Reader` stands for `workspace.fs.readFile`; `None` is a read that throws.
- `WorkspaceOps` stands for `getWorkspaceFolder` and `asRelativePath`.
- `Le` stands for the `localeCompare` comparator.
- `Search` stands for Fuse.js.

Three behaviours of the code are easy to misread, and the model keeps them
as they are:

- The word is the text from just after `[[` up to the cursor, not the
  whole link text: inside `[[foo]]` after `fo` the word is `fo`
  (`LinkRef.CursorInsideWordExample`).
- Under the relative-paths convention the definition matcher does no name
  matching at all, only the relative-path fallback (`Definitions.NameMatches`).
- The empty-query completion order is whatever the `localeCompare`
  comparator gives; there is no case folding of its own
  (`Sorting.SortBy` over `Le`).

## Model

| member | source | states |
|---|---|---|
| Common.Filter | src/WikiLinksWorkspace.ts:160 | `Array.filter`: at most as long as the input, every kept element satisfies the test, and an element is kept iff it is in the input and passes |
| Common.Split | src/WikiLinksReferenceProvider.ts:25 | `split('\n')` gives at least one piece, no piece contains the separator, and joining the pieces with it gives the text back |
| Common.SplitJoin | src/WikiLinksReferenceProvider.ts:25 | conversely, splitting a join of separator-free pieces returns exactly those pieces |
| Names.MatchedExtension | src/WikiLinksWorkspace.ts:107-109 | the extension found is one of md, markdown, mdx, fountain, txt, preceded by `.` and matched ignoring ASCII case; when none is found no alternative of the pattern applies |
| Names.ExtensionsUnique | src/WikiLinksWorkspace.ts:108 | at most one alternative of the extension pattern can match a given name |
| Names.StripExtension | src/WikiLinksWorkspace.ts:107-109 | a name comes back unchanged exactly when it ends in no note extension, and is never lengthened |
| Names.StripExtensionRemovesMatch | src/WikiLinksWorkspace.ts:107-109 | when an extension matches, exactly it and its dot are removed and the rest is kept |
| Names.StripExtensionOfMd | src/WikiLinksWorkspace.ts:107-109 | appending `.md` is undone by stripping |
| Names.StripExtensionOfUpperMd | src/WikiLinksWorkspace.ts:108 | the `i` flag: `x.MD` strips to `x` |
| Names.StripDoubleMd | src/WikiLinksWorkspace.ts:107-109 | only the last extension goes: `x.md.md` strips to `x.md` |
| Names.NoDotNoExtension | src/WikiLinksWorkspace.ts:107-109 | a name without `.` has no extension and is returned unchanged |
| Names.Lower | src/WikiLinksWorkspace.ts:115 | `toLowerCase`: as long as the input, and every character of the result is already lower-case |
| Names.DeleteSeparators | src/WikiLinksWorkspace.ts:115 | `replace(/[\s\-_.]+/g, '')`: no separator is left, and the text comes back unchanged exactly when it had none |
| Names.DeleteSeparatorsAppend | src/WikiLinksWorkspace.ts:114-115 | only separators go: deleting from `a + b` gives the deletion from `a` followed by that from `b`, so every other character is kept in order |
| Names.DeleteSeparatorsSingle | src/WikiLinksWorkspace.ts:114-115 | a single character is deleted exactly when it is whitespace, `-`, `_` or `.` |
| Names.Normalize | src/WikiLinksWorkspace.ts:111-116 | the normalised name has no whitespace, `-`, `_` or `.`, is fixed by lower-casing, and is no longer than the input; that it keeps every other character in order is stated by `Names.NormalizeJoined` and `Names.DeleteSeparatorsAppend` |
| Names.NormalizeIdempotent | src/WikiLinksWorkspace.ts:111-116 | normalising a normalised name changes nothing |
| Names.NormalizePlain | src/WikiLinksWorkspace.ts:111-116 | a name with no separator characters normalises to its lower-case form |
| Names.NormalizeJoined | src/WikiLinksWorkspace.ts:111-116 | for two separator-free words joined by one separator other than `.`, the normal form is the two words lower-cased and concatenated: the separator goes and every other character stays, in order |
| Names.SeparatorsInterchangeable | src/WikiLinksWorkspace.ts:124-128 | which separator joins two words does not change the text match: `my note` matches `my-note` |
| Names.Basename | src/WikiLinksWorkspace.ts:119 | `basename` of a file path: the text after the last `/`, a suffix of the path without `/`, preceded by `/` when it is not the whole path |
| Names.BasenameOfJoin | src/WikiLinksWorkspace.ts:119 | the basename of `dir/name` is `name` when `name` has no `/` |
| Names.BasenameNoSlash | src/WikiLinksWorkspace.ts:119 | a path without `/` is its own basename |
| Names.FuzzyMatchText | src/WikiLinksWorkspace.ts:124-128 | `noteNamesFuzzyMatchText`: the two normal forms are equal; an equivalence by `Names.FuzzyMatchTextIsEquivalence` |
| Names.FuzzyMatch | src/WikiLinksWorkspace.ts:118-122 | `noteNamesFuzzyMatch`: the text test on the basename of the left side only; see `Names.FuzzyMatchIsTextOnBasename` and `Names.FuzzyMatchNotSymmetric` |
| Names.FuzzyMatchTextIsEquivalence | src/WikiLinksWorkspace.ts:124-128 | `noteNamesFuzzyMatchText` is reflexive, symmetric and transitive |
| Names.FuzzyMatchTextNormal | src/WikiLinksWorkspace.ts:111-128 | every name fuzzy-matches its own normal form |
| Names.FuzzyMatchIsTextOnBasename | src/WikiLinksWorkspace.ts:118-128 | `noteNamesFuzzyMatch(l, r)` is `noteNamesFuzzyMatchText(basename(l), r)`, and for a left side without `/` the two tests agree |
| Names.FuzzyMatchNotSymmetric | src/WikiLinksWorkspace.ts:118-122 | the path-aware match is not symmetric: `dir/name` matches `name`, but `name` does not match `dir/name` |
| Names.ReplaceNonAlnumRuns | src/WikiLinksWorkspace.ts:133 | the replacement is empty exactly for empty input, keeps a leading letter or digit, and starts with `-` when the text starts with any other character |
| Names.ReplacedNoDoubleDash | src/WikiLinksWorkspace.ts:133 | after collapsing runs of non-letters and non-digits there is never `--` |
| Names.ReplacedKeepsAlnum | src/WikiLinksWorkspace.ts:133 | collapsing keeps every letter and digit, in order |
| Names.ReplaceKeepsAlnumText | src/WikiLinksWorkspace.ts:133 | a text of letters and digits only is not changed |
| Names.ReplaceAppend | src/WikiLinksWorkspace.ts:133 | the replacement works piece by piece: for a text cut right after a letter or digit, the result is the two pieces' results in order |
| Names.ReplaceRun | src/WikiLinksWorkspace.ts:133 | a non-empty run of non-letters and non-digits, up to the next letter or digit, becomes exactly one `-` in its place |
| Names.TrimDashes | src/WikiLinksWorkspace.ts:134 | after trimming, the text neither starts nor ends with `-` |
| Names.TrimDashesSlice | src/WikiLinksWorkspace.ts:134 | trimming keeps a contiguous slice of the text and removes only the dashes before and after it; interior dashes stay |
| Names.TrimLeadingKeeps | src/WikiLinksWorkspace.ts:134 | trimming leading dashes loses no letter or digit and keeps the slug shape |
| Names.TrimTrailingKeeps | src/WikiLinksWorkspace.ts:134 | trimming trailing dashes loses no letter or digit and keeps the slug shape |
| Names.SlugifyClassic | src/WikiLinksWorkspace.ts:130-135 | the result is a slug: lower-case letter/digit runs joined by single `-`, with no `-` at either end |
| Names.SlugifyTitle | src/WikiLinksWorkspace.ts:141-143 | the title slugger is the classic one, so its result is a slug |
| Names.SlugifyClassicKeepsAlnum | src/WikiLinksWorkspace.ts:130-135 | the letters and digits of the slug are exactly those of the lower-cased title, in order |
| Names.SlugOfTwoWords | src/WikiLinksWorkspace.ts:130-135 | two lower-case words joined by any run of non-letters and non-digits slug to the words joined by one `-` (`My Note` gives `my-note`) |
| Names.NoteFileNameFromTitle | src/WikiLinksWorkspace.ts:141-147 | the file name ends in `.md`, counts as a note file, and strips back to `slugifyTitle(title)` |
| Names.NoteFileNameMatchesTitle | src/WikiLinksWorkspace.ts:130-147 | for a title whose every character is a separator or lower-cases to a letter or digit, and which has no extension, the file name fuzzy-matches the title |
| Names.NoteFileNameMissesUnsafeTitle | src/WikiLinksWorkspace.ts:130-147 | a title with a character that is neither (such as `+`) loses it in the slug, so its file name does not fuzzy-match it |
| Names.NoteFiles | src/WikiLinksWorkspace.ts:158-162 | exactly the listed paths that end in a note extension are kept, which are exactly those `stripExtension` shortens |
| Names.NoteFilesInOrder | src/WikiLinksWorkspace.ts:160 | the filter keeps listing order: two listings in a row give their note files in a row, and a single path stays iff it has an extension |
| LinkRef.LastIndexOfOpen | src/WikiLinksRef.ts:19 | `lastIndexOf('[[')`: the index found holds `[[` with none after it; none found means no `[[` at all |
| LinkRef.TextBefore | src/WikiLinksRef.ts:17 | `substring(0, column)`: the first `column` characters of the line, or the whole line when the column lies past its end |
| LinkRef.ContainsClose | src/WikiLinksRef.ts:30 | `includes(']]')`: true exactly when the text splits as some `a`, `]]`, `b` |
| LinkRef.GetWikiLinkOrEmptyAt | src/WikiLinksRef.ts:15-47 | a wiki-link is reported iff the last `[[` before the cursor is not followed by `]]` before the cursor; its word is the text after that `[[` up to the cursor and its range runs from just after the `[[` to the cursor; otherwise the result is `NULL_WIKI_LINK_REF` |
| LinkRef.LinkWordShape | src/WikiLinksRef.ts:34-40 | the word contains neither `[[` nor `]]`, the text before the cursor is a prefix, `[[` and the word, and for a cursor within the line the range is as wide as the word |
| LinkRef.TypingInsideLink | src/WikiLinksRef.ts:19-46 | after `prefix[[typed`, with no `[[` or `]]` typed, the result is a wiki-link with word `typed` and range from just after `[[` to the cursor, whatever follows the cursor |
| LinkRef.JustOpenedLink | src/WikiLinksRef.ts:19-40 | right after typing `[[` the word is empty and the range has zero width at the cursor |
| LinkRef.AfterClosedLink | src/WikiLinksRef.ts:26-32 | once the cursor is past a link's `]]` and no new `[[` follows, the result is `NULL_WIKI_LINK_REF` |
| LinkRef.CursorInsideWordExample | src/WikiLinksRef.ts:34 | on `a [[foo]] b` with the cursor after `fo`, the word is `fo` with range (0,4)-(0,6) |
| LinkRef.CursorPastLinkExample | src/WikiLinksRef.ts:26-32 | on `a [[foo]] b` with the cursor at column 9 or later there is no link |
| LinkScanner.MatchIsLinkText | src/WikiLinksWorkspace.ts:19 | every match spans `[[`, a non-empty run without `]`, and `]]` |
| LinkScanner.LinkTextIsMatch | src/WikiLinksWorkspace.ts:19 | conversely, every `[[`, non-empty run without `]`, `]]` in the line is the match the pattern makes at its start |
| LinkScanner.Inner | src/WikiLinksReferenceProvider.ts:34 | `slice(2, -2)` of a match is non-empty, contains no `]`, and with the brackets restored is the whole match |
| LinkScanner.Scan | src/WikiLinksReferenceProvider.ts:30-33 | the `exec` loop yields genuine matches starting at or after the start, in order and without overlap |
| LinkScanner.ScanCovers | src/WikiLinksReferenceProvider.ts:30-33 | the loop skips no position where the pattern matches, except inside a match already taken |
| LinkScanner.ScanUnique | src/WikiLinksReferenceProvider.ts:30-33 | any sequence of genuine, ordered matches that misses nothing is exactly what the loop returns |
| References.MatchLocations | src/WikiLinksReferenceProvider.ts:33-41 | a location is pushed iff it spans a match of the line whose inner text the test accepts |
| References.LineLocations | src/WikiLinksReferenceProvider.ts:27-41 | the locations of one line are exactly the spans of its links whose text fuzzy-matches the word; an empty line yields none |
| References.TextLocations | src/WikiLinksReferenceProvider.ts:25-42 | the locations of a file's text are exactly those of its lines, each on its own line number |
| References.FileLocations | src/WikiLinksReferenceProvider.ts:22-45 | a file yields exactly the links its text reports, and nothing when its read fails |
| References.FilesLocations | src/WikiLinksReferenceProvider.ts:21-46 | the files together yield exactly the links, in any listed file that reads, whose text fuzzy-matches the word |
| References.ProvideReferences | src/WikiLinksReferenceProvider.ts:6-49 | no ref or a non-wiki-link ref gives nothing; otherwise exactly the fuzzy-matching links in the note files among the workspace files |
| References.ReportedSpansLink | src/WikiLinksReferenceProvider.ts:33-39 | every reported range lies on one line, covers `[[`, a non-empty interior without `]`, and `]]`, and its interior fuzzy-matches the word |
| References.MatchLocationsInOrder | src/WikiLinksReferenceProvider.ts:33-41 | the matches of a line are reported left to right without overlap |
| References.LineLocationsInOrder | src/WikiLinksReferenceProvider.ts:27-41 | each line's locations come in increasing column order |
| References.TextLocationsInOrder | src/WikiLinksReferenceProvider.ts:27-42 | a file's locations come in reading order: by line, then by column |
| References.FileLocationsInOrder | src/WikiLinksReferenceProvider.ts:22-45 | each file's locations are in reading order |
| References.FilesLocationsAppend | src/WikiLinksReferenceProvider.ts:21-46 | files are searched in the order listed: the result for two listings in a row is the first's followed by the second's |
| References.LinkAtLineStart | src/WikiLinksReferenceProvider.ts:33-40 | a line opening with `[[text]]` reports the span (n,0)-(n,len+4) iff `text` fuzzy-matches the word |
| Definitions.NameMatches | src/WikiLinksDefinitionProvider.ts:57-62 | under unique filenames, exactly the note files whose basename fuzzy-matches the word; under any other convention none |
| Definitions.NameMatchesInOrder | src/WikiLinksDefinitionProvider.ts:59-61 | the name filter keeps listing order: two listings in a row give their matches in a row, and a single file stays iff it matches under unique filenames |
| Definitions.NameMatchesEmpty | src/WikiLinksDefinitionProvider.ts:57-66 | the name search is empty iff the convention is not unique filenames or no note file's basename matches |
| Definitions.FilesForRef | src/WikiLinksDefinitionProvider.ts:50-76 | name matches win when there are any; otherwise the word resolved against the document's directory, only with a document and only if something exists there; otherwise nothing |
| Definitions.Exists | src/WikiLinksDefinitionProvider.ts:70 | `existsSync` in the model: a file or a directory is at the path; a created note exists afterwards by `Definitions.CreateMissingNote` |
| Definitions.NewNoteContent | src/WikiLinksDefinitionProvider.ts:99 | for a one-line title the new note splits into exactly three lines: the heading `# title`, an empty line, and the empty text after the last newline |
| Definitions.CreateMissingNote | src/WikiLinksDefinitionProvider.ts:78-106 | a path comes back iff the ref is a wiki-link, creation is on, an editor is active and names are unique; the warning is shown iff only the convention is wrong; the path is `resolve(dirname(active), slug.md)`, it exists afterwards, and only an absent path is written, headed by the link word without its extension |
| Definitions.AtFileStart | src/WikiLinksDefinitionProvider.ts:30-31 | each file becomes one location at (0,0), in order |
| Definitions.ProvideDefinition | src/WikiLinksDefinitionProvider.ts:9-32 | every location is at (0,0); no ref or a non-wiki-link gives nothing; found files are returned without touching the disk; only when none is found is the note created, and its path, if any, is the only location |
| Definitions.CreateMissingNoteIdempotent | src/WikiLinksDefinitionProvider.ts:98-103 | creating again after a creation returns the same path and writes nothing |
| Definitions.CreateMissingNoteKeepsFiles | src/WikiLinksDefinitionProvider.ts:98-101 | an existing file is never overwritten |
| Definitions.NewNoteNameShape | src/WikiLinksDefinitionProvider.ts:93-96 | the new file name is non-empty, contains no `/` and ends in `.md` |
| Definitions.NewNoteMatchesWord | src/WikiLinksDefinitionProvider.ts:93-94 | for a slug-safe title the new file name fuzzy-matches the link word |
| Definitions.CreatedNoteIsFound | src/WikiLinksDefinitionProvider.ts:57-103 | once the created note is listed, the next go-to-definition finds it by name, provided `resolve` keeps a plain file name other than `.` and `..` as the basename, and the title is slug-safe |
| SortKeys.SortText | src/WikiLinksCompletionProvider.ts:81 | for an index below 10000 the key is the score padded to six characters, `_`, and the index in exactly four decimal digits |
| SortKeys.NatToDecimal | src/WikiLinksCompletionProvider.ts:81 | `toString()` of an index: decimal digits only, no leading zero |
| SortKeys.PadStart | src/WikiLinksCompletionProvider.ts:81 | `padStart`: at least the requested width, the text at the end, fill characters before it |
| SortKeys.PaddedIsDigits | src/WikiLinksCompletionProvider.ts:81 | an index that fits, padded with zeros to width w, is its w-digit decimal form |
| SortKeys.DigitsOrder | src/WikiLinksCompletionProvider.ts:81 | fixed-width digit strings compare as the numbers they write |
| SortKeys.SortTextOrdersIndices | src/WikiLinksCompletionProvider.ts:81 | with equal scores, one key sorts before another iff its index is smaller, for indices below 10000 |
| SortKeys.SortTextOfZero | src/WikiLinksCompletionProvider.ts:81 | with score 0 the key is `000000_` and the index in four digits |
| SortKeys.SortTextOrderBreaksAt10000 | src/WikiLinksCompletionProvider.ts:81 | from 10000 items on, item 10000 sorts before item 9999 |
| SortKeys.ScoreTextMisorders | src/WikiLinksCompletionProvider.ts:81 | the padded score text does not keep decimal scores in numeric order: score 0.35 at index 1 sorts before score 0.3 at index 0 |
| Sorting.SortBy | src/WikiLinksCompletionProvider.ts:43-44 | the sort returns a rearrangement of its input |
| Sorting.SortBySorted | src/WikiLinksCompletionProvider.ts:43-44 | for a total comparator, neighbours come out in comparator order |
| Sorting.SortedAllPairs | src/WikiLinksCompletionProvider.ts:44 | for a transitive comparator, every earlier item is at most every later one |
| Completion.DisplayName | src/WikiLinksWorkspace.ts:64-75 | under the relative-paths convention with a document inside a workspace folder, the relative path without its extension; in every other case (another convention, no document, or a document outside every folder) the basename without its extension |
| Completion.DisplayNameOfMdNote | src/WikiLinksWorkspace.ts:64-75 | a note `dir/x.md` is shown as `x`, and inside a workspace folder a note whose relative path is `rel.md` is shown as `rel` |
| Completion.SearchData | src/WikiLinksCompletionProvider.ts:32-37 | one search item per note file, in order, with its display name, bare file name and relative path |
| Completion.AllByName | src/WikiLinksCompletionProvider.ts:41-45 | the empty-query results have one hit per item, each with score 0 |
| Completion.Hits | src/WikiLinksCompletionProvider.ts:39-63 | the results the items come from: every note sorted by name for an empty word, the search otherwise; see `Completion.EmptyQueryOffersEveryNote` |
| Completion.MakeItem | src/WikiLinksCompletionProvider.ts:67-92 | one completion item; its fields are stated on `Completion.ProvideCompletionItems` |
| Completion.ProvideCompletionItems | src/WikiLinksCompletionProvider.ts:17-96 | off a wiki-link there are no items; otherwise one item per hit, with label and insert text the display name, filter text the typed word, a space and the label, only the first preselected, `]` as the commit character, the sort key of its score and index, and the link's range |
| Completion.EmptyQueryOffersEveryNote | src/WikiLinksCompletionProvider.ts:41-45 | with an empty word, the hits are a permutation of the search items of all note files, in display-name order for a total comparator, all with score 0 |
| Completion.FirstHeading | src/WikiLinksCompletionProvider.ts:105 | `find(startsWith('# '))`: nothing iff no line starts with `# `; otherwise the first such line |
| Completion.ResolveCompletionItem | src/WikiLinksCompletionProvider.ts:98-112 | only the detail can change; it becomes the file's first `# ` line when the item has a path, the file reads and has such a line, and otherwise the item comes back unchanged |
| Completion.CreatedNoteHeading | src/WikiLinksCompletionProvider.ts:105 | the first heading found in a note created by go-to-definition is `# title` |
| Completion.ResolveCreatedNote | src/WikiLinksCompletionProvider.ts:102-111 | resolving an item for such a note sets its detail to `# title` and changes nothing else |
| Completion.CompletionLabelResolves | src/WikiLinksCompletionProvider.ts:69-76 | under unique filenames, the label a completion inserts fuzzy-matches its file, when the basename carries at most one note extension |
| Completion.DoubleExtensionLabelMisses | src/WikiLinksCompletionProvider.ts:69-76 | a note `x.md.md` is offered as `x.md`, and that label does not fuzzy-match the note |

## Left out

- Fuse.js search for a non-empty word: a `Search` parameter returns the hits and their score text. Fuzzy scoring, thresholds and key weights are not modelled.
- Completion.ProvideCompletionItems: the score enters only as the text `String(score)` gives. Floating-point scores and their printing are not modelled.
- Sorting.SortBy: `Array.prototype.sort` with `localeCompare` is an insertion sort under an abstract comparator. Its stability and locale collation are not stated.
- Names.Lower: `toLowerCase` is applied one character at a time. JavaScript lower-cases whole strings, where a few characters depend on context (final sigma) or change length (`İ`).
- Unicode tables for letters and digits are abstract, constrained only by the `CharModel` assumptions.
- Columns count characters (code points). VS Code positions count UTF-16 code units, so text outside the Basic Multilingual Plane shifts columns.
- `getWikiLinkAt`, which the definition and reference providers call, is not part of this model. Those providers take an optional `WikiLinkRef` instead.
- `path.dirname`, `path.resolve` and `asRelativePath` are abstract. `Definitions.CreatedNoteIsFound` assumes that resolving a plain file name other than `.` and `..` keeps it as the basename.
- Names.Basename: paths are POSIX file paths without a trailing `/`. Node's `basename` would drop trailing separators (`notes/` gives `notes`, here the empty text), and on Windows it also splits at `\`.
- `getWorkspaceFolder` is an abstract predicate.
- `existsSync` is "a file or a directory in the file-system value".
- Writing the note is assumed to succeed.
- Asynchrony is not modelled: each provider is one pure function of its inputs.
- The note-file and definition caches (`noteFilesFromCache`, `filesForWikiLinkRefFromCache`) are not part of this model.
- The workspace listing (`findNonIgnoredFiles`, `git check-ignore`) is an input sequence of paths.
- Configuration reads are a `Config` value. `triggerSuggestOnReplacement` is carried but unused.
- `showWarningMessage` is a returned flag.
- Console logging and the completion item kind carry no behaviour and are left out.
- `getRelativePath` and `getRelativePathFromDocument` are not used by the modelled operations.
- `slugifyGithub` and its global slugger instance are not used by `slugifyTitle`.
- `overrideMarkdownWordPattern`, the markdown word pattern and extension registration are editor set-up.
- Splitting on `\n` keeps any `\r` in the lines, as the source does. No line-ending normalisation is modelled.
