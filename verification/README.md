# print-project: the selection-and-traversal engine in Dafny

`print-project` walks a directory and writes one text file. The file holds an
indented outline of the selected paths, then every selected file's contents,
each behind a `path:` heading. This project models the part of the tool that
makes decisions:

- **Matcher.** `matchesAnyPattern` checks a path against a list of glob-like
  patterns. A pattern is split on `*`, each piece is regex-escaped, and the
  pieces are joined with `.*`. The resulting regular expression is
  case-insensitive and unanchored. A pattern containing `/` is matched against
  the whole normalised path. Any other pattern matches when its expression
  matches the basename, or when it occurs as a plain substring of the path.
- **Selection policy.** How the `--ignore`, `--include` and
  `--remove-default` options become an ignore list and an include list, and
  the per-path decision `shouldProcess`.
- **Walker.** `readDirectory` is a depth-first walk in listing order over an
  abstract filesystem. It builds the ordered result tree and the print text.
- **Renderer.** `buildTreeStructure` and the final document string.
- **Default ignore list.** The built-in list of 74 patterns, entry by entry.

The modules follow the program's structure:

- `Text`: the JavaScript string operations used (ASCII `toLowerCase`,
  `replace` of `\`, `includes`, `split`/`join`, `trim`, POSIX `path.basename`).
- `Regex`: the regular-expression fragment the matcher builds. It is a token
  list of literals and `.*` runs, with a parser for the source text and a
  backtracking matcher. It also gives an independent "the pieces occur in
  order" reading of the same test.
- `Patterns`: the matcher.
- `Defaults`: the built-in list.
- `Selection`: the options and `shouldProcess`.
- `Walker`: the walk, with reference enumerations of every reachable file
  and directory.
- `Render`: the outline and the document.
- `Scenarios`: consequences for the built-in list and for small directories.

Global mutable state becomes explicit values. The tree and print accumulators
are a `Walked` value threaded through the walk, and the rendered string is a
function result. The filesystem is a datatype. A directory listing is
`Listed(entries)` or `Unlistable`; a file's contents are `Readable(text)` or
`Unreadable`.

Three behaviours of the code are easy to miss, and the model keeps them:

- **Ignore wins over include.** A file is kept only when no ignore pattern
  matches it and `shouldProcess` accepts it (src/index.ts:93). A directory is
  pruned by the ignore list alone (src/index.ts:84). An include pattern never
  rescues an ignored file, nor anything below an ignored directory.
  `ExampleWithIncludeJs` states a case: with `--include "*.js"`, a script
  inside `node_modules` does not appear.
- **Empty files are recorded.** A file that reads as the empty string gets a
  tree leaf and a record with an empty body (src/index.ts:95-97).
  `FailuresAreSwallowed` states a case.
- **Blank user patterns survive.** Empty pieces are dropped before trimming
  (src/index.ts:19), so a piece made only of spaces becomes the empty pattern.
  That pattern never matches (src/index.ts:44-46).

## Model

| member | source | states |
|---|---|---|
| Text.Lower | src/index.ts:47-48 | lower-casing keeps the length and maps every character through ASCII lower-casing |
| Text.SlashSep | src/index.ts:47 | every `\` becomes `/` and every other character is kept, position by position |
| Text.Includes | src/index.ts:59 | the scan returns true exactly when the word occurs contiguously somewhere in the string |
| Text.Basename | src/index.ts:54 | the basename holds no `/`; it is the infix after the last separator and before any trailing separators |
| Text.Split | src/index.ts:19 | splitting yields at least one piece; no piece holds the separator; joining the pieces gives back the input |
| Text.SplitJoin | src/index.ts:18-22 | splitting inverts joining on lists of separator-free pieces |
| Text.NormalizePath | src/index.ts:47 | separators first, then case: `NormalizeConcat` shows it works character by character, and `PathSpellingIrrelevant` that no pattern can tell two paths with the same normal form apart |
| Text.Trim | src/index.ts:20 | the result is an infix of the input with no whitespace at either end, and only whitespace was removed |
| Regex.SourceOf | src/index.ts:50 | the escaped pieces joined by `.*`; its meaning is stated by `ParseSource` and `ParseEscape` |
| Regex.RegexSource | src/index.ts:56 | the source text built from a pattern; `Compile` states what it parses to |
| Regex.Parse | src/index.ts:51 | how `new RegExp` reads a source text of the literal-and-`.*` fragment; `ParseEscape`, `ParseSource` and `Compile` state what it yields on the texts the matcher builds |
| Regex.MatchHere | src/index.ts:51 | matching a prefix with the `i` flag; `TestIffInOrder` states it against the independent in-order reading |
| Regex.ParseEscape | src/index.ts:50 | a star-free piece, once escaped, reads back as exactly its own characters as literals, whatever text follows it |
| Regex.ParseSource | src/index.ts:50 | the joined source text of star-free pieces reads back as their literals separated by `.*` runs |
| Regex.Compile | src/index.ts:50-51 | the source text built from any pattern parses back to the compiled tokens, so the `RegExp` constructor never meets a character outside the fragment and never throws |
| Regex.Test | src/index.ts:51 | `test` is unanchored: true exactly when the expression matches at some start index |
| Regex.TestIffInOrder | src/index.ts:50-51 | on a line without line terminators, the compiled pieces match exactly when the pieces occur in order, without overlap, ignoring case |
| Regex.CompiledPatternIffInOrder | src/index.ts:50-51 | the same equivalence, stated for a pattern and its `*`-split pieces |
| Patterns.PatternMatches | src/index.ts:43-61 | the empty pattern never matches; a pattern with `/` matches iff its pieces occur in order in the normalised path; otherwise iff they occur in order in the basename, or the lower-cased pattern is a substring of the normalised path |
| Patterns.MatchesAny | src/index.ts:39-63 | a list matches exactly when one of its patterns matches |
| Patterns.EmptyListNeverMatches | src/index.ts:40-42 | the empty pattern list matches nothing |
| Patterns.MatchesAnyOrderIrrelevant | src/index.ts:43-62 | two lists with the same members match the same paths, whatever the order or repetition |
| Patterns.MatchesAnyConcat | src/index.ts:43-62 | a concatenated list matches iff either part does, so appending patterns never turns a match into a non-match |
| Patterns.PathSpellingIrrelevant | src/index.ts:47-59 | paths that differ only in letter case or in `\` versus `/` get the same answer from every pattern |
| Patterns.PatternCaseIrrelevant | src/index.ts:48-59 | patterns that differ only in letter case match the same paths |
| Patterns.CompileIsCharwise | src/index.ts:50 | the compiled pattern has one token per pattern character: a run for `*`, a literal otherwise |
| Patterns.ForeignCharacterRefutes | src/index.ts:49-59 | a pattern holding a non-`*` character that the normalised path lacks (in any case) cannot match it, on either branch |
| Patterns.StarFreePatternIsSubstring | src/index.ts:49-59 | a non-empty pattern without `*` matches exactly when its lower case is a substring of the normalised path, with or without a `/` |
| Defaults.DefaultsShape | src/constants.ts:1-76 | the built-in list has 74 entries, contains `project-print.txt`, and has no empty entry |
| Selection.DropEmpty | src/index.ts:19 | the kept pieces are exactly the non-empty ones, each kept, and the list is unchanged when none is empty |
| Selection.TrimEach | src/index.ts:19-21 | each piece is replaced by its trimmed form, in place |
| Selection.UserPatterns | src/index.ts:18-28 | an absent option gives no patterns; every non-empty piece of the comma split occurs in the result trimmed, and every pattern is the trim of such a piece; every pattern is comma-free and trimmed |
| Selection.UserPatternsOfJoin | src/index.ts:18-28 | comma-free pieces joined with `,` read back as the non-empty pieces, trimmed, in their order |
| Selection.OptionExample | src/index.ts:18-28 | `a, b,,c` gives the patterns `a`, `b` and `c` |
| Selection.UserPatternsJoin | src/index.ts:18-28 | a list of non-empty, trimmed, comma-free patterns joined with `,` parses back to itself |
| Selection.BlankPieceIsInert | src/index.ts:18-46 | a comma-free run of whitespace becomes the single empty pattern, which matches no path |
| Selection.IgnoreList | src/index.ts:30-38 | the ignore list starts with the defaults when they are on, then holds `project-print.txt` right before the user's patterns, which end it, and has exactly that length |
| Selection.ConfigOf | src/index.ts:18-38 | every run ignores `project-print.txt`; an absent `--include` gives an empty include list |
| Selection.Ignored | src/index.ts:82 | being ignored is matching the assembled ignore list; `IgnoreListMatches` states it as a union of the three sources |
| Selection.ShouldProcess | src/index.ts:65-72 | with a non-empty include list, true iff some include pattern matches; otherwise true iff no ignore pattern matches |
| Selection.IgnoreListMatches | src/index.ts:34-38 | a path is ignored iff the defaults (when on), the output file name, or a user pattern matches it |
| Selection.IncludeListDecidesAlone | src/index.ts:66-69 | with a non-empty include list, the ignore list has no influence on `shouldProcess` |
| Selection.NoIncludeMeansNotIgnored | src/index.ts:70-71 | with no include list, `shouldProcess` is "not ignored" |
| Walker.ChildPathShape | src/index.ts:80-81 | a child's key is its directory's key and a `/` (nothing at the root), then the entry name with every `\` turned into `/`, and nothing else |
| Walker.Put | src/index.ts:88-96 | assigning a key stores the new node: an existing key keeps its place, a new key goes at the end, every node under another key stays where it was, and the key list changes only by that append (a root key `__proto__` is treated as an ordinary key, see "Left out") |
| Walker.Record | src/index.ts:97 | one file's print record; `WalkPrint` states the print as the concatenation of these records |
| Walker.Visit | src/index.ts:80-104 | one entry of a directory; `VisitLeaves`, `VisitBranches` and `IgnoredDirectoryIsSkipped` state its effect on the file nodes, the directory nodes and the print |
| Walker.ReadEntries | src/index.ts:79-105 | the loop over one directory's entries in listing order; `ReadEntriesLeaves` and `ReadEntriesBranches` state the file and directory nodes it appends |
| Walker.ReadDirectory | src/index.ts:74-110 | `readDirectory` on one directory, with listing errors swallowed; `WalkPrint`, `WalkValid`, `WalkLeaves`, `WalkBranches` and `WalkDirectories` state what it builds |
| Walker.Walk | src/index.ts:133 | the walk from the start directory; `WalkPrint` states its print, `WalkLeaves` its file nodes, `WalkBranches`, `WalkDirectories` and `WalkDirectoriesByPath` its directory nodes and what each holds |
| Walker.FilesIn | src/index.ts:74-110 | the reference enumeration of every reachable file records all the directories above it |
| Walker.PrintedFiles | src/index.ts:84-98 | the filter keeps exactly the files that are read, below no ignored directory, not ignored, and accepted by `shouldProcess` |
| Walker.WalkPrint | src/index.ts:74-110 | the print is the concatenation, in listing order and depth first, of the records of exactly those files; unreadable files and unlistable directories add nothing |
| Walker.WalkValid | src/index.ts:82-93 | every node at every depth is not ignored, every file passes `shouldProcess`, every directory has children, and every child is keyed below its parent |
| Walker.WalkLeaves | src/index.ts:84-98 | when names in each directory are distinct and slash-free, the tree's file keys in pre-order are exactly the printed paths |
| Walker.DirsIn | src/index.ts:74-110 | the reference enumeration of every reachable directory, each before the directories inside it, records all the directories above it |
| Walker.ReadDirectoryTree | src/index.ts:85-86 | the subtree built for a directory starts empty and does not depend on the print text accumulated before it |
| Walker.DirShownIff | src/index.ts:85-89 | a directory's walk builds a non-empty subtree iff some file below it, at any depth, is printed |
| Walker.VisitBranches | src/index.ts:82-89 | visiting one entry appends exactly the directory nodes due for it: none for a file, an ignored directory or a directory with nothing printed below; otherwise the directory's node followed by those inside it |
| Walker.ReadEntriesBranches | src/index.ts:79-105 | the loop over a directory's entries appends the directory nodes due for its entries, in listing order |
| Walker.BranchesAreNodes | src/index.ts:85-88 | the pre-order list of directory nodes holds exactly the directory nodes of the flattened tree |
| Walker.WalkBranches | src/index.ts:82-89 | when names in each directory are distinct and slash-free, the tree's directory nodes in pre-order are one per reachable directory that lies under no ignored directory, is not ignored, and has a printed file below it; each is keyed by that directory's path and holds the tree built from its own listing |
| Walker.WalkDirectories | src/index.ts:82-98 | a node of the flattened tree is a directory node iff it belongs so to such a directory, and the file keys under it are exactly the printed paths below that directory, in order |
| Walker.UnderDir | src/index.ts:80-81 | when every name is non-empty and free of `/` and `\`, the files whose path starts with a reachable directory's path and `/` are exactly the files below that directory, in order |
| Walker.WalkDirectoriesByPath | src/index.ts:80-98 | with such names, a directory node keyed `k` exists iff `k` is a reachable directory's path, no directory above it is ignored, `k` is not ignored, and some printed path starts with `k/`; its file keys are exactly the printed paths starting with `k/`, in order |
| Walker.BackslashNameBlursPaths | src/index.ts:81 | a root file named `n\m` next to a directory `n` holding `m` gives two files with the path `n/m`, only one of them inside `n`, so the path form needs names without `\` |
| Walker.NodesClosed | src/index.ts:85-88 | the flattening of a tree holds every child of every directory node it holds |
| Walker.WalkAdmitted | src/index.ts:82-93 | the per-node form of validity holds for every node of the flattened tree |
| Render.RenderTree | src/index.ts:112-119 | `buildTreeStructure`; `RenderIsOutline` and `OneLinePerNode` state what it writes |
| Render.Outline | src/index.ts:112-119 | the outline has one line per node of the tree, carrying that node's key, in pre-order |
| Render.RenderIsOutline | src/index.ts:112-119 | the rendering is the outline's lines, each indented two spaces per level of depth |
| Render.OneLinePerNode | src/index.ts:112-119 | when no key holds a line break, the rendering has exactly one line per node |
| Render.Document | src/index.ts:136 | the document starts with `File structure:\n`, holds the rendering right after it, and ends with the print |
| Render.Run | src/index.ts:133-136 | one run of the tool; `RunDocument` states its output |
| Render.RunDocument | src/index.ts:133-136 | a run's document is the heading, the formatted outline of the walk's tree (whose file and directory nodes `WalkLeaves` and `WalkBranches` characterise), the separator, and the records of the printed reachable files |
| Scenarios.StarLiteralMatchesInName | src/index.ts:54-59 | `*w` matches every plain file name that holds `w` anywhere, not only at the end |
| Scenarios.StarLiteralMatchesBelow | src/index.ts:54-59 | the same holds for such a file in any directory, because the glob is matched against the basename |
| Scenarios.LogPatternIsUnanchored | src/constants.ts:3 | the default `*.log` also matches names like `access.logger` and `x.login.ts` |
| Scenarios.ScratchPatternsAreUnanchored | src/constants.ts:52-55 | `*.env`, `*.bak`, `*.tmp` and `*.swp` match every plain name that merely holds their extension |
| Scenarios.StarFreeIgnoredWherever | src/index.ts:47-59 | a star-free ignore pattern ignores every path whose normal form contains the lower-cased pattern |
| Scenarios.StarFreeIgnoresInside | src/index.ts:47-59 | a star-free ignore pattern ignores every path holding a piece that normalises to the lower-cased pattern, as a whole name or inside a longer one, in any letter case and with either separator |
| Scenarios.NoKeyContainsBarePattern | src/index.ts:82-93 | no key anywhere in the tree contains a star-free ignore pattern, in any letter case |
| Scenarios.DefaultsComeFirst | src/index.ts:30-36 | with the defaults on, the ignore list starts with the built-in list |
| Scenarios.DefaultsPruneBuildOutput | src/constants.ts:2-6 | with the defaults on, no key in the tree contains `node_modules`, `dist`, `build` or `coverage` |
| Scenarios.DistInsideNameIsIgnored | src/constants.ts:4 | with the defaults on, every path with `dist` inside it is ignored, `src/distance.ts` included |
| Scenarios.DsStoreIgnoredInAnyCase | src/constants.ts:13 | with the defaults on, every path holding `.DS_Store` in any letter case, such as `x/.ds_store/y`, is ignored |
| Scenarios.GitPatternNeedsSeparator | src/index.ts:49-52 | `.git/` never matches a path without separators, such as the directory `.git` itself |
| Scenarios.GitPatternMatchesInside | src/index.ts:47-52 | `.git/` matches every path whose normal form contains `.git/`, so `a/.GIT/x` and `a\.git\x` too |
| Scenarios.GitDirectoriesVanish | src/index.ts:84-88 | with `.git/` in the ignore list, no directory whose key ends in `.git` appears in the tree, because every entry below it is ignored |
| Scenarios.DefaultsDropGitDirectories | src/constants.ts:12 | with the defaults on, no `.git` directory appears in the tree |
| Scenarios.DefaultsSpareATxt | src/constants.ts:1-76 | `a.txt` matches no built-in pattern and not the output file name |
| Scenarios.IgnoredDirectoryIsSkipped | src/index.ts:84-85 | an ignored directory leaves the tree and the print unchanged, whatever it holds |
| Scenarios.FileBesideIgnoredDir | src/index.ts:84-98 | a root holding a file and an ignored directory walks to the file's leaf and record when it passes `shouldProcess`, and to nothing otherwise |
| Scenarios.ExampleWithDefaults | src/index.ts:30-38 | with only the defaults, `a.txt` is kept and `node_modules` is pruned, whatever it holds |
| Scenarios.RunWithDefaults | src/index.ts:136 | that run writes exactly `File structure:\na.txt\n\n\nProject print:\na.txt:\nhello\n\n` |
| Scenarios.ExampleWithIncludeJs | src/index.ts:65-93 | with `--include "*.js"` the tree and print are empty, even when `node_modules` holds scripts |
| Scenarios.RunWithIncludeJs | src/index.ts:136 | that run writes only the two headings |
| Scenarios.FailuresAreSwallowed | src/index.ts:94-109 | an unreadable file, an unlistable directory and a special entry add nothing; an empty file is still recorded |

## Left out

- The command-line parser, the console diagnostics, `process.exit` and the
  final `writeFileSync` (src/index.ts:11-17, 121-142) are I/O glue. Options
  arrive as an `Options` value, and `Run` returns the document text instead
  of writing it.
- Real filesystem calls are replaced by the `Listing`/`Entry`/`Content`
  datatypes. A symbolic link, socket or device is an `Other` entry, which
  the walk skips, as the code does for entries that are neither files nor
  directories. Symlink cycles, encodings and UTF-8 decoding are not modelled.
- `path.join`/`path.relative` on absolute paths become `ChildPath`: a child's
  key is its directory's key, `/` and its name, or just the name at the root.
  Windows drive letters and `..` segments are not modelled.
- Patterns.PatternMatches: its characterisation is stated only for paths
  without line terminators, because a regular-expression `.` does not match
  them. The function itself covers every path.
- Text.Lower: only ASCII letters are lower-cased. Unicode case folding is not
  modelled.
- Walker.Put: a root entry named `__proto__` is treated like any other name.
  In the code, `tree["__proto__"] = ...` (src/index.ts:88, 96) sets the
  tree object's prototype and adds no key: a root file of that name is
  printed but gets no outline line, and a root directory of that name has
  its children listed at the top level. `WalkLeaves`, `WalkValid` and
  `RunDocument` describe the model's tree, which has a `__proto__` key in
  these cases.
- Walker.WalkDirectoriesByPath: it requires every name to be non-empty and
  free of `\` as well as `/`. The code turns a `\` inside a name into `/`
  (src/index.ts:81), so on a system that allows `\` in names two different
  entries can share a path, and a path prefix no longer tells which directory
  a file is in; `BackslashNameBlursPaths` shows such a listing.
  `WalkDirectories` states the same facts without this requirement, in terms
  of the directories reached rather than of path prefixes.
- JavaScript orders integer-like object keys first in `for...in`. Tree
  children are kept in insertion order instead.
- The `hasIncludedFiles` flag (src/index.ts:75, 89, 98) is never read, so
  it is left out.
