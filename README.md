# Package crawler, modelled in Dafny

This project models the pattern scanner of the tracer tool
(`typescript/tracer/packageCrawler.ts`). The scanner reads a pattern file and
keeps the tokens that look like package names. It then walks a target
directory depth-first. It skips six fixed directory names and ignores
entries that are neither directories nor regular files, such as symbolic
links. A shared set of canonical paths cuts off any directory entry whose
canonical path was already expanded. It searches every
listed file line by line for each pattern, where a match is the pattern as a
whole word. Finally it assembles a report: four header lines, then one line
per match.

The filesystem is a value (`TreeWalker.FileSystem`) with three maps:
`realpathSync`, `readdirSync` (entries with their kind) and `readFileSync`.
A path missing from a map is a path on which that call throws.

Modules, one file each:

- `Wrappers` (`wrappers.dfy`): `Option` and `Result`.
- `Text` (`text.dfy`): character classes, `split` on one character, `join`, and decimal rendering.
- `PatternLoader` (`patterns.dfy`): `readPatterns`.
- `TreeWalker` (`walker.dfy`): `listFilesRecursively`, both as a function and as the method of a `Walker` object that owns the mutable `visited` set.
- `LineMatcher` (`matcher.dfy`): `searchPatternsInFile`.
- `Crawler` (`crawler.dfy`): `searchPatternsFromFile` and the report.

Each method that loops or mutates is proved equal to a specification function. The properties are then proved as lemmas about those functions.

The comment above the filter of `readPatterns` allows letters, digits, `@`, `/` and `-`, but the character class it applies
(`^[a-zA-Z@/\-]+$`, packageCrawler.ts:26) has no digits. The model follows
the code: a token such as `gamma-1` is dropped (`PatternLoader.ExampleReadPatterns`).

## Model

| member | source | states |
|---|---|---|
| Text.Join | typescript/tracer/packageCrawler.ts:141 | `join` with a separator; that it undoes a split and is undone by one is stated by JoinSplitAt and SplitAtJoin |
| Text.SplitAtShape | typescript/tracer/packageCrawler.ts:73 | splitting on one character yields one more piece than there are separators, and no piece contains the separator |
| Text.JoinSplitAt | typescript/tracer/packageCrawler.ts:73 | joining the pieces of a split back with the separator restores the original string |
| Text.SplitAtJoin | typescript/tracer/packageCrawler.ts:141 | splitting a join of separator-free pieces gives the same pieces back |
| Text.NatToString | typescript/tracer/packageCrawler.ts:132 | a count renders as a non-empty string of decimal digits with no leading zero |
| Text.ParseNatToString | typescript/tracer/packageCrawler.ts:132 | the rendered count reads back as the same number |
| PatternLoader.SplitWhitespace | typescript/tracer/packageCrawler.ts:15 | `split(/\s+/)`: at least one token, no token holds whitespace, only the first or the last token can be empty, and for non-empty text the first token is empty exactly when the text starts with whitespace, and otherwise starts with the text's first character; where the cuts fall, for any runs of whitespace, is stated by SplitWhitespaceJoinRuns |
| PatternLoader.SplitWhitespaceKeepsText | typescript/tracer/packageCrawler.ts:15 | the tokens laid end to end are the text with its whitespace removed and nothing else |
| PatternLoader.SplitWhitespaceJoin | typescript/tracer/packageCrawler.ts:15 | whitespace-free tokens joined by single spaces split back into the same tokens (only the first and last may be empty) |
| PatternLoader.SplitWhitespaceRun | typescript/tracer/packageCrawler.ts:15 | a run of one or more whitespace characters (spaces, tabs, line feeds, any mix) in front of text that does not start with whitespace cuts off exactly one empty token and nothing else |
| PatternLoader.SplitWhitespaceJoinRuns | typescript/tracer/packageCrawler.ts:15 | whitespace-free tokens separated by arbitrary runs of whitespace split back into the same tokens (only the first and last may be empty): every run, whatever its length or mix, is one cut |
| PatternLoader.ExampleOnePerLine | typescript/tracer/packageCrawler.ts:14-28 | a pattern file of one pattern per line with a final line feed, `alpha\nbeta\n`, splits into `alpha`, `beta` and a trailing empty token, and loads as `alpha`, `beta` |
| PatternLoader.TrimAllSplit | typescript/tracer/packageCrawler.ts:15-16 | trimming the split tokens changes none of them |
| PatternLoader.IsPattern | typescript/tracer/packageCrawler.ts:19-27 | the per-token test: non-empty, an ASCII letter somewhere, and only letters, `@`, `/` and `-`; its meaning as a filter is stated by KeepPatterns, KeptPositionsExact and ReadPatternsSelects |
| PatternLoader.KeepPatterns | typescript/tracer/packageCrawler.ts:17-28 | the filter keeps no more tokens than it is given, each kept token is one of them, and each has a letter and only allowed characters |
| PatternLoader.ReadPatterns | typescript/tracer/packageCrawler.ts:11-29 | every loaded pattern is non-empty, contains an ASCII letter, uses only letters, `@`, `/` and `-` (no digit), and holds no whitespace |
| PatternLoader.KeepPatternsPicks | typescript/tracer/packageCrawler.ts:17-28 | the kept tokens are exactly the tokens at the listed passing positions, in order |
| PatternLoader.KeptPositionsExact | typescript/tracer/packageCrawler.ts:17-28 | the listed positions strictly increase, and a position is listed if and only if its token passes the filter |
| PatternLoader.ReadPatternsSelects | typescript/tracer/packageCrawler.ts:14-28 | readPatterns keeps exactly the tokens of the split that pass the filter, in their order, duplicates included |
| PatternLoader.ExampleReadPatterns | typescript/tracer/packageCrawler.ts:19-27 | `alpha beta!!! gamma-1` loads as the single pattern `alpha`: `!` and the digit `1` are refused |
| PatternLoader.BlankPatternFile | typescript/tracer/packageCrawler.ts:14-28 | a pattern file holding only whitespace, or nothing, loads no pattern |
| TreeWalker.JoinPath | typescript/tracer/packageCrawler.ts:46 | `path.join(dir, name)` for a canonical directory and a plain entry name; what it builds is stated by JoinPathParts and JoinPathInjective |
| TreeWalker.JoinPathParts | typescript/tracer/packageCrawler.ts:46 | the joined path is the directory, then a `/`, then the entry name, with exactly one separator between them |
| TreeWalker.JoinPathInjective | typescript/tracer/packageCrawler.ts:46 | in one directory, distinct entry names give distinct paths |
| TreeWalker.WalkDir | typescript/tracer/packageCrawler.ts:31-61 | a successful walk only adds to the visited set, adding exactly the directories it expanded, each listable, not visited before and expanded once; a directory whose canonical path is already visited yields no file and changes nothing; after a successful walk the directory's canonical path is visited |
| TreeWalker.WalkEntries | typescript/tracer/packageCrawler.ts:45-58 | the same for the loop over the entries of one directory from a given index on |
| TreeWalker.ListFiles | typescript/tracer/packageCrawler.ts:120 | a walk from the target directory with an empty visited set; its result is characterised in both directions by WalkDirShape and returned by Walker.ListFilesRecursively |
| TreeWalker.ExtendsByConcat | typescript/tracer/packageCrawler.ts:53 | a walk from `v` followed by a walk from where it stopped is one walk from `v`: the visited set is shared across recursive calls |
| TreeWalker.WalkDirShape | typescript/tracer/packageCrawler.ts:35-56 | both directions. Every expanded directory is the root's canonical path or was reached from an earlier one through a non-excluded directory entry, and every listed file is the join of an expanded directory with one of its regular-file entries. Conversely, every regular-file entry of an expanded directory is listed, and every non-excluded directory entry of one has its canonical path in the visited set |
| TreeWalker.WalkEntriesShape | typescript/tracer/packageCrawler.ts:45-58 | the same two directions for the walk over one directory's entries from an index on, which also accounts for each of those entries: a regular file is listed, and a non-excluded directory is visited by its canonical path |
| TreeWalker.WalkDirSound | typescript/tracer/packageCrawler.ts:35-56 | the first direction alone, by induction: expanded directories are reached through non-excluded directory entries, and listed files are regular-file entries of expanded directories |
| TreeWalker.WalkEntriesSound | typescript/tracer/packageCrawler.ts:45-58 | the first direction for the entry loop |
| TreeWalker.WalkDirComplete | typescript/tracer/packageCrawler.ts:45-56 | the converse, by induction: no regular-file entry of an expanded directory is missing from the files, and every non-excluded directory entry of one is visited |
| TreeWalker.WalkEntriesComplete | typescript/tracer/packageCrawler.ts:45-56 | the converse for the entry loop from index `i`: each entry from `i` on is accounted for, and so is every entry of the directories it expanded |
| TreeWalker.SubdirComplete | typescript/tracer/packageCrawler.ts:52-53 | pushing a subdirectory's files and then walking the remaining entries keeps everything either walk accounted for, and accounts for the subdirectory entry itself |
| TreeWalker.ExampleCycle | typescript/tracer/packageCrawler.ts:37-40 | a directory entry whose canonical path is a path already visited (here the parent itself) is cut off by the visited check, so the parent is walked once and its one file is listed |
| TreeWalker.ExampleLinkIgnored | typescript/tracer/packageCrawler.ts:52-57 | a symbolic link back to the parent is neither listed nor followed: the walk expands only the root and lists its one file |
| TreeWalker.ExampleExclusions | typescript/tracer/packageCrawler.ts:48-57 | a regular file named `node_modules` is listed, a `.git` directory is not entered, a subdirectory is, and a symbolic link to a directory reachable no other way is neither listed nor followed, so that directory's file is absent |
| TreeWalker.Walker.ListFilesRecursively | typescript/tracer/packageCrawler.ts:31-61 | the method returns the walk's files, or its failure, and leaves in `visited` the visited set the walk ends with; `visited` never shrinks |
| TreeWalker.Walker.constructor | typescript/tracer/packageCrawler.ts:31 | a walk starts with an empty visited set |
| LineMatcher.DropCR | typescript/tracer/packageCrawler.ts:73 | at most one trailing carriage return is removed |
| LineMatcher.SplitLines | typescript/tracer/packageCrawler.ts:73 | `split(/\r?\n/)`: one more line than there are line feeds, none holding a line feed; which lines come out, for any mix of CRLF and LF endings, is stated by SplitLinesJoinMixed |
| LineMatcher.JoinMixedPieces | typescript/tracer/packageCrawler.ts:73 | text whose lines end in any mix of CRLF and LF is the same as the pieces (a line, plus its carriage return where it ended in CRLF) joined by line feeds |
| LineMatcher.SplitLinesJoinMixed | typescript/tracer/packageCrawler.ts:73 | lines joined with any mix of CRLF and LF endings, chosen line by line, split back into the same lines, provided no line that ends in a bare LF ends in a carriage return of its own |
| LineMatcher.ExampleMixedEndings | typescript/tracer/packageCrawler.ts:73 | `a\r\nb\nc` cuts into `a`, `b`, `c` |
| LineMatcher.MatchesAsWord | typescript/tracer/packageCrawler.ts:84-89 | the regular-expression test of the escaped pattern flanked by a start-of-line-or-non-alphanumeric group and a non-alphanumeric-or-end-of-line group: the pattern occurs literally with a line edge or a non-alphanumeric character on each side; stated both ways by MatchInContext and MatchHasContext |
| LineMatcher.MatchInContext | typescript/tracer/packageCrawler.ts:86-89 | a non-empty pattern flanked by non-alphanumeric characters or line edges matches |
| LineMatcher.MatchHasContext | typescript/tracer/packageCrawler.ts:86-89 | conversely, every match is such an occurrence: the line splits around the pattern with non-alphanumeric neighbours or edges |
| LineMatcher.NoMatchInsideWord | typescript/tracer/packageCrawler.ts:87 | inside a run of letters and digits a pattern matches only the whole run |
| LineMatcher.ExampleWordBoundaries | typescript/tracer/packageCrawler.ts:87 | `foo` matches `a foo b` and `(foo)`, but neither `foobar` nor `xfoo` |
| LineMatcher.LineMatchesExact | typescript/tracer/packageCrawler.ts:78-97 | a line yields a result for a pattern if and only if the pattern is among the patterns and matches the line as a word; the result carries the file, the line number and the whole line |
| LineMatcher.LineMatchesAppend | typescript/tracer/packageCrawler.ts:78 | the results of a line follow pattern order |
| LineMatcher.AllLineMatchesExact | typescript/tracer/packageCrawler.ts:75-98 | a result is in a file's results if and only if its line number names an existing line, 1-based, and that line yields it |
| LineMatcher.AllLineMatchesOrdered | typescript/tracer/packageCrawler.ts:75-98 | results come in non-decreasing line order, and every line number is between 1 and the number of lines |
| LineMatcher.FileMatches | typescript/tracer/packageCrawler.ts:63-101 | the results of one file; characterised by AllLineMatchesExact and AllLineMatchesOrdered and computed by SearchPatternsInFile |
| LineMatcher.SearchPatternsInFile | typescript/tracer/packageCrawler.ts:63-101 | the nested loops compute exactly the file's results: none when the file cannot be read, otherwise each line against each pattern in order, skipping empty patterns |
| Crawler.AllResults | typescript/tracer/packageCrawler.ts:121-127 | the results of every listed file, concatenated in listing order; characterised by AllResultsExact |
| Crawler.FormatResult | typescript/tracer/packageCrawler.ts:135-139 | one result line: file, `:`, line number, the pattern in square brackets, then the line's content; that the report reads back line by line is stated by ReportReadsBack |
| Crawler.FormatAll | typescript/tracer/packageCrawler.ts:135-139 | one formatted line per result |
| Crawler.BuildReport | typescript/tracer/packageCrawler.ts:129-141 | the loop builds the four header lines and one formatted line per result, joined by line feeds |
| Crawler.SearchPatternsFromFile | typescript/tracer/packageCrawler.ts:109-143 | the scan fails when the pattern file cannot be read, stops with no report when no pattern loads, fails when the walk fails, and otherwise returns the report of all files' results in listing order |
| Crawler.ReportProducedIff | typescript/tracer/packageCrawler.ts:114-120 | a report is produced if and only if the pattern file is readable, some pattern loads and the walk succeeds; with no pattern, the filesystem and target directory do not matter |
| Crawler.AllResultsExact | typescript/tracer/packageCrawler.ts:120-127 | a result is in the scan's results if and only if its file was listed and readable, its line number names an existing line of that file, and the pattern is among the patterns and matches that line as a word |
| Crawler.ReportLinesOneLine | typescript/tracer/packageCrawler.ts:129-139 | no report line holds a line feed when no pattern, directory or result field does |
| Crawler.ReportReadsBack | typescript/tracer/packageCrawler.ts:129-141 | cut at its line feeds, the report gives back the patterns line, the directory line, a count line whose number reads back as the number of results, an empty line, and each result's line in order |
| Crawler.PatternsOneLine | typescript/tracer/packageCrawler.ts:14-28 | loaded patterns hold no line feed |
| Crawler.ResultsOneLine | typescript/tracer/packageCrawler.ts:90-95 | results hold no line feed when paths and patterns hold none |
| Crawler.Scan | typescript/tracer/packageCrawler.ts:109-143 | the whole scan as one function; its outcomes are stated by ReportProducedIff, AllResultsExact and ScanReportLines and computed by SearchPatternsFromFile |
| Crawler.ScanReportLines | typescript/tracer/packageCrawler.ts:114-141 | a scan's report, cut at line feeds, is the header followed by one formatted line per result of the listed files |
| Crawler.ExampleScan | typescript/tracer/packageCrawler.ts:109-141 | a scan end to end: a pattern file of three words and a tree holding one file that mentions `alpha` give a one-result report |

## Left out

- Reading and writing real files: the pattern file's text is a parameter (`None` when reading throws), and the filesystem is a value. The report is returned rather than written to the output file, so a failing write is not modelled.
- The console messages (packageCrawler.ts:116, 125, 142): the model prints nothing.
- The command-line entry point (packageCrawler.ts:145-170): argument handling and the error exit.
- Crawler.SearchPatternsFromFile: a pattern file that cannot be read, or a walk that throws, ends the scan with a `Failure` value instead of an exception.
- The regular-expression engine: the `\s` class, `split(/\s+/)`, `split(/\r?\n/)`, the letter and allowed-character tests and the word test are written out as character predicates. The escaping of pattern metacharacters (packageCrawler.ts:84) exists only so that each pattern is matched literally, and the model matches literally directly.
- Text encoding: strings are sequences of Unicode characters. UTF-8 decoding and JavaScript's UTF-16 code units are not modelled.
- TreeWalker.JoinPath: `path.join` is modelled for a canonical directory and a plain entry name. `..` segments, repeated separators and Windows separators are not normalised.
- TreeWalker.Walker.ListFilesRecursively: after a failure, the method states only that `visited` did not shrink, not which directories it holds.
- The same file reached through two hard-linked names is listed twice, as in the source. No property about duplicate files is claimed.
- `traceFromStack.ts` and `downloadFile.ts` are not part of this model.
