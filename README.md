# elide-context-engine-mcp: a verified model of the analysis and memory tools

This project models the parts of the elide-context-engine MCP server that are
its own logic rather than glue around the MCP transport, Babel or escomplex:

- `analyzeDependencies`, the directory import-graph builder. It walks a
  directory, skips dot-directories and `node_modules`, and collects
  `.js/.jsx/.ts/.tsx` files. It then seeds one node per file, and resolves each
  file's relative imports against the collected files to make `import` edges.
- The counting parts of `getASTSummary` and `getComplexitySummary`.
- The memory tools of the server:
  - `memory_suggest`: line splitting, keyword classification and first-wins
    deduplication by text;
  - `memory_update`: entry rendering and appending;
  - memory directory and default file selection (`getMemoryDir`,
    `getDefaultMemoryFile`);
  - `memory_search`: a walk of the memory directory with a substring filter and
    a 200-character excerpt.
- `code_analyze`: file and byte counting over a directory tree.

The filesystem is a tree of entries (`FileSystem.Entry`):

- a directory whose listing is readable or throws;
- a regular file with its size and its text, or a failed read;
- another kind of stat-able entry (socket, FIFO, device);
- an entry whose `stat` throws.

Node's `path.join`, `relative`, `resolve` and `dirname` are uninterpreted
functions (`FileSystem.PathOps`). The import sources a parsed file declares are
a parameter `imports: string -> Option<seq<string>>`, where `None` means that
reading or parsing the file throws. Lower-casing in `memory_search` is a
parameter `lower`.

All three directory walks enumerate the same pre-order sequence of
non-directory entries (`FileSystem.Visited`). That enumeration is proved sound
and complete against an independent reachability predicate (`Reaches`). Each
walk is a filter over it. Each walk is also written as the recursive,
accumulator-threading method the source uses, proved equal to that filter.

Modules, one per file:

- `Common`: wrappers and sequence helpers.
- `FileSystem`: the tree and the enumeration.
- `DependencyGraph`: `analyzeDependencies`.
- `AnalysisSummary`: the two summaries.
- `MemorySuggest`: `memory_suggest`.
- `MemoryStore`: the memory location and `memory_update`.
- `MemorySearch`: `memory_search`.
- `CodeAnalyze`: `code_analyze`.

**An unreadable root is not an error.** The outer `catch` of
`analyzeDependencies` (src/advanced-analysis.js:250-251) would return an
`{error, directory}` result. But the walk's own `catch`
(src/advanced-analysis.js:190) absorbs the failed `readdirSync` of the root
first, so the function returns an empty graph instead
(`DependencyGraph.UnreadableRootGivesEmptyGraph`).

**A relative root gives no edges.** The walk builds each collected path with
`path.join` from the root, so a relative root such as `./src` yields relative
paths. Each import's `path.resolve` (src/advanced-analysis.js:222) is always
absolute. The `find` at src/advanced-analysis.js:223-227 therefore never
matches, and the graph has nodes but no edges
(`DependencyGraph.RelativeRootHasNoEdges`). That lemma states these two path
facts as hypotheses; elsewhere `path` stays uninterpreted.

## Model

| member | source | states |
|---|---|---|
| FileSystem.VisitedSound | src/advanced-analysis.js:177-191 | Every visit of a walk is a stat-able non-directory lying below the listing. It sits inside readable directories none of which the walk prunes. Its path is the one built from the directory names on its trail. |
| FileSystem.VisitedComplete | src/advanced-analysis.js:177-191 | Every stat-able non-directory below the listing is visited, at its built path. This holds when it is reached only through readable directories the walk enters. Failures elsewhere do not stop the walk. |
| FileSystem.VisitsDistinct | src/advanced-analysis.js:177-191 | In a well-named tree (every listing holds valid, pairwise different names), no two visits share both trail and name. |
| FileSystem.SlashJoinIsInjective | src/advanced-analysis.js:180 | With a `path.join` that puts one `/` between its arguments, the path built from valid names (non-empty, no `/`, not `.` or `..`) determines those names. |
| DependencyGraph.Skipped | src/advanced-analysis.js:183 | Defines which directories the walk does not enter: a name starting with `.`, or `node_modules`. |
| DependencyGraph.HasSourceExt | src/advanced-analysis.js:185 | Defines the source-file test on the entry's name: it ends in `.js`, `.jsx`, `.ts` or `.tsx`. |
| DependencyGraph.CollectSources | src/advanced-analysis.js:177-191 | The recursive walk appends exactly the paths of the kept visits, in pre-order. |
| DependencyGraph.CollectedIffReachableSource | src/advanced-analysis.js:183-186 | A path is collected iff it belongs to a regular file with a source extension. The file must be reached through readable directories, none a dot-directory or `node_modules`. |
| DependencyGraph.CollectedPathsDistinct | src/advanced-analysis.js:177-191 | In a well-named tree, no file is collected twice: the kept visits have distinct keys. Their paths are distinct whenever the built path determines the valid names it was built from, which holds for a `/`-joining `path.join` (`SlashJoinIsInjective`). |
| DependencyGraph.CollectedAreSourceFiles | src/advanced-analysis.js:185-186 | Every collected path is the path of a regular source file. Nothing is collected unless the root is a readable directory. |
| DependencyGraph.StripSourceExt | src/advanced-analysis.js:224-225 | Removes exactly one trailing `.js/.jsx/.ts/.tsx`. A path without one is unchanged. |
| DependencyGraph.ResolvesTo | src/advanced-analysis.js:223-227 | The `find` predicate is equivalent to equality of the stripped paths. The raw-equality disjunct adds nothing. |
| DependencyGraph.FindTarget | src/advanced-analysis.js:223-227 | None iff no file resolves. Otherwise the result is a collected file that resolves. |
| DependencyGraph.FindTargetFirst | src/advanced-analysis.js:223-227 | The result is the first resolving file in walk order: a resolving file with no resolving file before it is the one found. |
| DependencyGraph.ExtensionlessSpecifierResolves | src/advanced-analysis.js:223-227 | The `find` predicate accepts `base + ext` for an extensionless resolved path `base` and any of the four extensions. Whether such a file is in `files` is a separate question (see `RelativeRootHasNoEdges`). |
| DependencyGraph.EdgesForImport | src/advanced-analysis.js:217-237 | Defines the edge one declaration contributes. There is at most one, and only for a relative specifier whose first resolving file is a non-empty path. |
| DependencyGraph.AddImportEdges | src/advanced-analysis.js:216-239 | The import visitor appends exactly the file's edges, in declaration order. |
| DependencyGraph.AddImportEdge | src/advanced-analysis.js:217-237 | One declaration appends an edge iff its specifier is relative and the first resolving file is a non-empty path. The edge goes from the file's id to the target's id. |
| DependencyGraph.SeedNodes | src/advanced-analysis.js:197-204 | The seeding loop yields one node per collected file, in order, with `id = relative(root, file)` and the file as its path. |
| DependencyGraph.BuildEdges | src/advanced-analysis.js:206-241 | The per-file loop yields the edges of every file in file order. A file whose read or parse fails adds none. |
| DependencyGraph.Analyze | src/advanced-analysis.js:169-249 | Defines the result without loops: the collected files, one node per file, the edges of every file, and the two counts. |
| DependencyGraph.AnalyzeDependencies | src/advanced-analysis.js:169-249 | The imperative builder's result is the walk's nodes and edges with their counts: one node per collected file, in order, with `id = relative(root, file)`. |
| DependencyGraph.EdgesForFileEndpoints | src/advanced-analysis.js:229-235 | Every edge of a file has kind `import`. It goes from that file's id to the id of a collected file. |
| DependencyGraph.EdgesForFilesEndpoints | src/advanced-analysis.js:206-241 | Every edge goes from the id of some collected file to the id of a collected file, with kind `import`. |
| DependencyGraph.AnalyzeWellFormed | src/advanced-analysis.js:197-249 | `totalFiles` and `totalDependencies` are the node and edge counts. Every edge is an `import` edge between two node ids of the same result. |
| DependencyGraph.RelativeRootHasNoEdges | src/advanced-analysis.js:177-241 | Suppose `path.resolve` is always absolute and `path.join` keeps a non-empty relative path relative. Then a non-empty relative root gives a graph with no edges and a zero dependency count. |
| DependencyGraph.UnreadableRootGivesEmptyGraph | src/advanced-analysis.js:178-193 | A missing, non-directory or unreadable root gives an empty graph with zero counts, not an error. |
| DependencyGraph.EdgesForFileAppend | src/advanced-analysis.js:216-239 | A file's edges are those of its declarations concatenated. No deduplication takes place. |
| DependencyGraph.OnlyRelativeSpecifiersMatter | src/advanced-analysis.js:221 | Dropping the non-relative specifiers leaves a file's edges unchanged. |
| DependencyGraph.FailedFileLosesOnlyItsEdges | src/advanced-analysis.js:206-241 | A file whose read or parse fails contributes no edges. Every other file's edges are the same as without it. |
| AnalysisSummary.ASTSummary | src/advanced-analysis.js:260-268 | The error is reported iff the result carries a non-empty one. An empty message makes the summary throw. Otherwise the summary reports the five list lengths. |
| AnalysisSummary.ComplexitySummaryOf | src/advanced-analysis.js:276-286 | An error is reported iff the result carries a non-empty message. |
| AnalysisSummary.HighComplexityCount | src/advanced-analysis.js:279 | The high-complexity count is at most the method count. It equals the method count iff every method is above 10, and is zero iff none is. |
| AnalysisSummary.HighComplexityAppend | src/advanced-analysis.js:279 | The count splits over concatenated method lists. |
| AnalysisSummary.FailedComplexitySummary | src/advanced-analysis.js:154-160 | A failure with a message is summarised as that error. One with an empty message is summarised as an empty file with zero counts. |
| AnalysisSummary.ComplexityCountsOf | src/advanced-analysis.js:279-285 | A successful analysis reports every method. It reports a positive high count whenever some method exceeds 10. |
| MemorySuggest.Trim | src/node-server.js:41 | The result is a block of the input. It neither starts nor ends with ECMAScript white space. Everything cut before and after it is white space. It is empty iff the input is all white space. |
| MemorySuggest.SplitNewlineRuns | src/node-server.js:41 | At least one piece, and no piece holds a newline. |
| MemorySuggest.SplitThenJoin | src/node-server.js:41 | Joining the pieces with newlines gives the text with every newline run collapsed to one newline. |
| MemorySuggest.SplitJoinedLines | src/node-server.js:41 | Non-empty newline-free lines, joined and terminated by a newline, split back into those lines plus one empty piece. |
| MemorySuggest.Lines | src/node-server.js:41 | Defines the lines: split on newline runs, trim each piece, drop the empty ones. |
| MemorySuggest.LineShape | src/node-server.js:41 | Every line is non-empty, newline-free and trimmed at both ends. |
| MemorySuggest.IsNoteLine | src/node-server.js:44 | Defines the note test: the ASCII-lowered line contains `decision`, `rule`, `note`, `todo` or `guideline`. |
| MemorySuggest.IsConfigLine | src/node-server.js:45 | Defines the config test: the ASCII-lowered line contains `api`, `endpoint`, `config` or `path`. |
| MemorySuggest.ClassificationIgnoresCase | src/node-server.js:44-45 | Upper-casing a line changes neither keyword test. |
| MemorySuggest.ClassifyLines | src/node-server.js:43-46 | The classification loop yields a note and then a config entry per line, each when the line qualifies. |
| MemorySuggest.DedupByText | src/node-server.js:47-49 | The `seen`-set loop keeps an entry iff no earlier entry has its text. |
| MemorySuggest.SuggestMemories | src/node-server.js:40-50 | The handler returns the distinct memory lines in input order, each as one entry. |
| MemorySuggest.StagesAreSuggestions | src/node-server.js:42-49 | Classify-then-dedup equals taking the distinct memory lines. A line matching both categories yields one `note` entry. |
| MemorySuggest.DistinctMembers | src/node-server.js:47-49 | First-wins dedup keeps every element and adds none. |
| MemorySuggest.DistinctHasNoDuplicates | src/node-server.js:47-49 | First-wins dedup keeps each element only once. |
| MemorySuggest.DistinctKeepsDuplicateFree | src/node-server.js:47-49 | First-wins dedup leaves a duplicate-free sequence unchanged. |
| MemorySuggest.SuggestionsSpec | src/node-server.js:41-49 | Entry texts are pairwise distinct. A text is proposed iff it is a line that mentions a keyword. An entry is a note iff its line qualifies as one. Tags are `["auto"]`. |
| MemorySuggest.EmptyTextSuggestsNothing | src/node-server.js:41 | Empty input proposes nothing. |
| MemoryStore.MemoryDir | src/node-server.js:20-26 | Defines `getMemoryDir`: `../.augment/rules` when it exists, `.mcp/memory` otherwise. |
| MemoryStore.ModeOf | src/node-server.js:64 | Defines the mode test: Augment iff the directory name contains `.augment`. |
| MemoryStore.DefaultMemoryFile | src/node-server.js:31-35 | Defines `getDefaultMemoryFile`: the file name chosen by the mode test, inside the memory directory. |
| MemoryStore.ModeOfMemoryDir | src/node-server.js:20-26 | The `.augment` test names the Augment mode iff `../.augment/rules` exists. |
| MemoryStore.DefaultMemoryFiles | src/node-server.js:31-35 | The default file is `mcp-memory.md` in the rules directory when it exists. Otherwise it is `project.mdc` in `.mcp/memory`. |
| MemoryStore.TargetFile | src/node-server.js:58 | A non-empty `file` argument wins. An absent or empty one falls back to the default file. |
| MemoryStore.Workspace.MemoryUpdate | src/node-server.js:57-66 | Creates the target's directory and appends the rendered entries to the target. Reports the entry count, the file and the mode. The mode is Augment iff the rules directory existed or the call created it. |
| MemoryStore.ModeAfterCreate | src/node-server.js:59-64 | Creating a directory switches the mode to Augment exactly when it is the rules directory. |
| MemoryStore.RenderEntry | src/node-server.js:60 | Defines one rendered line: `- [`, the type, `] `, then the text. |
| MemoryStore.AppendedText | src/node-server.js:60-61 | Defines what one call appends: the rendered lines joined by newlines, plus a final newline. |
| MemoryStore.NoEntriesAppendNewline | src/node-server.js:60-61 | Zero entries append a lone newline. |
| MemoryStore.AppendedLinesSplitBack | src/node-server.js:60-61 | When no type or text holds a newline, the appended text splits back into the rendered lines. |
| MemoryStore.RenderEntryInjective | src/node-server.js:60 | Entries whose types hold no `]` render alike only when they are equal. |
| MemorySearch.IsMemoryPath | src/node-server.js:83 | Defines which files the search reads: a path ending in `.mdc` or `.md`. |
| MemorySearch.Excerpt | src/node-server.js:85 | A prefix of the text: all of it when it has at most 200 characters, otherwise exactly its first 200. |
| MemorySearch.SearchTree | src/node-server.js:77-90 | The recursive walk appends exactly the hits below the listing, in pre-order. |
| MemorySearch.SearchEntry | src/node-server.js:80-87 | One listed entry appends the hits of its subtree when it is a directory. Otherwise it appends one hit iff it is a readable memory file whose text contains the query. |
| MemorySearch.SearchResults | src/node-server.js:75-92 | Defines the results without the walk: none for a missing or unreadable root, otherwise the hits of the walk from the memory directory. |
| MemorySearch.Search | src/node-server.js:72-96 | The handler returns the hits of the memory directory's walk, none when the root is missing or unreadable. It names the mode from the rules directory's existence. |
| MemorySearch.HitIffReachableMatch | src/node-server.js:79-86 | A visit is a hit iff it is a readable regular file below the root (hidden directories included) with a `.md`/`.mdc` path. Its lower-cased text must also contain the lower-cased query. |
| MemorySearch.HitsAreExcerpts | src/node-server.js:83-85 | Every hit names a visited memory file. Its excerpt is exactly `Excerpt` of that file's text: its first 200 characters, or all of a shorter text. |
| MemorySearch.MissingRootFindsNothing | src/node-server.js:76-92 | A missing or unreadable memory directory gives no results. |
| CodeAnalyze.HasCodeExt | src/node-server.js:103-114 | Defines the counted paths: those ending in one of the 12 code extensions listed at line 103, as tested at line 114. |
| CodeAnalyze.WalkCode | src/node-server.js:108-118 | The recursive walk adds exactly the number of counted visits, and exactly the sum of their sizes. |
| CodeAnalyze.WalkEntry | src/node-server.js:110-115 | One listed entry adds the counts of its subtree when it is a directory. Otherwise it adds one file and its size iff its path has a code extension. |
| CodeAnalyze.CodeReportOf | src/node-server.js:105-124 | Defines the report without the walk: an error for a failed stat, the counted visits and their sizes for a readable directory, zeros for an unreadable one, one file of its own size otherwise. |
| CodeAnalyze.Analyze | src/node-server.js:102-125 | The handler reports one of three things. A failed stat is an error. A directory gives the walk's counts. Any other target counts as one file of its own size. |
| CodeAnalyze.CountedIffReachableCode | src/node-server.js:110-114 | An entry is counted iff it is a stat-able non-directory below the root, through readable directories of any name, whose path has one of the 12 code extensions. |
| CodeAnalyze.TotalSizeAppend | src/node-server.js:114 | Byte counting splits over a concatenation of visits. |
| CodeAnalyze.SizeWithinTotal | src/node-server.js:114 | Every counted entry's size is within the byte total. |
| CodeAnalyze.NonDirectoryTargetCountsItself | src/node-server.js:120 | A non-directory target gives one file of its own size, whatever its extension. |
| CodeAnalyze.ZeroCountsWithoutWalk | src/node-server.js:117-123 | A failed stat and an unreadable directory both report zero files and zero bytes. Only the failed stat is an error. |

## Left out

- The MCP server, its stdio transport and the zod input schemas are not modelled. Neither is the `semantic_search` stub, nor the text of the messages the tools return.
- Babel parsing and traversal are not modelled, nor is `analyzeAST`'s visitor. Import extraction is the `imports` parameter. The items an AST analysis lists are represented by their names.
- `analyzeComplexity` and the escomplex metrics are not modelled. Only the failure result it builds is (`AnalysisSummary.ComplexityFailure`).
- AnalysisSummary.ComplexitySummaryOf: omits the maintainability index, which is rendered with the floating-point `toFixed`. `getDependencySummary` is left out for the same reason.
- The summaries are structured values, not the rendered multi-line text.
- The filesystem is not real: reads, stats, `mkdirSync` and `appendFileSync` act on the modelled state and never fail there. A failing `mkdirSync` or `appendFileSync` makes the handler throw, which is not modelled.
- DependencyGraph.CollectedPathsDistinct: the no-duplicate-paths clause holds under the hypothesis `PathOfInjective` on valid names. That hypothesis is proved for a `join` that puts one `/` between its arguments, not for Node's normalising `path.join`. Without it, only `(trail, name)` distinctness is established.
- Node's `path` functions are uninterpreted, except for the fixed memory locations, which are normalised relative paths. `RelativeRootHasNoEdges` adds only two path facts as hypotheses. Collected paths are proved distinct when the built path determines the valid names it was built from (`CollectedPathsDistinct`). That hypothesis is proved for a `join` that puts one `/` between its arguments (`SlashJoinIsInjective`), not for Node's `path.join` itself, which also normalises its first argument (`./src` becomes `src`). Node-id uniqueness is not claimed: it also depends on `path.relative` being injective on the collected paths.
- Symbolic links are seen only through what `stat` reports. The tree cannot express a link cycle.
- MemoryStore.Workspace.MemoryUpdate: records only the target's own directory as created, not the missing ancestors that `recursive: true` also creates. Directories are identified by their exact path string, without normalisation or aliasing. A target such as `./../.augment/rules/m.md`, or an absolute path into the rules directory, creates that directory in the source, and the next `getMemoryDir` then reports Augment. The model records a different string and reports Mcp.
- `fileMap` in `analyzeDependencies` is written and never read, so it is not modelled.
- The import sources of a file (the `imports` parameter) are independent of the text stored in its entry. The model therefore does not tie a failed read in the tree (`text` absent) to a failed parse in `analyzeDependencies`: the two are separate inputs.
- Unicode `toLowerCase` is the uninterpreted `lower` parameter. The keyword tests of `memory_suggest` use ASCII case folding, which is exact for their ASCII patterns without the `u` flag.
- Strings are sequences of characters, not UTF-16 code units. `slice(0, 200)` and `trim` are modelled on characters.
- File sizes and counters are unbounded naturals, not JavaScript doubles.
- Reading a socket, FIFO or device whose path ends in `.md`/`.mdc` is taken to fail.
- `getMemoryDir` is called more than once per request. The model lets the memory directory change between calls only through the request's own `mkdirSync`, not through concurrent changes by other processes.
- `type` and `text` of `memory_update` entries are taken to be strings. JavaScript would stringify other values.
- The mode selection from environment variables at src/node-server.js:8-9 is not modelled, and neither are the test scripts.
