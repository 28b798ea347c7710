# ctrace static-tracing engine, modelled in Dafny

ctrace is a command-line tool for Go projects. Its `explain <file> <function>`
command parses one Go file with tree-sitter and lists the file's imports.
It then finds the named function's declaration and lists the distinct calls
inside it. For a call of the form `alias.Fn`, where the alias names an import
path inside the current module, it shows where `Fn` is declared: the
directory of that package is scanned and the first Go source file declaring
`Fn` is reported with its one-based line.

This project models that engine and proves its rules. It has five parts:

- **Import extraction** (`Imports`). The capture loop keeps the last `alias`
  and `path` capture of each match. Quotes are trimmed from the path. A
  missing alias is derived with `path.Base`. Entries with an empty alias or
  path are dropped, and a later alias overwrites an earlier one.
- **Declaration lookup** (`Query`). The first match, in document order,
  whose `func_name` text is exactly the requested name supplies its
  `func_decl` node.
- **Call extraction** (`Calls`). The texts of the `callee` captures are
  deduplicated on first occurrence, through a `seen` map and an appended list.
- **Cross-file resolution** (`Resolver`). These rules apply in order:
  - the textual module-prefix test;
  - the directory `"." + TrimPrefix(importPath, module)`;
  - the candidate filter (not a directory, `.go`, not `_test.go`);
  - a first-match scan in listing order that skips files that do not parse;
  - the not-found error.
- **The `explain` command** (`Explain`). It stops on a parse failure. It
  reports the imports and "not found" when the function is missing.
  Otherwise it shows each call verbatim, or, when the call splits on `.`
  into exactly two parts with a known alias and the resolver succeeds, with
  the file and the row plus one.

Supporting modules:

- `Syntax` is the abstract tree-sitter interface. A query's results are a
  sequence of matches, and each match is a sequence of named captures of
  nodes. A parsed file holds the results of the three queries.
- `Text` holds the Go string functions the engine uses:
  `strings.HasPrefix`, `HasSuffix`, `TrimPrefix`, `Trim`, `Split`, and
  `path.Base`.
- `Scenarios` is a complete worked trace. Module `root` has a `main.go`
  that imports `root/internal/cli` and `fmt`, and a `run` function calls
  `cli.Execute` and `fmt.Println`. The trace resolves `cli.Execute` to
  `./internal/cli/root.go` at line 11 and leaves `fmt.Println` unresolved.

The loops of the source keep their imperative form:

- `ParseImports`, `FindFunctionDefinition` and `ExtractCalls` are methods
  with the source's nested loops.
- `ResolveFunction` has a `continue` and an early return.
- `DescribeCalls` reassigns `display`.

Each method is proved equal to a specification function, and the
properties are proved as lemmas about those functions.

Behaviours worth noting:

- The directory is scanned in listing order, with no sorting of its own.
  `os.ReadDir` returns the entries sorted by file name. The model takes the
  listing as an input and accepts any order, so every resolver lemma also
  holds for the sorted one. The worked trace uses a sorted listing.
- The prefix test is purely textual, so with module `root` the path
  `rootkit/pkg` counts as internal and is looked up in `.kit/pkg`
  (`Resolver.PrefixIsTextual`).
- The "Found function" line prints zero-based rows, while call locations
  are one-based. The report keeps the declaration node, whose rows are
  zero-based.

## Model

| member | source | states |
|---|---|---|
| Syntax.LastSpec | internal/parser/imports.go:44-54 | the value a reassigning capture loop leaves is None iff no capture has that name, and otherwise the node of a capture with that name after which none has it |
| Imports.ParseImports | internal/parser/imports.go:34-66 | the loop's map equals the fold of the per-match entries; every key and value is non-empty; no matches give the empty map |
| Imports.ImportsNonEmpty | internal/parser/imports.go:61-63 | no entry of the import map has an empty alias or an empty path |
| Imports.EntryWhenPath | internal/parser/imports.go:57-63 | a match adds an entry exactly when its path is non-empty after trimming the quotes |
| Imports.StoredPathUnquoted | internal/parser/imports.go:50-53 | a stored path is a middle slice of the last path literal, with everything before and after it a quote, and it neither starts nor ends with a quote |
| Imports.ExplicitAliasKept | internal/parser/imports.go:48-49 | a non-empty alias capture is the key, not the path's last element |
| Imports.DerivedAlias | internal/parser/imports.go:56-59 | without an alias capture, the key is the slash-free tail of the path that follows a slash (for a path not ending in a slash) |
| Imports.UnaliasedImport | internal/parser/imports.go:56-62 | an unaliased quoted path is stored under path.Base of the unquoted path |
| Imports.AliasedImport | internal/parser/imports.go:48-62 | an aliased quoted path is stored under the alias, with the quotes removed |
| Imports.AliasExamples | internal/parser/imports.go:48-59 | `"a/b/c"` is stored under `c`; `x "a/b/c"` under `x` |
| Imports.ImportsKeys | internal/parser/imports.go:61-63 | an alias is a key iff some match adds an entry under it |
| Imports.ImportsLastWins | internal/parser/imports.go:62 | the path under an alias is that of the last match adding that alias |
| Query.FindFunctionDefinition | internal/parser/query.go:31-61 | the scan with early return gives the first declaring match's `func_decl` node, or None when no match declares the name |
| Query.FirstDeclSpec | internal/parser/query.go:31-61 | None iff no match has both captures and a name text equal to the target; otherwise the `func_decl` of a match that does, with no earlier match that does |
| Query.FirstDeclIsEarliest | internal/parser/query.go:31-58 | the earliest declaring match fixes the result, whatever follows it |
| Query.DeclarationMatch | internal/parser/query.go:42-57 | a match of a declaration capture then a name capture declares exactly the name's text, and supplies the declaration node |
| Query.ExactNameOnly | internal/parser/query.go:55 | names compare exactly: `Exec` and `execute` do not find `Execute` |
| Calls.ExtractCalls | internal/parser/calls.go:30-52 | the list is the first-occurrence dedup of the callee texts, has no duplicates, holds exactly the callee texts, and is empty for no matches; the loop keeps the keys of `seen` equal to the listed texts |
| Calls.DedupElements | internal/parser/calls.go:39-48 | a text is in the deduplicated list iff it is in the input |
| Calls.DedupNoDuplicates | internal/parser/calls.go:44-47 | the deduplicated list has no repeated text |
| Calls.DedupFirstOccurrence | internal/parser/calls.go:44-45 | listed texts are ordered by their first occurrence among the captures |
| Calls.FirstIndexExtend | internal/parser/calls.go:44-46 | appending a text does not move an earlier first occurrence |
| Calls.AllCalleesSpec | internal/parser/calls.go:39-43 | a text is a callee iff some capture named `callee` in some match has it |
| Calls.DedupExample | internal/parser/calls.go:44-47 | captures `a`, `b`, `a` give `[a, b]` |
| Resolver.ResolveFunction | internal/resolver/resolver.go:15-60 | the method returns the resolver's answer in every case: module-name error, external, unlistable directory, found, not found |
| Resolver.DirPath | internal/resolver/resolver.go:28-29 | for an internal path, the directory is `.` followed by the import path with the module-name prefix removed |
| Resolver.FirstHitSpec | internal/resolver/resolver.go:36-57 | the scan finds nothing iff no entry's lookup succeeds; otherwise it answers with the joined path and start row of the first entry whose lookup succeeds |
| Resolver.FirstHitReadsOnlyCandidates | internal/resolver/resolver.go:37-42 | the scan's answer depends only on the trees of candidate files |
| Resolver.ModuleNameFailure | internal/resolver/resolver.go:16-19 | an unknown module name gives the module-name error, whatever the file system holds |
| Resolver.ExternalShortCircuit | internal/resolver/resolver.go:22-24 | an external path gives ("", 0, no error), whatever the file system holds |
| Resolver.ScansOnlyItsDirectory | internal/resolver/resolver.go:28-42 | for an internal path only the computed directory and its candidate files are read |
| Resolver.InternalOutcomes | internal/resolver/resolver.go:31-59 | an unlistable directory gives a directory error; otherwise the answer is not-found (naming the function and import path) iff no candidate declares it, some candidate declaring it means no error, and a success is the first declaring candidate with that declaration's row |
| Resolver.EmptyFileMeansExternal | internal/resolver/resolver.go:22-24 | ("", no error) is returned exactly for an external path |
| Resolver.PrefixIsTextual | internal/resolver/resolver.go:22-29 | the prefix test is textual: `rootkit/pkg` is internal to `root` and scanned in `.kit/pkg` |
| Explain.DescribeCalls | internal/cli/explain.go:75-96 | one display per call, in order, each the display rule applied to that call |
| Explain.Run | internal/cli/explain.go:27-99 | the command's report: parse failure, not found with the imports, or the declaration, the imports and the call displays |
| Explain.ResolutionTargetSpec | internal/cli/explain.go:79-85 | a resolution target is the call split at its only dot into dot-free parts, the alias is a key of the import map, and its path is the one passed |
| Explain.ResolutionTargetOfSelector | internal/cli/explain.go:79-86 | conversely `alias.fn` with dot-free parts has a target iff the alias is a known import |
| Explain.NestedSelectorNotResolved | internal/cli/explain.go:80-81 | a call with two dots, such as `pkg.Sub.Method`, has no target |
| Explain.LocalCallShownVerbatim | internal/cli/explain.go:78-79 | a call without a dot has no target and is shown verbatim |
| Explain.DisplaySpec | internal/cli/explain.go:85-90 | a call shows a location iff it has a target, the module is known, the path is internal and the resolution has no error; the location is the resolver's file and row plus one |
| Explain.NotFoundSkipsCalls | internal/cli/explain.go:59-99 | a missing function gives the not-found report with the imports, independent of the module name and file system |
| Explain.FoundListsDistinctCalls | internal/cli/explain.go:64-96 | a found function lists each distinct callee text once, and only those |
| Scenarios.MainImports | internal/parser/imports.go:34-66 | `import "root/internal/cli"` and `import "fmt"` give the map `cli -> root/internal/cli`, `fmt -> fmt` |
| Scenarios.RunCalls | internal/parser/calls.go:30-52 | the distinct calls of `run` are `cli.Execute`, `fmt.Println` |
| Scenarios.ExecuteResolved | internal/resolver/resolver.go:15-56 | in the sorted listing `cli_test.go`, `root.go`, the test file parses and declares `Execute`, yet only the `_test.go` filter excludes it, and `Execute` resolves to `./internal/cli/root.go`, row 10 |
| Scenarios.TraceRun | internal/cli/explain.go:27-96 | tracing `run` lists `cli.Execute` at `./internal/cli/root.go:11` and `fmt.Println` unresolved |
| Text.TrimSpec | internal/parser/imports.go:52 | `strings.Trim` with one quote character leaves a middle slice, with only that character removed around it and at neither end |
| Text.BaseSpec | internal/parser/imports.go:58 | `path.Base` is never empty, and for a path not ending in `/` it is the slash-free tail after the last `/` |
| Text.SplitSpec | internal/cli/explain.go:80 | `strings.Split` parts contain no separator and join back to the input |
| Text.SplitPair | internal/cli/explain.go:80-83 | `a.b` with dot-free parts splits into exactly `[a, b]` |

## Left out

- Parsing is an input. Reading a file and the tree-sitter parser
  (`parser.ParseFile`) are given as `Option<Tree>` for the primary file and
  as the `files` map for the resolver: a path missing from it failed to
  read or parse.
- Queries are inputs. Compiling queries, the query cursor and
  `Node.Content` are given as each query's sequence of matches, with each
  node carrying its own text and rows. The query-compilation error paths
  are left out because the three query strings are constants.
- The call query's results are a function from declaration node to
  matches, since the query runs on the node found.
- `project.GetModuleName` is not part of this model. Its result is an
  `Option<string>` input, with `None` for its failure.
- `os.ReadDir` is the `dirs` map. A directory missing from it cannot be
  listed. A listing may come in any order: the sorting by file name that
  `os.ReadDir` guarantees is not imposed, so the lemmas cover every order,
  the sorted one included.
- Resolver.JoinPath: `filepath.Join` is modelled as `dir + "/" + name`
  without path cleaning, so a found file reads `./internal/cli/root.go`
  where Go would print `internal/cli/root.go`.
- The Go functions used here are modelled only for a single-character
  argument: `strings.Trim` with a one-character cutset, and
  `strings.Split` with a one-character separator. The source uses no other
  kind.
- Printing is modelled as a report value. Left out: the console text and
  ANSI colour codes, the `utils.Log` logger, and the map-iteration order
  of the imports listing.
- The ignored `ParseImports` error branch in the command is left out,
  because that function only fails on a query-compile error.
- Resource release (`tree.Close`, `q.Close`, `cursor.Close`) is left out.
