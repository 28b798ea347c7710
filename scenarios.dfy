/**
  Worked traces of the `explain` command over small, fully given inputs: one
  call resolved into a sibling package, and one into the standard library.
 */
module Scenarios {
  import opened Wrappers
  import opened Syntax
  import Text
  import Imports
  import Query
  import Calls
  import Resolver
  import Explain

  const RunDecl := Node("func run() { cli.Execute(); fmt.Println() }", 4, 4)
  const ExecuteCall := Capture(Calls.CalleeCapture, Node("cli.Execute", 4, 4))
  const PrintlnCall := Capture(Calls.CalleeCapture, Node("fmt.Println", 4, 4))
  const RunCallMatches: seq<Match> := [[ExecuteCall], [PrintlnCall]]
  const CliImport := Node("\"root/internal/cli\"", 2, 2)
  const FmtImport := Node("\"fmt\"", 3, 3)
  const ExecuteDecl := Node("func Execute() { }", 10, 12)

  const MainImportMatches: seq<Match> := [[Capture(Imports.PathCapture, CliImport)], [Capture(Imports.PathCapture, FmtImport)]]
  const MainDeclMatches: seq<Match> := [[Capture(Query.DeclCapture, RunDecl), Capture(Query.NameCapture, Node("run", 4, 4))]]

  /** main.go: imports "root/internal/cli" and "fmt", declares `run` calling `cli.Execute` and `fmt.Println`. */
  function MainTree(): Tree
  {
    Tree(MainImportMatches, MainDeclMatches, n => if n == RunDecl then RunCallMatches else [])
  }

  const TestExecuteDecl := Node("func Execute() { }", 3, 3)
  const TestDeclMatches: seq<Match> := [[Capture(Query.DeclCapture, TestExecuteDecl), Capture(Query.NameCapture, Node("Execute", 3, 3))]]
  const RootDeclMatches: seq<Match> := [[Capture(Query.DeclCapture, ExecuteDecl), Capture(Query.NameCapture, Node("Execute", 10, 10))]]

  /**
    internal/cli, listed sorted by name as os.ReadDir returns it: cli_test.go,
    which also declares `Execute` (at zero-based row 3), then root.go, which
    declares it at zero-based row 10.
   */
  function Project(): Resolver.FileSystem
  {
    Resolver.FileSystem(
      map["./internal/cli" := [Resolver.DirEntry("cli_test.go", false), Resolver.DirEntry("root.go", false)]],
      map["./internal/cli/cli_test.go" := Tree([], TestDeclMatches, n => []),
          "./internal/cli/root.go" := Tree([], RootDeclMatches, n => [])])
  }

  const MainImportMap: Imports.ImportMap := map["cli" := "root/internal/cli", "fmt" := "fmt"]

  /** The entry of main.go's first import. */
  lemma CliEntry()
    ensures Imports.EntryOf([Capture(Imports.PathCapture, CliImport)]) == Some(Imports.ImportSpec("cli", "root/internal/cli"))
  {
    LiteralShapes();
    Imports.UnaliasedImport(CliImport, "root/internal/cli");
    Text.BaseOfJoined("root/internal", "cli");
  }

  /** The entry of main.go's second import. */
  lemma FmtEntry()
    ensures Imports.EntryOf([Capture(Imports.PathCapture, FmtImport)]) == Some(Imports.ImportSpec("fmt", "fmt"))
  {
    LiteralShapes();
    Imports.UnaliasedImport(FmtImport, "fmt");
    Text.BaseOfPlainName("fmt");
  }

  lemma LiteralShapes()
    ensures CliImport.text == ['"'] + "root/internal/cli" + ['"']
    ensures FmtImport.text == ['"'] + "fmt" + ['"']
    ensures "root/internal/cli" == "root/internal" + "/" + "cli"
  {
  }

  /** `import "root/internal/cli"` and `import "fmt"` give the aliases `cli` and `fmt`. */
  lemma MainImports()
    ensures Imports.ImportsOf(MainImportMatches) == MainImportMap
  {
    CliEntry();
    FmtEntry();
    ImportsOfPair(MainImportMatches[0], MainImportMatches[1],
      Imports.ImportSpec("cli", "root/internal/cli"), Imports.ImportSpec("fmt", "fmt"));
    assert MainImportMatches == [MainImportMatches[0], MainImportMatches[1]];
  }

  lemma ImportsOfPair(m0: Match, m1: Match, e0: Imports.ImportSpec, e1: Imports.ImportSpec)
    requires Imports.EntryOf(m0) == Some(e0) && Imports.EntryOf(m1) == Some(e1)
    ensures Imports.ImportsOf([m0, m1]) == map[e0.alias := e0.path][e1.alias := e1.path]
  {
    var es := Imports.EntriesOf([m0, m1]);
    assert es == [Some(e0), Some(e1)];
    assert es[..1] == [Some(e0)] && es[..1][..0] == [];
    assert Imports.Build(es[..1]) == map[e0.alias := e0.path];
    assert Imports.Build(es) == Imports.Build(es[..1])[e1.alias := e1.path];
  }

  /** `run` is found in main.go. */
  lemma RunFound()
    ensures Query.FirstDecl(MainDeclMatches, "run") == Some(RunDecl)
  {
    Query.DeclarationMatch(RunDecl, Node("run", 4, 4), "run");
    assert MainDeclMatches[1..] == [];
  }

  /** The callees of `run`, in source order. */
  lemma RunCallees()
    ensures Calls.AllCallees(RunCallMatches) == ["cli.Execute", "fmt.Println"]
  {
    var c0, c1 := ExecuteCall, PrintlnCall;
    assert Calls.Callees([c0]) == ["cli.Execute"] by { assert [c0][..0] == []; }
    assert Calls.Callees([c1]) == ["fmt.Println"] by { assert [c1][..0] == []; }
    assert Calls.AllCallees(RunCallMatches[..1]) == ["cli.Execute"] by {
      assert RunCallMatches[..1] == [[c0]] && RunCallMatches[..1][..0] == [];
    }
  }

  /** The distinct calls of `run` are `cli.Execute` then `fmt.Println`. */
  lemma RunCalls()
    ensures Calls.Dedup(Calls.AllCallees(RunCallMatches)) == ["cli.Execute", "fmt.Println"]
  {
    RunCallees();
    var callees: seq<string> := ["cli.Execute", "fmt.Println"];
    assert Calls.Dedup(callees[..1]) == ["cli.Execute"] by {
      assert callees[..1] == ["cli.Execute"] && callees[..1][..0] == [];
    }
    assert "fmt.Println" !in ["cli.Execute"] by {
      assert "cli.Execute"[0] != "fmt.Println"[0];
    }
  }

  /** The trees the project's two files parse to. */
  lemma ProjectTrees()
    ensures "./internal/cli/cli_test.go" in Project().files && "./internal/cli/root.go" in Project().files
    ensures Project().files["./internal/cli/cli_test.go"].declMatches == TestDeclMatches
    ensures Project().files["./internal/cli/root.go"].declMatches == RootDeclMatches
  {
    assert "./internal/cli/cli_test.go" != "./internal/cli/root.go" by {
      assert "./internal/cli/cli_test.go"[15] != "./internal/cli/root.go"[15];
    }
  }

  /** Both files declare `Execute`: the test file at row 3, root.go at row 10. */
  lemma FilesDeclareExecute()
    ensures Query.FirstDecl(TestDeclMatches, "Execute") == Some(TestExecuteDecl)
    ensures Query.FirstDecl(RootDeclMatches, "Execute") == Some(ExecuteDecl)
  {
    Query.DeclarationMatch(TestExecuteDecl, Node("Execute", 3, 3), "Execute");
    assert TestDeclMatches[1..] == [];
    Query.DeclarationMatch(ExecuteDecl, Node("Execute", 10, 10), "Execute");
    assert RootDeclMatches[1..] == [];
  }

  /** `root/internal/cli` is internal to module `root` and lives in ./internal/cli. */
  lemma CliDirectory()
    ensures Resolver.IsInternal("root", "root/internal/cli")
    ensures Resolver.DirPath("root", "root/internal/cli") == "./internal/cli"
  {
    assert "root/internal/cli"[..4] == "root" && "root/internal/cli"[4..] == "/internal/cli";
  }

  /** cli_test.go is filtered out of the listing; root.go is a candidate. */
  lemma CliListing()
    ensures "./internal/cli" in Project().dirs && |Project().dirs["./internal/cli"]| == 2
    ensures !Resolver.IsCandidate(Project().dirs["./internal/cli"][0])
    ensures Resolver.IsCandidate(Project().dirs["./internal/cli"][1])
    ensures Project().dirs["./internal/cli"][1].name == "root.go"
  {
    assert "cli_test.go"[|"cli_test.go"| - 8..] == "_test.go";
    assert "root.go"[|"root.go"| - 3..] == ".go";
    assert |"_test.go"| > |"root.go"|;
  }

  /**
    `Execute` is found in ./internal/cli/root.go at row 10. cli_test.go comes
    first in the listing and parses to a tree declaring `Execute`, so only the
    `_test.go` filter keeps the scan from answering with it.
   */
  lemma ExecuteResolved()
    ensures Query.FirstDecl(Project().files["./internal/cli/cli_test.go"].declMatches, "Execute") == Some(TestExecuteDecl)
    ensures Resolver.Resolve(Some("root"), Project(), "root/internal/cli", "Execute") ==
      Resolver.Resolution("./internal/cli/root.go", 10, None)
  {
    ProjectTrees();
    CliListing();
    FilesDeclareExecute();
    CliDirectory();
    assert Resolver.JoinPath("./internal/cli", "root.go") == "./internal/cli/root.go";
    ResolveAtSecondEntry("root", Project(), "root/internal/cli", "Execute", "./internal/cli", ExecuteDecl);
  }

  /** A listing of two entries where only the second is a candidate, and it declares the function. */
  lemma ResolveAtSecondEntry(mod: string, fs: Resolver.FileSystem, importPath: string, funcName: string,
                             dir: string, decl: Node)
    requires Resolver.IsInternal(mod, importPath) && Resolver.DirPath(mod, importPath) == dir
    requires dir in fs.dirs && |fs.dirs[dir]| == 2
    requires !Resolver.IsCandidate(fs.dirs[dir][0]) && Resolver.IsCandidate(fs.dirs[dir][1])
    requires Resolver.JoinPath(dir, fs.dirs[dir][1].name) in fs.files
    requires Query.FirstDecl(fs.files[Resolver.JoinPath(dir, fs.dirs[dir][1].name)].declMatches, funcName) == Some(decl)
    ensures Resolver.Resolve(Some(mod), fs, importPath, funcName) ==
      Resolver.Resolution(Resolver.JoinPath(dir, fs.dirs[dir][1].name), decl.startRow, None)
  {
    var entries := fs.dirs[dir];
    var hit := Resolver.Hit(Resolver.JoinPath(dir, entries[1].name), decl.startRow);
    assert Resolver.Lookup(dir, entries[0], fs.files, funcName) == None;
    assert Resolver.Lookup(dir, entries[1], fs.files, funcName) == Some(decl);
    assert entries[1..][0] == entries[1] && entries[1..][1..] == [];
    assert Resolver.FirstHit(dir, entries[1..], fs.files, funcName) == Some(hit);
    assert Resolver.FirstHit(dir, entries, fs.files, funcName) == Some(hit);
  }

  /** `cli.Execute` is shown with its declaration's file and one-based line. */
  lemma ExecuteDisplay()
    ensures Explain.DisplayFor("cli.Execute", MainImportMap, Some("root"), Project()) ==
      Explain.Located("cli.Execute", "./internal/cli/root.go", 11)
  {
    assert "cli.Execute" == "cli" + "." + "Execute";
    Explain.ResolutionTargetOfSelector("cli", "Execute", MainImportMap);
    ExecuteResolved();
  }

  /** `fmt.Println` names an import outside the module, so it is shown unresolved and no error is raised. */
  lemma PrintlnDisplay()
    ensures Explain.DisplayFor("fmt.Println", MainImportMap, Some("root"), Project()) == Explain.Plain("fmt.Println")
  {
    assert "fmt.Println" == "fmt" + "." + "Println";
    Explain.ResolutionTargetOfSelector("fmt", "Println", MainImportMap);
    assert !Resolver.IsInternal("root", "fmt");
  }

  /** The two calls of `run`, displayed in order. */
  lemma RunDisplays()
    ensures Explain.DescribeAll(["cli.Execute", "fmt.Println"], MainImportMap, Some("root"), Project()) ==
      [Explain.Located("cli.Execute", "./internal/cli/root.go", 11), Explain.Plain("fmt.Println")]
  {
    DescribePair("cli.Execute", "fmt.Println", MainImportMap, Some("root"), Project());
    ExecuteDisplay();
    PrintlnDisplay();
  }

  lemma DescribePair(a: string, b: string, imports: Imports.ImportMap, moduleName: Option<string>, fs: Resolver.FileSystem)
    ensures Explain.DescribeAll([a, b], imports, moduleName, fs) ==
      [Explain.DisplayFor(a, imports, moduleName, fs), Explain.DisplayFor(b, imports, moduleName, fs)]
  {
  }

  /**
    Tracing `run` in module `root` lists `cli.Execute` as defined in
    ./internal/cli/root.go at line 11, and `fmt.Println` unresolved.
   */
  lemma TraceRun()
    ensures Explain.ExplainReport(Some(MainTree()), "run", Some("root"), Project()) ==
      Explain.Found(RunDecl, MainImportMap,
        [Explain.Located("cli.Execute", "./internal/cli/root.go", 11), Explain.Plain("fmt.Println")])
  {
    var tree := MainTree();
    assert tree.importMatches == MainImportMatches && tree.declMatches == MainDeclMatches;
    assert tree.callMatches(RunDecl) == RunCallMatches;
    MainImports();
    RunFound();
    RunCalls();
    RunDisplays();
  }
}
