/**
  The `explain` command's use of the engine: parse the target file, extract
  its imports, locate the function, extract its calls, and for each call of
  the shape `alias.Fn` with a known alias ask the resolver where `Fn` is
  declared. What the command prints is modelled as a report value.
 */
module Explain {
  import opened Wrappers
  import opened Syntax
  import Text
  import Imports
  import Query
  import Calls
  import Resolver

  /** One listed call: shown as is, or with the file and one-based line of its declaration. */
  datatype Display = Plain(call: string) | Located(call: string, file: string, line: nat)

  /** What one run of the command reports. */
  datatype Report =
    | ParseFailed
    | NotFound(imports: Imports.ImportMap, funcName: string)
    | Found(decl: Node, imports: Imports.ImportMap, calls: seq<Display>)

  /** A call the command tries to resolve: its alias, the alias's import path, and the function name. */
  datatype Target = Target(alias: string, pkgPath: string, fn: string)

  /** The call splits on "." into exactly two parts, and the first is a known alias. */
  function ResolutionTarget(call: string, imports: Imports.ImportMap): Option<Target>
  {
    if '.' in call then
      var parts := Text.Split(call, '.');
      if |parts| == 2 && parts[0] in imports then Some(Target(parts[0], imports[parts[0]], parts[1])) else None
    else None
  }

  /** The displayed form of one call. */
  function DisplayFor(call: string, imports: Imports.ImportMap, moduleName: Option<string>, fs: Resolver.FileSystem): Display
  {
    match ResolutionTarget(call, imports)
    case None => Plain(call)
    case Some(t) =>
      var r := Resolver.Resolve(moduleName, fs, t.pkgPath, t.fn);
      if r.err.None? && r.file != "" then Located(call, r.file, r.row + 1) else Plain(call)
  }

  function DescribeAll(calls: seq<string>, imports: Imports.ImportMap, moduleName: Option<string>, fs: Resolver.FileSystem): seq<Display>
  {
    seq(|calls|, i requires 0 <= i < |calls| => DisplayFor(calls[i], imports, moduleName, fs))
  }

  /** The report for a primary file that parsed (Some) or failed to (None). */
  function ExplainReport(parsed: Option<Tree>, funcName: string, moduleName: Option<string>, fs: Resolver.FileSystem): Report
  {
    match parsed
    case None => ParseFailed
    case Some(tree) =>
      var imports := Imports.ImportsOf(tree.importMatches);
      match Query.FirstDecl(tree.declMatches, funcName)
      case None => NotFound(imports, funcName)
      case Some(decl) =>
        var calls := Calls.Dedup(Calls.AllCallees(tree.callMatches(decl)));
        Found(decl, imports, DescribeAll(calls, imports, moduleName, fs))
  }

  /** The per-call loop: each call starts as plain and is replaced by its location when resolution succeeds. */
  method DescribeCalls(calls: seq<string>, imports: Imports.ImportMap, moduleName: Option<string>, fs: Resolver.FileSystem)
    returns (lines: seq<Display>)
    ensures |lines| == |calls|
    ensures forall i :: 0 <= i < |calls| ==> lines[i] == DisplayFor(calls[i], imports, moduleName, fs)
  {
    lines := [];
    for i := 0 to |calls|
      invariant |lines| == i
      invariant forall k :: 0 <= k < i ==> lines[k] == DisplayFor(calls[k], imports, moduleName, fs)
    {
      var call := calls[i];
      var display := Plain(call);
      if '.' in call {
        var parts := Text.Split(call, '.');
        if |parts| == 2 {
          var alias, fn := parts[0], parts[1];
          if alias in imports {
            var pkgPath := imports[alias];
            var resolved := Resolver.ResolveFunction(moduleName, fs, pkgPath, fn);
            if resolved.err.None? && resolved.file != "" {
              display := Located(call, resolved.file, resolved.row + 1);
            }
          }
        }
      }
      lines := lines + [display];
    }
  }

  /** The `explain` command: stops at a parse failure or a missing function, and otherwise lists the calls. */
  method Run(parsed: Option<Tree>, funcName: string, moduleName: Option<string>, fs: Resolver.FileSystem)
    returns (report: Report)
    ensures report == ExplainReport(parsed, funcName, moduleName, fs)
  {
    if parsed.None? {
      return ParseFailed;
    }
    var tree := parsed.value;
    var imports := Imports.ParseImports(tree.importMatches);
    var node := Query.FindFunctionDefinition(tree.declMatches, funcName);
    if node.None? {
      return NotFound(imports, funcName);
    }
    var calls := Calls.ExtractCalls(tree.callMatches(node.value));
    var lines := DescribeCalls(calls, imports, moduleName, fs);
    return Found(node.value, imports, lines);
  }

  /** A resolution target is the call split at its only dot, with a known alias. */
  lemma ResolutionTargetSpec(call: string, imports: Imports.ImportMap)
    ensures var t := ResolutionTarget(call, imports);
      t.Some? ==>
        call == t.value.alias + "." + t.value.fn && '.' !in t.value.alias && '.' !in t.value.fn &&
        t.value.alias in imports && t.value.pkgPath == imports[t.value.alias]
  {
    if '.' in call && |Text.Split(call, '.')| == 2 {
      Text.SplitTwoParts(call, '.');
    }
  }

  /** Conversely, `alias.fn` with dot-free parts is resolved exactly when the alias is known. */
  lemma ResolutionTargetOfSelector(alias: string, fn: string, imports: Imports.ImportMap)
    requires '.' !in alias && '.' !in fn
    ensures ResolutionTarget(alias + "." + fn, imports) ==
      if alias in imports then Some(Target(alias, imports[alias], fn)) else None
  {
    Text.SplitPair(alias, fn, '.');
    assert (alias + "." + fn)[|alias|] == '.';
  }

  /** A call with two or more dots, such as `pkg.Sub.Method`, is never resolved. */
  lemma NestedSelectorNotResolved(a: string, b: string, d: string, imports: Imports.ImportMap)
    ensures ResolutionTarget(a + "." + b + "." + d, imports) == None
  {
    Text.SplitMoreThanTwo(a, b, d, '.');
  }

  /** A call without a dot is shown verbatim and no resolution is attempted, whatever the file system holds. */
  lemma LocalCallShownVerbatim(call: string, imports: Imports.ImportMap, moduleName: Option<string>, fs: Resolver.FileSystem)
    requires '.' !in call
    ensures ResolutionTarget(call, imports) == None
    ensures DisplayFor(call, imports, moduleName, fs) == Plain(call)
  {
  }

  /**
    A call is shown with a location exactly when it has a resolution target
    whose import path is inside the module and whose resolution succeeds; the
    line shown is the declaration's zero-based row plus one.
   */
  lemma DisplaySpec(call: string, imports: Imports.ImportMap, moduleName: Option<string>, fs: Resolver.FileSystem)
    ensures var d, t := DisplayFor(call, imports, moduleName, fs), ResolutionTarget(call, imports);
      d.call == call &&
      (d.Located? <==>
        t.Some? && moduleName.Some? && Resolver.IsInternal(moduleName.value, t.value.pkgPath) &&
        Resolver.Resolve(moduleName, fs, t.value.pkgPath, t.value.fn).err.None?) &&
      (d.Located? ==>
        var r := Resolver.Resolve(moduleName, fs, t.value.pkgPath, t.value.fn);
        d.file == r.file && d.line == r.row + 1 && d.line >= 1)
  {
    var t := ResolutionTarget(call, imports);
    if t.Some? {
      Resolver.EmptyFileMeansExternal(moduleName, fs, t.value.pkgPath, t.value.fn);
    }
  }

  /**
    When the function is not found, the imports are still listed, but no call
    is extracted and nothing is resolved: the report is the same whatever the
    module name and the file system.
   */
  lemma NotFoundSkipsCalls(tree: Tree, funcName: string, m1: Option<string>, m2: Option<string>,
                           fs1: Resolver.FileSystem, fs2: Resolver.FileSystem)
    requires Query.FirstDecl(tree.declMatches, funcName).None?
    ensures ExplainReport(Some(tree), funcName, m1, fs1) == NotFound(Imports.ImportsOf(tree.importMatches), funcName)
    ensures ExplainReport(Some(tree), funcName, m1, fs1) == ExplainReport(Some(tree), funcName, m2, fs2)
  {
  }

  /**
    A found function lists each distinct callee text inside it once, in
    first-occurrence order, each with its display.
   */
  lemma FoundListsDistinctCalls(tree: Tree, funcName: string, moduleName: Option<string>, fs: Resolver.FileSystem)
    requires Query.FirstDecl(tree.declMatches, funcName).Some?
    ensures var report := ExplainReport(Some(tree), funcName, moduleName, fs);
      var callees := Calls.AllCallees(tree.callMatches(Query.FirstDecl(tree.declMatches, funcName).value));
      report.Found? &&
      (forall x :: x in callees <==> exists i :: 0 <= i < |report.calls| && report.calls[i].call == x) &&
      (forall i, j :: 0 <= i < j < |report.calls| ==> report.calls[i].call != report.calls[j].call)
  {
    var decl := Query.FirstDecl(tree.declMatches, funcName).value;
    var callees := Calls.AllCallees(tree.callMatches(decl));
    var calls := Calls.Dedup(callees);
    Calls.DedupElements(callees);
    Calls.DedupNoDuplicates(callees);
    var report := ExplainReport(Some(tree), funcName, moduleName, fs);
    assert |report.calls| == |calls|;
    assert forall i :: 0 <= i < |calls| ==> report.calls[i].call == calls[i];
    forall x | x in callees
      ensures exists i :: 0 <= i < |report.calls| && report.calls[i].call == x
    {
      var i :| 0 <= i < |calls| && calls[i] == x;
      assert report.calls[i].call == x;
    }
  }
}
