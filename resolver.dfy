/**
  Cross-file resolution (resolver.ResolveFunction): maps a module-internal
  import path to a directory, and returns the file and zero-based row of the
  first declaration of the function among that directory's Go source files,
  in listing order.

  The module name, the directory listing and the parser are inputs: the
  module name is `None` when it cannot be determined, a directory missing from
  `dirs` cannot be listed, and a file missing from `files` fails to read or
  parse.
 */
module Resolver {
  import opened Wrappers
  import opened Syntax
  import Text
  import Query

  /** One entry of a directory listing. */
  datatype DirEntry = DirEntry(name: string, isDir: bool)

  /** What the resolver can read: directory listings, and the trees of the files that parse. */
  datatype FileSystem = FileSystem(dirs: map<string, seq<DirEntry>>, files: map<string, Tree>)

  datatype ResolveError =
    | ModuleNameError
    | DirectoryError(dir: string)
    | NotFoundError(funcName: string, importPath: string)

  /** The (file, row, error) triple: ("", 0, None) is the "external dependency" answer. */
  datatype Resolution = Resolution(file: string, row: nat, err: Option<ResolveError>)

  /** A found declaration: the file holding it and its zero-based start row. */
  datatype Hit = Hit(file: string, row: nat)

  const SourceSuffix := ".go"
  const TestSuffix := "_test.go"

  /** The import path lies inside the module: a textual prefix test. */
  predicate IsInternal(moduleName: string, importPath: string)
  {
    Text.HasPrefix(importPath, moduleName)
  }

  /** The directory of an internal import path, relative to the working directory. */
  function DirPath(moduleName: string, importPath: string): (dir: string)
    ensures IsInternal(moduleName, importPath) ==> "." + importPath[|moduleName|..] == dir
  {
    "." + Text.TrimPrefix(importPath, moduleName)
  }

  /** filepath.Join, without path cleaning. */
  function JoinPath(dir: string, name: string): string
  {
    dir + "/" + name
  }

  /** Only non-directory `.go` files that are not `_test.go` files are parsed. */
  predicate IsCandidate(e: DirEntry)
  {
    !e.isDir && Text.HasSuffix(e.name, SourceSuffix) && !Text.HasSuffix(e.name, TestSuffix)
  }

  /** The declaration found in one entry: None for a non-candidate, a file that does not parse, or no declaration. */
  function Lookup(dir: string, e: DirEntry, files: map<string, Tree>, funcName: string): Option<Node>
  {
    if IsCandidate(e) && JoinPath(dir, e.name) in files
    then Query.FirstDecl(files[JoinPath(dir, e.name)].declMatches, funcName)
    else None
  }

  /** The first entry, in listing order, whose lookup finds the declaration. */
  function FirstHit(dir: string, entries: seq<DirEntry>, files: map<string, Tree>, funcName: string): Option<Hit>
  {
    if entries == [] then None
    else match Lookup(dir, entries[0], files, funcName)
      case Some(n) => Some(Hit(JoinPath(dir, entries[0].name), n.startRow))
      case None => FirstHit(dir, entries[1..], files, funcName)
  }

  /** The resolver's answer for every outcome. */
  function Resolve(moduleName: Option<string>, fs: FileSystem, importPath: string, funcName: string): Resolution
  {
    match moduleName
    case None => Resolution("", 0, Some(ModuleNameError))
    case Some(mod) =>
      if !IsInternal(mod, importPath) then Resolution("", 0, None)
      else
        var dir := DirPath(mod, importPath);
        if dir !in fs.dirs then Resolution("", 0, Some(DirectoryError(dir)))
        else match FirstHit(dir, fs.dirs[dir], fs.files, funcName)
          case Some(h) => Resolution(h.file, h.row, None)
          case None => Resolution("", 0, Some(NotFoundError(funcName, importPath)))
  }

  /** ResolveFunction: the prefix short-circuit, then a scan with `continue` and an early return. */
  method ResolveFunction(moduleName: Option<string>, fs: FileSystem, importPath: string, funcName: string)
    returns (r: Resolution)
    ensures r == Resolve(moduleName, fs, importPath, funcName)
  {
    if moduleName.None? {
      return Resolution("", 0, Some(ModuleNameError));
    }
    var mod := moduleName.value;
    if !Text.HasPrefix(importPath, mod) {
      return Resolution("", 0, None);
    }
    var relPath := Text.TrimPrefix(importPath, mod);
    var dirPath := "." + relPath;
    if dirPath !in fs.dirs {
      return Resolution("", 0, Some(DirectoryError(dirPath)));
    }
    var entries := fs.dirs[dirPath];
    for i := 0 to |entries|
      invariant FirstHit(dirPath, entries, fs.files, funcName) == FirstHit(dirPath, entries[i..], fs.files, funcName)
    {
      assert entries[i..][1..] == entries[i + 1..];
      var f := entries[i];
      if f.isDir || !Text.HasSuffix(f.name, SourceSuffix) || Text.HasSuffix(f.name, TestSuffix) {
        continue;
      }
      var filePath := JoinPath(dirPath, f.name);
      if filePath !in fs.files {
        continue;
      }
      var tree := fs.files[filePath];
      var node := Query.FindFunctionDefinition(tree.declMatches, funcName);
      if node.Some? {
        return Resolution(filePath, node.value.startRow, None);
      }
    }
    return Resolution("", 0, Some(NotFoundError(funcName, importPath)));
  }

  /**
    The scan finds nothing exactly when no entry's lookup succeeds; otherwise
    it answers with the first entry whose lookup succeeds, joined to the directory.
   */
  lemma {:induction false} FirstHitSpec(dir: string, entries: seq<DirEntry>, files: map<string, Tree>, funcName: string)
    ensures FirstHit(dir, entries, files, funcName).None? <==>
      forall k :: 0 <= k < |entries| ==> Lookup(dir, entries[k], files, funcName).None?
    ensures FirstHit(dir, entries, files, funcName).Some? ==>
      exists k :: 0 <= k < |entries| && Lookup(dir, entries[k], files, funcName).Some? &&
        FirstHit(dir, entries, files, funcName).value ==
          Hit(JoinPath(dir, entries[k].name), Lookup(dir, entries[k], files, funcName).value.startRow) &&
        forall j :: 0 <= j < k ==> Lookup(dir, entries[j], files, funcName).None?
  {
    if entries != [] && Lookup(dir, entries[0], files, funcName).None? {
      var rest := entries[1..];
      FirstHitSpec(dir, rest, files, funcName);
      assert forall k :: 1 <= k < |entries| ==> rest[k - 1] == entries[k];
      if FirstHit(dir, entries, files, funcName).Some? {
        var k :| 0 <= k < |rest| && Lookup(dir, rest[k], files, funcName).Some? &&
          FirstHit(dir, rest, files, funcName).value ==
            Hit(JoinPath(dir, rest[k].name), Lookup(dir, rest[k], files, funcName).value.startRow) &&
          forall j :: 0 <= j < k ==> Lookup(dir, rest[j], files, funcName).None?;
        assert rest[k] == entries[k + 1];
      }
    }
  }

  /** Only candidate files are ever parsed: the answer depends on no other entry's file. */
  lemma {:induction false} FirstHitReadsOnlyCandidates(dir: string, entries: seq<DirEntry>, files1: map<string, Tree>,
                                                       files2: map<string, Tree>, funcName: string)
    requires forall e :: e in entries && IsCandidate(e) ==>
      (JoinPath(dir, e.name) in files1 <==> JoinPath(dir, e.name) in files2) &&
      (JoinPath(dir, e.name) in files1 ==> files1[JoinPath(dir, e.name)].declMatches == files2[JoinPath(dir, e.name)].declMatches)
    ensures FirstHit(dir, entries, files1, funcName) == FirstHit(dir, entries, files2, funcName)
  {
    if entries != [] {
      assert entries[0] in entries;
      assert forall e :: e in entries[1..] ==> e in entries;
      FirstHitReadsOnlyCandidates(dir, entries[1..], files1, files2, funcName);
    }
  }

  /** When the module name is unknown the answer is an error, whatever the file system holds. */
  lemma ModuleNameFailure(fs1: FileSystem, fs2: FileSystem, importPath: string, funcName: string)
    ensures Resolve(None, fs1, importPath, funcName) == Resolve(None, fs2, importPath, funcName)
    ensures Resolve(None, fs1, importPath, funcName).err == Some(ModuleNameError)
  {
  }

  /** An external import path gives ("", 0, no error), whatever the file system holds. */
  lemma ExternalShortCircuit(mod: string, fs1: FileSystem, fs2: FileSystem, importPath: string, funcName: string)
    requires !IsInternal(mod, importPath)
    ensures Resolve(Some(mod), fs1, importPath, funcName) == Resolve(Some(mod), fs2, importPath, funcName)
    ensures Resolve(Some(mod), fs1, importPath, funcName) == Resolution("", 0, None)
  {
  }

  /**
    For an internal import path the only directory read is "." followed by the
    path with the module name removed, and only its candidate files are parsed:
    two file systems that agree there give the same answer.
   */
  lemma ScansOnlyItsDirectory(mod: string, fs1: FileSystem, fs2: FileSystem, importPath: string, funcName: string)
    requires IsInternal(mod, importPath)
    requires var dir := "." + importPath[|mod|..];
      (dir in fs1.dirs <==> dir in fs2.dirs) &&
      (dir in fs1.dirs ==>
        fs1.dirs[dir] == fs2.dirs[dir] &&
        forall e :: e in fs1.dirs[dir] && IsCandidate(e) ==>
          (JoinPath(dir, e.name) in fs1.files <==> JoinPath(dir, e.name) in fs2.files) &&
          (JoinPath(dir, e.name) in fs1.files ==>
            fs1.files[JoinPath(dir, e.name)].declMatches == fs2.files[JoinPath(dir, e.name)].declMatches))
    ensures Resolve(Some(mod), fs1, importPath, funcName) == Resolve(Some(mod), fs2, importPath, funcName)
  {
    var dir := DirPath(mod, importPath);
    if dir in fs1.dirs {
      FirstHitReadsOnlyCandidates(dir, fs1.dirs[dir], fs1.files, fs2.files, funcName);
    }
  }

  /**
    The outcomes of an internal resolution: a directory error when the
    directory cannot be listed; otherwise the first declaring candidate in
    listing order, or a not-found error naming the function and the import path.
   */
  lemma InternalOutcomes(mod: string, fs: FileSystem, importPath: string, funcName: string)
    requires IsInternal(mod, importPath)
    ensures var dir, r := "." + importPath[|mod|..], Resolve(Some(mod), fs, importPath, funcName);
      (dir !in fs.dirs ==> r == Resolution("", 0, Some(DirectoryError(dir)))) &&
      (dir in fs.dirs ==>
        var entries := fs.dirs[dir];
        ((forall k :: 0 <= k < |entries| ==> Lookup(dir, entries[k], fs.files, funcName).None?) <==>
          r == Resolution("", 0, Some(NotFoundError(funcName, importPath)))) &&
        ((exists k :: 0 <= k < |entries| && Lookup(dir, entries[k], fs.files, funcName).Some?) ==> r.err.None?) &&
        (r.err.None? ==>
          exists k :: 0 <= k < |entries| && IsCandidate(entries[k]) &&
            JoinPath(dir, entries[k].name) in fs.files &&
            Query.FirstDecl(fs.files[JoinPath(dir, entries[k].name)].declMatches, funcName).Some? &&
            r.file == JoinPath(dir, entries[k].name) &&
            r.row == Query.FirstDecl(fs.files[JoinPath(dir, entries[k].name)].declMatches, funcName).value.startRow &&
            forall j :: 0 <= j < k ==> Lookup(dir, entries[j], fs.files, funcName).None?))
  {
    var dir := DirPath(mod, importPath);
    if dir in fs.dirs {
      FirstHitSpec(dir, fs.dirs[dir], fs.files, funcName);
    }
  }

  /**
    A successful resolution never names the empty file, so ("", 0, no error)
    means exactly an external import path.
   */
  lemma EmptyFileMeansExternal(moduleName: Option<string>, fs: FileSystem, importPath: string, funcName: string)
    ensures var r := Resolve(moduleName, fs, importPath, funcName);
      (r.err.None? && r.file == "") <==> (moduleName.Some? && !IsInternal(moduleName.value, importPath))
  {
    var r := Resolve(moduleName, fs, importPath, funcName);
    if moduleName.Some? && IsInternal(moduleName.value, importPath) {
      var dir := DirPath(moduleName.value, importPath);
      if dir in fs.dirs {
        FirstHitSpec(dir, fs.dirs[dir], fs.files, funcName);
      }
    }
  }

  /** The prefix test is textual: with module `root`, the path `rootkit/pkg` is internal and scanned in `.kit/pkg`. */
  lemma PrefixIsTextual()
    ensures IsInternal("root", "rootkit/pkg") && DirPath("root", "rootkit/pkg") == ".kit/pkg"
  {
    assert "rootkit/pkg"[..4] == "root";
    assert "rootkit/pkg"[4..] == "kit/pkg";
  }
}
