/**
  Import extraction (parser.ParseImports): folds the matches of the
  `import_spec` query — an optional `alias` capture and a `path` capture
  holding the quoted literal — into a map from alias to import path.
 */
module Imports {
  import opened Wrappers
  import opened Syntax
  import Text

  /** Alias to import path, for one file. */
  type ImportMap = map<string, string>

  const AliasCapture := "alias"
  const PathCapture := "path"
  const Quote := '"'

  /** An (alias, path) pair: the fields one match leaves, or the entry it adds. */
  datatype ImportSpec = ImportSpec(alias: string, path: string)

  /** The content of a capture variable, "" when the match had no such capture. */
  function TextOf(n: Option<Node>): string
  {
    if n.Some? then n.value.text else ""
  }

  /** The alias and unquoted path that the capture loop leaves for one match. */
  function Fields(m: Match): ImportSpec
  {
    ImportSpec(TextOf(Last(m, AliasCapture)), Text.Trim(TextOf(Last(m, PathCapture)), Quote))
  }

  /**
    The entry one match adds to the map: without an alias the alias is the
    last element of the path, and an entry with an empty alias or path is dropped.
   */
  function EntryOf(m: Match): Option<ImportSpec>
  {
    var f := Fields(m);
    var alias := if f.alias == "" && f.path != "" then Text.Base(f.path) else f.alias;
    if alias != "" && f.path != "" then Some(ImportSpec(alias, f.path)) else None
  }

  /** The match adds an entry under `alias`. */
  predicate Adds(m: Match, alias: string)
  {
    EntryOf(m).Some? && EntryOf(m).value.alias == alias
  }

  /** The entries of a match sequence, one per match, in cursor order. */
  function EntriesOf(ms: seq<Match>): (es: seq<Option<ImportSpec>>)
    ensures |es| == |ms| && forall k :: 0 <= k < |ms| ==> es[k] == EntryOf(ms[k])
  {
    seq(|ms|, k requires 0 <= k < |ms| => EntryOf(ms[k]))
  }

  /** Inserts entries in order into an empty map: a later entry overwrites an earlier one under the same alias. */
  function Build(es: seq<Option<ImportSpec>>): ImportMap
  {
    if es == [] then map[]
    else
      var prior := Build(es[..|es| - 1]);
      match es[|es| - 1]
      case None => prior
      case Some(e) => prior[e.alias := e.path]
  }

  /** The import map of a match sequence. */
  function ImportsOf(ms: seq<Match>): ImportMap
  {
    Build(EntriesOf(ms))
  }

  /** ParseImports: drains the cursor, one match at a time. */
  method ParseImports(matches: seq<Match>) returns (imports: ImportMap)
    ensures imports == ImportsOf(matches)
    ensures forall a :: a in imports ==> a != "" && imports[a] != ""
    ensures matches == [] ==> imports == map[]
  {
    imports := map[];
    for i := 0 to |matches|
      invariant imports == ImportsOf(matches[..i])
    {
      var m := matches[i];
      var alias, importPath := "", "";
      for j := 0 to |m|
        invariant alias == TextOf(Last(m[..j], AliasCapture))
        invariant importPath == Text.Trim(TextOf(Last(m[..j], PathCapture)), Quote)
      {
        LastStep(m, j, AliasCapture);
        LastStep(m, j, PathCapture);
        var capture := m[j];
        if capture.name == AliasCapture {
          alias := capture.node.text;
        } else if capture.name == PathCapture {
          importPath := Text.Trim(capture.node.text, Quote);
        }
      }
      assert alias == Fields(m).alias && importPath == Fields(m).path by {
        assert m[..|m|] == m;
      }
      if alias == "" && importPath != "" {
        alias := Text.Base(importPath);
      }
      if alias != "" && importPath != "" {
        imports := imports[alias := importPath];
      }
      ImportsStep(matches, i);
    }
    assert matches[..|matches|] == matches;
    ImportsNonEmpty(matches);
  }

  /** One more match: the step the outer loop of ParseImports takes. */
  lemma ImportsStep(ms: seq<Match>, i: nat)
    requires i < |ms|
    ensures ImportsOf(ms[..i + 1]) == match EntryOf(ms[i])
      case None => ImportsOf(ms[..i])
      case Some(e) => ImportsOf(ms[..i])[e.alias := e.path]
  {
    var es := EntriesOf(ms[..i + 1]);
    assert es[..i] == EntriesOf(ms[..i]);
  }

  /** No entry of the map has an empty alias or an empty path. */
  lemma ImportsNonEmpty(ms: seq<Match>)
    ensures forall a :: a in ImportsOf(ms) ==> a != "" && ImportsOf(ms)[a] != ""
  {
    BuildNonEmpty(EntriesOf(ms));
  }

  lemma {:induction false} BuildNonEmpty(es: seq<Option<ImportSpec>>)
    requires forall k :: 0 <= k < |es| && es[k].Some? ==> es[k].value.alias != "" && es[k].value.path != ""
    ensures forall a :: a in Build(es) ==> a != "" && Build(es)[a] != ""
  {
    if es != [] {
      BuildNonEmpty(es[..|es| - 1]);
    }
  }

  /** A match adds an entry exactly when its unquoted path is non-empty. */
  lemma EntryWhenPath(m: Match)
    ensures EntryOf(m).Some? <==> Fields(m).path != ""
  {
    Text.BaseSpec(Fields(m).path);
  }

  /** The stored path is the captured literal with every leading and trailing quote removed. */
  lemma StoredPathUnquoted(m: Match)
    requires EntryOf(m).Some?
    ensures Last(m, PathCapture).Some?
    ensures var lit, p := Last(m, PathCapture).value.text, EntryOf(m).value.path;
      var i := |lit| - |Text.TrimLeft(lit, Quote)|;
      0 < |p| && i + |p| <= |lit| && p == lit[i..i + |p|] &&
      p[0] != Quote && p[|p| - 1] != Quote &&
      (forall k :: 0 <= k < i ==> lit[k] == Quote) &&
      (forall k :: i + |p| <= k < |lit| ==> lit[k] == Quote)
  {
    Text.TrimSpec(TextOf(Last(m, PathCapture)), Quote);
  }

  /** An explicit, non-empty alias is kept as the key, never replaced by the path's last element. */
  lemma ExplicitAliasKept(m: Match)
    requires Last(m, AliasCapture).Some? && Last(m, AliasCapture).value.text != ""
    requires Fields(m).path != ""
    ensures EntryOf(m) == Some(ImportSpec(Last(m, AliasCapture).value.text, Fields(m).path))
  {
  }

  /**
    Without an alias, a non-empty path is stored under its last element; for a
    path not ending in a slash that is the non-empty text after the last slash.
   */
  lemma DerivedAlias(m: Match)
    requires Last(m, AliasCapture).None? && Fields(m).path != ""
    ensures EntryOf(m).Some?
    ensures var p, a := Fields(m).path, EntryOf(m).value.alias;
      a == Text.Base(p) && a != "" &&
      (p[|p| - 1] != '/' ==> a == p[|p| - |a|..] && '/' !in a && (|a| < |p| ==> p[|p| - |a| - 1] == '/'))
  {
    Text.BaseSpec(Fields(m).path);
  }

  /** An import without an alias, of a quoted path with no quote at its ends, is stored under the path's last element. */
  lemma UnaliasedImport(n: Node, p: string)
    requires p != [] && p[0] != Quote && p[|p| - 1] != Quote
    requires n.text == [Quote] + p + [Quote]
    ensures EntryOf([Capture(PathCapture, n)]) == Some(ImportSpec(Text.Base(p), p))
  {
    Text.TrimDelimiters(p, Quote);
    Text.BaseSpec(p);
    var m := [Capture(PathCapture, n)];
    assert m[..0] == [];
    assert AliasCapture != PathCapture by { assert |AliasCapture| != |PathCapture|; }
    assert Last(m, PathCapture) == Some(n) && Last(m, AliasCapture) == None;
    assert Fields(m) == ImportSpec("", p);
  }

  /** An import with an explicit alias, of a quoted path with no quote at its ends, is stored under that alias. */
  lemma AliasedImport(x: Node, n: Node, p: string)
    requires p != [] && p[0] != Quote && p[|p| - 1] != Quote
    requires n.text == [Quote] + p + [Quote] && x.text != ""
    ensures EntryOf([Capture(AliasCapture, x), Capture(PathCapture, n)]) == Some(ImportSpec(x.text, p))
  {
    Text.TrimDelimiters(p, Quote);
    var m := [Capture(AliasCapture, x), Capture(PathCapture, n)];
    assert m[..1][..0] == [] && m[..1] == [Capture(AliasCapture, x)];
    assert AliasCapture != PathCapture by { assert |AliasCapture| != |PathCapture|; }
    assert Last(m, PathCapture) == Some(n) && Last(m, AliasCapture) == Some(x);
    assert Fields(m) == ImportSpec(x.text, p);
  }

  /** `import "a/b/c"` is stored under `c`; `import x "a/b/c"` under `x`, never `c`. */
  lemma AliasExamples(n: Node, x: Node)
    requires n.text == "\"a/b/c\"" && x.text == "x"
    ensures EntryOf([Capture(PathCapture, n)]) == Some(ImportSpec("c", "a/b/c"))
    ensures EntryOf([Capture(AliasCapture, x), Capture(PathCapture, n)]) == Some(ImportSpec("x", "a/b/c"))
  {
    assert n.text == [Quote] + "a/b/c" + [Quote];
    UnaliasedImport(n, "a/b/c");
    AliasedImport(x, n, "a/b/c");
    Text.BaseOfNestedPath();
  }

  /** An alias is a key of the map exactly when some match adds an entry under it. */
  lemma ImportsKeys(ms: seq<Match>, alias: string)
    ensures alias in ImportsOf(ms) <==> exists k :: 0 <= k < |ms| && Adds(ms[k], alias)
  {
    var es := EntriesOf(ms);
    BuildKeys(es, alias);
    if alias in ImportsOf(ms) {
      var k :| 0 <= k < |es| && es[k].Some? && es[k].value.alias == alias;
      assert Adds(ms[k], alias);
    }
  }

  lemma {:induction false} BuildKeys(es: seq<Option<ImportSpec>>, alias: string)
    ensures alias in Build(es) <==> exists k :: 0 <= k < |es| && es[k].Some? && es[k].value.alias == alias
  {
    if es != [] {
      var n := |es| - 1;
      BuildKeys(es[..n], alias);
      assert forall k :: 0 <= k < n ==> es[..n][k] == es[k];
    }
  }

  /** The path stored under an alias is that of the last match adding that alias. */
  lemma ImportsLastWins(ms: seq<Match>, k: nat)
    requires k < |ms| && EntryOf(ms[k]).Some?
    requires forall j :: k < j < |ms| ==> !Adds(ms[j], EntryOf(ms[k]).value.alias)
    ensures EntryOf(ms[k]).value.alias in ImportsOf(ms)
    ensures ImportsOf(ms)[EntryOf(ms[k]).value.alias] == EntryOf(ms[k]).value.path
  {
    var es := EntriesOf(ms);
    var e := es[k].value;
    forall j | k < j < |es|
      ensures !(es[j].Some? && es[j].value.alias == e.alias)
    {
      assert !Adds(ms[j], e.alias);
    }
    BuildLastWins(es, k);
  }

  lemma {:induction false} BuildLastWins(es: seq<Option<ImportSpec>>, k: nat)
    requires k < |es| && es[k].Some?
    requires forall j :: k < j < |es| ==> !(es[j].Some? && es[j].value.alias == es[k].value.alias)
    ensures es[k].value.alias in Build(es) && Build(es)[es[k].value.alias] == es[k].value.path
  {
    var n := |es| - 1;
    if k < n {
      assert es[..n][k] == es[k];
      assert forall j :: k < j < n ==> es[..n][j] == es[j];
      BuildLastWins(es[..n], k);
    }
  }
}
