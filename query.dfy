/**
  Declaration lookup (parser.FindFunctionDefinition): scans the matches of the
  `function_declaration` query in document order for the first whose
  `func_name` capture's text is exactly the requested name, and returns its
  `func_decl` capture.
 */
module Query {
  import opened Wrappers
  import opened Syntax

  const DeclCapture := "func_decl"
  const NameCapture := "func_name"

  /** The match carries both captures and its name text is exactly `funcName`. */
  predicate Declares(m: Match, funcName: string)
  {
    Last(m, DeclCapture).Some? && Last(m, NameCapture).Some? && Last(m, NameCapture).value.text == funcName
  }

  /** The declaration node of the first match that declares `funcName`; None when no match does. */
  function FirstDecl(ms: seq<Match>, funcName: string): Option<Node>
  {
    if ms == [] then None
    else if Declares(ms[0], funcName) then Last(ms[0], DeclCapture)
    else FirstDecl(ms[1..], funcName)
  }

  /** FindFunctionDefinition: returns on the first hit; "not found" is None, not an error. */
  method FindFunctionDefinition(matches: seq<Match>, funcName: string) returns (decl: Option<Node>)
    ensures decl == FirstDecl(matches, funcName)
  {
    var i := 0;
    while i < |matches|
      invariant 0 <= i <= |matches|
      invariant FirstDecl(matches, funcName) == FirstDecl(matches[i..], funcName)
    {
      var m := matches[i];
      var declNode: Option<Node> := None;
      var nameNode: Option<Node> := None;
      for j := 0 to |m|
        invariant declNode == Last(m[..j], DeclCapture)
        invariant nameNode == Last(m[..j], NameCapture)
      {
        LastStep(m, j, DeclCapture);
        LastStep(m, j, NameCapture);
        var capture := m[j];
        if capture.name == DeclCapture {
          declNode := Some(capture.node);
        } else if capture.name == NameCapture {
          nameNode := Some(capture.node);
        }
      }
      assert m[..|m|] == m;
      if declNode.Some? && nameNode.Some? {
        if nameNode.value.text == funcName {
          return declNode;
        }
      }
      assert matches[i..][1..] == matches[i + 1..];
      i := i + 1;
    }
    return None;
  }

  /**
    FirstDecl is None exactly when no match declares the name; otherwise it is
    the declaration capture of a match that declares it, and no earlier match does.
   */
  lemma {:induction false} FirstDeclSpec(ms: seq<Match>, funcName: string)
    ensures FirstDecl(ms, funcName).None? <==> forall i :: 0 <= i < |ms| ==> !Declares(ms[i], funcName)
    ensures FirstDecl(ms, funcName).Some? ==>
      exists i :: 0 <= i < |ms| && Declares(ms[i], funcName) &&
        FirstDecl(ms, funcName) == Last(ms[i], DeclCapture) &&
        forall j :: 0 <= j < i ==> !Declares(ms[j], funcName)
  {
    if ms != [] && !Declares(ms[0], funcName) {
      FirstDeclSpec(ms[1..], funcName);
      assert forall i :: 1 <= i < |ms| ==> ms[1..][i - 1] == ms[i];
      if FirstDecl(ms, funcName).Some? {
        var i :| 0 <= i < |ms| - 1 && Declares(ms[1..][i], funcName) &&
          FirstDecl(ms, funcName) == Last(ms[1..][i], DeclCapture) &&
          forall j :: 0 <= j < i ==> !Declares(ms[1..][j], funcName);
        assert Declares(ms[i + 1], funcName);
      }
    }
  }

  /**
    Determinism: a match that declares the name with none before it fixes the
    result, so only document order decides between same-named declarations.
   */
  lemma {:induction false} FirstDeclIsEarliest(ms: seq<Match>, funcName: string, i: nat)
    requires i < |ms| && Declares(ms[i], funcName)
    requires forall j :: 0 <= j < i ==> !Declares(ms[j], funcName)
    ensures FirstDecl(ms, funcName) == Last(ms[i], DeclCapture)
  {
    if i > 0 {
      assert forall j :: 0 <= j < i - 1 ==> ms[1..][j] == ms[j + 1];
      FirstDeclIsEarliest(ms[1..], funcName, i - 1);
    }
  }

  /** A typical match, a declaration capture then a name capture, declares exactly its name's text. */
  lemma DeclarationMatch(decl: Node, name: Node, funcName: string)
    ensures var m := [Capture(DeclCapture, decl), Capture(NameCapture, name)];
      Last(m, DeclCapture) == Some(decl) && (Declares(m, funcName) <==> name.text == funcName)
  {
    var m := [Capture(DeclCapture, decl), Capture(NameCapture, name)];
    assert DeclCapture != NameCapture by { assert DeclCapture[5] != NameCapture[5]; }
    assert m[..1] == [Capture(DeclCapture, decl)] && m[..1][..0] == [];
  }

  /** Names are compared exactly: `Exec` does not find `Execute`, nor `execute` find `Execute`. */
  lemma ExactNameOnly(decl: Node, name: Node)
    requires name.text == "Execute"
    ensures var ms := [[Capture(DeclCapture, decl), Capture(NameCapture, name)]];
      FirstDecl(ms, "Execute") == Some(decl) && FirstDecl(ms, "Exec") == None && FirstDecl(ms, "execute") == None
  {
    DeclarationMatch(decl, name, "Execute");
    DeclarationMatch(decl, name, "Exec");
    DeclarationMatch(decl, name, "execute");
    var ms: seq<Match> := [[Capture(DeclCapture, decl), Capture(NameCapture, name)]];
    assert ms[1..] == [];
    assert "Execute" != "Exec" by { assert |"Execute"| != |"Exec"|; }
    assert "Execute" != "execute" by { assert "Execute"[0] != "execute"[0]; }
  }
}
