/**
  The view of a syntax tree that the tracing engine has through tree-sitter
  queries. A query run on a node yields a sequence of matches in document
  order; each match is a sequence of captures, and each capture names a node.
  Node contents are given directly (the source buffer a node's span refers to
  is folded into the node).
 */
module Syntax {
  import opened Wrappers

  /** A syntax-tree node: its text in the file and its zero-based row span. */
  datatype Node = Node(text: string, startRow: nat, endRow: nat)

  /** One capture of a query match: the capture's name and the node it names. */
  datatype Capture = Capture(name: string, node: Node)

  type Match = seq<Capture>

  /**
    A parsed file, as the three queries of the engine see it: the import query
    and the function-declaration query run on the root, and the call query run
    on a given declaration node.
   */
  datatype Tree = Tree(importMatches: seq<Match>, declMatches: seq<Match>, callMatches: Node -> seq<Match>)

  /**
    The node of the last capture called `name` in a match: the value a capture
    loop that reassigns a variable on every such capture leaves behind.
   */
  function Last(m: Match, name: string): Option<Node>
  {
    if m == [] then None
    else if m[|m| - 1].name == name then Some(m[|m| - 1].node)
    else Last(m[..|m| - 1], name)
  }

  /** Last finds the final capture of that name, and nothing when there is none. */
  lemma {:induction false} LastSpec(m: Match, name: string)
    ensures Last(m, name).None? <==> forall i :: 0 <= i < |m| ==> m[i].name != name
    ensures Last(m, name).Some? ==>
      exists i :: 0 <= i < |m| && m[i].name == name && m[i].node == Last(m, name).value &&
        forall j :: i < j < |m| ==> m[j].name != name
  {
    if m != [] {
      var n := |m| - 1;
      LastSpec(m[..n], name);
      if m[n].name != name {
        assert forall i :: 0 <= i < n ==> m[..n][i] == m[i];
        if Last(m, name).Some? {
          var i :| 0 <= i < n && m[..n][i].name == name && m[..n][i].node == Last(m, name).value &&
            forall j :: i < j < n ==> m[..n][j].name != name;
          assert m[i].name == name && m[i].node == Last(m, name).value;
        }
      }
    }
  }

  /** One more capture: the step a capture loop takes. */
  lemma LastStep(m: Match, j: nat, name: string)
    requires j < |m|
    ensures Last(m[..j + 1], name) == if m[j].name == name then Some(m[j].node) else Last(m[..j], name)
  {
    assert m[..j + 1][..j] == m[..j];
  }
}
