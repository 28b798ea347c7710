/**
  Call extraction (parser.ExtractCalls): the texts of the `callee` captures of
  the call-expression query run on one declaration node, deduplicated on
  first occurrence.
 */
module Calls {
  import opened Syntax

  const CalleeCapture := "callee"

  /** The callee texts of one match, in capture order. */
  function Callees(m: Match): seq<string>
  {
    if m == [] then []
    else Callees(m[..|m| - 1]) + (if m[|m| - 1].name == CalleeCapture then [m[|m| - 1].node.text] else [])
  }

  /** The callee texts of all matches, in cursor order. */
  function AllCallees(ms: seq<Match>): seq<string>
  {
    if ms == [] then [] else AllCallees(ms[..|ms| - 1]) + Callees(ms[|ms| - 1])
  }

  /** Keeps the first occurrence of each string, in order. */
  function Dedup(s: seq<string>): seq<string>
  {
    if s == [] then []
    else
      var d := Dedup(s[..|s| - 1]);
      if s[|s| - 1] in d then d else d + [s[|s| - 1]]
  }

  predicate NoDuplicates(s: seq<string>)
  {
    forall i, j :: 0 <= i < j < |s| ==> s[i] != s[j]
  }

  /** The position of the first occurrence of `x` in `s`. */
  function FirstIndex(s: seq<string>, x: string): (k: nat)
    requires x in s
    ensures k < |s| && s[k] == x && x !in s[..k]
  {
    if s[0] == x then 0
    else
      var k := 1 + FirstIndex(s[1..], x);
      assert s[..k] == [s[0]] + s[1..][..k - 1];
      k
  }

  /**
    ExtractCalls: appends a callee text the first time it is seen; `seen`
    holds exactly the texts appended so far.
   */
  method ExtractCalls(matches: seq<Match>) returns (calls: seq<string>)
    ensures calls == Dedup(AllCallees(matches))
    ensures NoDuplicates(calls)
    ensures forall x :: x in calls <==> x in AllCallees(matches)
    ensures matches == [] ==> calls == []
  {
    calls := [];
    var seen: map<string, bool> := map[];
    for i := 0 to |matches|
      invariant calls == Dedup(AllCallees(matches[..i]))
      invariant seen.Keys == set x | x in calls
      invariant forall x :: x in seen ==> seen[x]
    {
      var m := matches[i];
      ghost var before := AllCallees(matches[..i]);
      assert before + Callees(m[..0]) == before;
      for j := 0 to |m|
        invariant calls == Dedup(before + Callees(m[..j]))
        invariant seen.Keys == set x | x in calls
        invariant forall x :: x in seen ==> seen[x]
      {
        CalleesStep(before, m, j);
        var capture := m[j];
        if capture.name == CalleeCapture {
          var name := capture.node.text;
          var wasSeen := if name in seen then seen[name] else false;
          if !wasSeen {
            calls := calls + [name];
            seen := seen[name := true];
          }
        }
      }
      AllCalleesStep(matches, i);
    }
    assert matches[..|matches|] == matches;
    DedupElements(AllCallees(matches));
    DedupNoDuplicates(AllCallees(matches));
  }

  /** One more match: the step the outer loop of ExtractCalls takes. */
  lemma AllCalleesStep(ms: seq<Match>, i: nat)
    requires i < |ms|
    ensures AllCallees(ms[..i + 1]) == AllCallees(ms[..i]) + Callees(ms[i][..|ms[i]|])
  {
    assert ms[..i + 1][..i] == ms[..i];
    assert ms[i][..|ms[i]|] == ms[i];
  }

  /** One more capture: the step the inner loop of ExtractCalls takes. */
  lemma CalleesStep(before: seq<string>, m: Match, j: nat)
    requires j < |m|
    ensures Dedup(before + Callees(m[..j + 1])) ==
      if m[j].name != CalleeCapture then Dedup(before + Callees(m[..j]))
      else
        var d := Dedup(before + Callees(m[..j]));
        if m[j].node.text in d then d else d + [m[j].node.text]
  {
    assert m[..j + 1][..j] == m[..j];
    if m[j].name == CalleeCapture {
      var s := before + Callees(m[..j + 1]);
      assert s == (before + Callees(m[..j])) + [m[j].node.text];
      assert s[..|s| - 1] == before + Callees(m[..j]);
    } else {
      assert before + Callees(m[..j + 1]) == before + Callees(m[..j]);
    }
  }

  /** Completeness and soundness: the list holds exactly the callee texts. */
  lemma {:induction false} DedupElements(s: seq<string>)
    ensures forall x :: x in Dedup(s) <==> x in s
  {
    if s != [] {
      DedupElements(s[..|s| - 1]);
      assert s == s[..|s| - 1] + [s[|s| - 1]];
    }
  }

  /** No text is listed twice. */
  lemma {:induction false} DedupNoDuplicates(s: seq<string>)
    ensures NoDuplicates(Dedup(s))
  {
    if s != [] {
      DedupNoDuplicates(s[..|s| - 1]);
    }
  }

  /** The list is ordered by first occurrence in the capture sequence. */
  lemma {:induction false} DedupFirstOccurrence(s: seq<string>, i: nat, j: nat)
    requires i < j < |Dedup(s)|
    ensures Dedup(s)[i] in s && Dedup(s)[j] in s
    ensures FirstIndex(s, Dedup(s)[i]) < FirstIndex(s, Dedup(s)[j])
  {
    var p, x := s[..|s| - 1], s[|s| - 1];
    var d := Dedup(p);
    DedupElements(p);
    assert s == p + [x];
    if j < |d| {
      DedupFirstOccurrence(p, i, j);
      assert Dedup(s)[i] == d[i] && Dedup(s)[j] == d[j];
      FirstIndexExtend(p, x, d[i]);
      FirstIndexExtend(p, x, d[j]);
    } else {
      assert x !in d && Dedup(s) == d + [x];
      assert d[i] in p;
      FirstIndexExtend(p, x, d[i]);
      FirstIndexExtend(p, x, x);
    }
  }

  /** Appending does not move a first occurrence; a new element's first occurrence is the end. */
  lemma FirstIndexExtend(p: seq<string>, x: string, y: string)
    requires y in p || y == x
    ensures y in p ==> FirstIndex(p + [x], y) == FirstIndex(p, y)
    ensures y !in p ==> FirstIndex(p + [x], y) == |p|
  {
    var k := FirstIndex(p + [x], y);
    if y in p {
      var k' := FirstIndex(p, y);
      assert (p + [x])[k'] == y;
      assert (p + [x])[..k'] == p[..k'];
    } else {
      assert (p + [x])[..|p|] == p;
    }
  }

  /** Only `callee` captures contribute, from any match. */
  lemma {:induction false} AllCalleesSpec(ms: seq<Match>, x: string)
    ensures x in AllCallees(ms) <==>
      exists i, j :: 0 <= i < |ms| && 0 <= j < |ms[i]| && ms[i][j].name == CalleeCapture && ms[i][j].node.text == x
  {
    if ms != [] {
      var n := |ms| - 1;
      var init := ms[..n];
      AllCalleesSpec(init, x);
      CalleesSpec(ms[n], x);
      assert AllCallees(ms) == AllCallees(init) + Callees(ms[n]);
      if x in AllCallees(init) {
        var i, j :| 0 <= i < n && 0 <= j < |init[i]| && init[i][j].name == CalleeCapture && init[i][j].node.text == x;
        assert init[i] == ms[i];
      } else if x in Callees(ms[n]) {
        var j :| 0 <= j < |ms[n]| && ms[n][j].name == CalleeCapture && ms[n][j].node.text == x;
        assert ms[n][j].name == CalleeCapture;
      }
    }
  }

  lemma {:induction false} CalleesSpec(m: Match, x: string)
    ensures x in Callees(m) <==> exists j :: 0 <= j < |m| && m[j].name == CalleeCapture && m[j].node.text == x
  {
    if m != [] {
      var n := |m| - 1;
      CalleesSpec(m[..n], x);
      assert forall j :: 0 <= j < n ==> m[..n][j] == m[j];
      if x in Callees(m[..n]) {
        var j :| 0 <= j < n && m[..n][j].name == CalleeCapture && m[..n][j].node.text == x;
        assert m[j].name == CalleeCapture && m[j].node.text == x;
      }
    }
  }

  /** Captures `a`, `b`, `a` give `[a, b]`. */
  lemma DedupExample()
    ensures Dedup(["a", "b", "a"]) == ["a", "b"]
  {
    var s := ["a", "b", "a"];
    assert s[..2] == ["a", "b"] && s[..2][..1] == ["a"] && s[..2][..1][..0] == [];
    assert Dedup(["a"]) == ["a"];
    assert Dedup(["a", "b"]) == ["a", "b"];
  }
}
