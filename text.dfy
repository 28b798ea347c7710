/**
  The operations of Go's `strings` and `path` packages that the tracing engine
  uses, on strings as sequences of characters. Every cut set and separator the
  engine passes is a single ASCII character, so a `char` stands for it.
 */
module Text {

  /** strings.HasPrefix */
  predicate HasPrefix(s: string, prefix: string)
  {
    prefix <= s
  }

  /** strings.HasSuffix */
  predicate HasSuffix(s: string, suffix: string)
  {
    |suffix| <= |s| && s[|s| - |suffix|..] == suffix
  }

  /** strings.TrimPrefix: drops `prefix` once when `s` starts with it. */
  function TrimPrefix(s: string, prefix: string): (r: string)
    ensures HasPrefix(s, prefix) ==> prefix + r == s
    ensures !HasPrefix(s, prefix) ==> r == s
  {
    if HasPrefix(s, prefix) then s[|prefix|..] else s
  }

  /** strings.TrimLeft with a one-character cut set. */
  function TrimLeft(s: string, c: char): (r: string)
    ensures |r| <= |s|
  {
    if s != [] && s[0] == c then TrimLeft(s[1..], c) else s
  }

  /** TrimLeft removes exactly the leading run of `c`: what is left is a suffix not starting with `c`. */
  lemma {:induction false} TrimLeftSpec(s: string, c: char)
    ensures var r := TrimLeft(s, c);
      r == s[|s| - |r|..] &&
      (forall k :: 0 <= k < |s| - |r| ==> s[k] == c) &&
      (r == [] || r[0] != c)
  {
    if s != [] && s[0] == c {
      TrimLeftSpec(s[1..], c);
    }
  }

  /** strings.TrimRight with a one-character cut set. */
  function TrimRight(s: string, c: char): (r: string)
    ensures |r| <= |s|
  {
    if s != [] && s[|s| - 1] == c then TrimRight(s[..|s| - 1], c) else s
  }

  /** TrimRight removes exactly the trailing run of `c`: what is left is a prefix not ending in `c`. */
  lemma {:induction false} TrimRightSpec(s: string, c: char)
    ensures var r := TrimRight(s, c);
      r == s[..|r|] &&
      (forall k :: |r| <= k < |s| ==> s[k] == c) &&
      (r == [] || r[|r| - 1] != c)
  {
    if s != [] && s[|s| - 1] == c {
      TrimRightSpec(s[..|s| - 1], c);
    }
  }

  /** strings.Trim with a one-character cut set: TrimLeft, then TrimRight. */
  function Trim(s: string, c: char): (r: string)
    ensures |r| <= |s|
  {
    TrimRight(TrimLeft(s, c), c)
  }

  /**
    Trim removes every leading and every trailing `c` and nothing else: the
    result is the middle of `s`, and it neither starts nor ends with `c`.
   */
  lemma TrimSpec(s: string, c: char)
    ensures var r, i := Trim(s, c), |s| - |TrimLeft(s, c)|;
      i + |r| <= |s| && r == s[i..i + |r|] &&
      (forall k :: 0 <= k < i ==> s[k] == c) &&
      (forall k :: i + |r| <= k < |s| ==> s[k] == c) &&
      (r == [] || (r[0] != c && r[|r| - 1] != c))
  {
    var l := TrimLeft(s, c);
    TrimLeftSpec(s, c);
    TrimRightSpec(l, c);
    var i := |s| - |l|;
    var r := Trim(s, c);
    forall k | i + |r| <= k < |s|
      ensures s[k] == c
    {
      assert s[k] == l[k - i];
    }
  }

  /** The part of `s` after its last `c` (all of `s` when it has none). */
  function AfterLast(s: string, c: char): (r: string)
    ensures |r| <= |s|
  {
    if s == [] || s[|s| - 1] == c then [] else AfterLast(s[..|s| - 1], c) + [s[|s| - 1]]
  }

  /** AfterLast gives the slash-free suffix that follows the last `c`; it is non-empty when `s` does not end in `c`. */
  lemma {:induction false} AfterLastSpec(s: string, c: char)
    ensures var r := AfterLast(s, c);
      r == s[|s| - |r|..] && c !in r &&
      (|r| < |s| ==> s[|s| - |r| - 1] == c) &&
      (s != [] && s[|s| - 1] != c ==> r != [])
  {
    if s != [] && s[|s| - 1] != c {
      AfterLastSpec(s[..|s| - 1], c);
    }
  }

  /**
    path.Base: the last element of a slash-separated path. Trailing slashes
    are dropped first; the empty path gives "." and an all-slash path "/".
   */
  function Base(p: string): string
  {
    if p == "" then "."
    else
      var q := TrimRight(p, '/');
      if q == "" then "/" else AfterLast(q, '/')
  }

  /**
    The last element of a path is never empty; for a path that does not end in
    a slash it is the suffix after the last slash, and it holds no slash.
   */
  lemma BaseSpec(p: string)
    ensures Base(p) != ""
    ensures p != "" && p[|p| - 1] != '/' ==>
      |Base(p)| <= |p| && Base(p) == p[|p| - |Base(p)|..] && '/' !in Base(p) &&
      (|Base(p)| < |p| ==> p[|p| - |Base(p)| - 1] == '/')
  {
    if p != "" {
      var q := TrimRight(p, '/');
      TrimRightSpec(p, '/');
      if q != "" {
        AfterLastSpec(q, '/');
      }
    }
  }

  /** The last element of "a/b/c" is "c". */
  lemma BaseOfNestedPath()
    ensures Base("a/b/c") == "c"
  {
    var p := "a/b/c";
    assert TrimRight(p, '/') == p;
    assert p[..4] == "a/b/";
    assert AfterLast("a/b/", '/') == [];
  }

  /** Trailing slashes are dropped before the last element is taken. */
  lemma BaseOfTrailingSlash()
    ensures Base("a/b/") == "b"
  {
    assert "a/b/"[..3] == "a/b";
    assert TrimRight("a/b", '/') == "a/b";
    assert TrimRight("a/b/", '/') == "a/b";
    assert "a/b"[..2] == "a/";
    assert AfterLast("a/", '/') == [];
  }

  /** A quoted literal whose contents neither start nor end with a quote loses exactly its two delimiters. */
  lemma TrimDelimiters(p: string, c: char)
    requires p != [] && p[0] != c && p[|p| - 1] != c
    ensures Trim([c] + p + [c], c) == p
  {
    var s := [c] + p + [c];
    assert s[1..] == p + [c];
    assert TrimLeft(s, c) == TrimLeft(p + [c], c) == p + [c];
    assert (p + [c])[..|p|] == p;
    assert TrimRight(p, c) == p;
    assert TrimRight(p + [c], c) == p;
  }

  /** The last element of `dir/name`, for a non-empty slash-free name, is the name. */
  lemma {:induction false} BaseOfJoined(dir: string, name: string)
    requires name != [] && '/' !in name
    ensures Base(dir + "/" + name) == name
  {
    var p := dir + "/" + name;
    assert p[|p| - 1] == name[|name| - 1];
    assert TrimRight(p, '/') == p;
    AfterLastSuffix(dir + "/", name);
    assert AfterLast(dir + "/", '/') == [];
  }

  /** A path without a slash is its own last element. */
  lemma BaseOfPlainName(name: string)
    requires name != [] && '/' !in name
    ensures Base(name) == name
  {
    assert TrimRight(name, '/') == name;
    AfterLastSuffix([], name);
    assert [] + name == name;
  }

  lemma {:induction false} AfterLastSuffix(d: string, name: string)
    requires '/' !in name && (d == [] || d[|d| - 1] == '/')
    ensures AfterLast(d + name, '/') == name
  {
    if name != [] {
      var n := |name| - 1;
      assert (d + name)[..|d + name| - 1] == d + name[..n];
      AfterLastSuffix(d, name[..n]);
      assert name[..n] + [name[n]] == name;
    } else {
      assert d + name == d;
    }
  }

  /** strings.Split with a one-character separator. */
  function Split(s: string, c: char): (parts: seq<string>)
    ensures |parts| >= 1
  {
    if s == [] then [""]
    else
      var rest := Split(s[1..], c);
      if s[0] == c then [""] + rest else [[s[0]] + rest[0]] + rest[1..]
  }

  /** No part holds the separator, and joining the parts with it gives back the string. */
  lemma {:induction false} SplitSpec(s: string, c: char)
    ensures forall i :: 0 <= i < |Split(s, c)| ==> c !in Split(s, c)[i]
    ensures Join(Split(s, c), c) == s
  {
    if s != [] {
      var rest := Split(s[1..], c);
      SplitSpec(s[1..], c);
      var parts := Split(s, c);
      if s[0] == c {
        assert parts == [""] + rest;
        assert parts[1..] == rest;
      } else {
        assert parts == [[s[0]] + rest[0]] + rest[1..];
        if |rest| > 1 {
          assert parts[1..] == rest[1..];
        }
      }
    }
  }

  /** strings.Join with a one-character separator: the inverse of Split. */
  function Join(parts: seq<string>, c: char): string
  {
    if parts == [] then ""
    else if |parts| == 1 then parts[0]
    else parts[0] + [c] + Join(parts[1..], c)
  }

  /** A string without the separator splits into itself. */
  lemma {:induction false} SplitNoSeparator(s: string, c: char)
    requires c !in s
    ensures Split(s, c) == [s]
  {
    if s != [] {
      SplitNoSeparator(s[1..], c);
      assert [s[0]] + s[1..] == s;
    }
  }

  /** Splitting `a c b`, where neither part holds `c`, gives exactly the two parts. */
  lemma {:induction false} SplitPair(a: string, b: string, c: char)
    requires c !in a && c !in b
    ensures Split(a + [c] + b, c) == [a, b]
  {
    var s := a + [c] + b;
    if a == [] {
      assert s[1..] == b;
      SplitNoSeparator(b, c);
    } else {
      assert s[1..] == a[1..] + [c] + b;
      SplitPair(a[1..], b, c);
      assert [s[0]] + a[1..] == a;
    }
  }

  /** Two parts means exactly one separator, between them. */
  lemma SplitTwoParts(s: string, c: char)
    requires |Split(s, c)| == 2
    ensures s == Split(s, c)[0] + [c] + Split(s, c)[1]
    ensures c !in Split(s, c)[0] && c !in Split(s, c)[1]
  {
    var parts := Split(s, c);
    SplitSpec(s, c);
    assert parts[1..] == [parts[1]];
  }

  /** A string with two separators never splits into two parts. */
  lemma SplitMoreThanTwo(a: string, b: string, d: string, c: char)
    ensures |Split(a + [c] + b + [c] + d, c)| != 2
  {
    var s := a + [c] + b + [c] + d;
    if |Split(s, c)| == 2 {
      SplitTwoParts(s, c);
      var p0, p1 := Split(s, c)[0], Split(s, c)[1];
      assert s[|a|] == c && s[|a| + 1 + |b|] == c;
      SeparatorAt(p0, p1, c, |a|);
      SeparatorAt(p0, p1, c, |a| + 1 + |b|);
      assert false;
    }
  }

  /** In `p0 c p1` with no `c` inside the parts, `c` occurs only at index |p0|. */
  lemma SeparatorAt(p0: string, p1: string, c: char, k: nat)
    requires c !in p0 && c !in p1
    requires k < |p0 + [c] + p1| && (p0 + [c] + p1)[k] == c
    ensures k == |p0|
  {
  }
}
