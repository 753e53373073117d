/** Node paths as strings and as lists of components. */
module Paths {

  type Path = seq<string>

  /** `split`: the pieces between separators; there is always at least one. */
  function Split(s: string, sep: char): (r: Path)
    ensures r != [] && forall i | 0 <= i < |r| :: sep !in r[i]
  {
    if s == "" then [""]
    else if s[0] == sep then [""] + Split(s[1..], sep)
    else
      var rest := Split(s[1..], sep);
      [[s[0]] + rest[0]] + rest[1..]
  }

  function Join(comps: Path, sep: char): string {
    if comps == [] then ""
    else if |comps| == 1 then comps[0]
    else comps[0] + [sep] + Join(comps[1..], sep)
  }

  predicate Plain(comps: Path, sep: char) {
    comps != [] && forall i | 0 <= i < |comps| :: sep !in comps[i]
  }

  lemma {:induction false} JoinSplit(s: string, sep: char)
    ensures Join(Split(s, sep), sep) == s
  {
    if s != "" {
      JoinSplit(s[1..], sep);
      var rest := Split(s[1..], sep);
      if s[0] == sep {
        assert ([""] + rest)[1..] == rest;
      } else {
        assert ([[s[0]] + rest[0]] + rest[1..])[1..] == rest[1..];
        assert s == [s[0]] + s[1..];
      }
    }
  }

  /** The first piece ends at the first separator. */
  lemma {:induction false} SplitAt(s: string, sep: char, k: nat)
    requires k <= |s| && sep !in s[..k] && (k < |s| ==> s[k] == sep)
    ensures Split(s, sep) == if k == |s| then [s] else [s[..k]] + Split(s[k + 1..], sep)
  {
    if k > 0 {
      assert s[0] == s[..k][0];
      assert s[1..][..k - 1] == s[..k][1..];
      SplitAt(s[1..], sep, k - 1);
      assert s == [s[0]] + s[1..] && s[..k] == [s[0]] + s[1..][..k - 1];
      assert k < |s| ==> s[1..][k..] == s[k + 1..];
    } else {
      assert s[..0] == "";
    }
  }

  lemma {:induction false} SplitJoin(comps: Path, sep: char)
    requires Plain(comps, sep)
    ensures Split(Join(comps, sep), sep) == comps
  {
    var s, k := Join(comps, sep), |comps[0]|;
    assert s[..k] == comps[0];
    SplitAt(s, sep, k);
    if |comps| > 1 {
      SplitJoin(comps[1..], sep);
      assert s[k + 1..] == Join(comps[1..], sep);
    }
  }

  lemma JoinInjective(a: Path, b: Path, sep: char)
    requires Plain(a, sep) && Plain(b, sep) && Join(a, sep) == Join(b, sep)
    ensures a == b
  {
    SplitJoin(a, sep);
    SplitJoin(b, sep);
  }

  lemma {:induction false} JoinAppend(a: Path, b: Path, sep: char)
    requires a != [] && b != []
    ensures Join(a + b, sep) == Join(a, sep) + [sep] + Join(b, sep)
  {
    if |a| == 1 {
      assert (a + b)[1..] == b;
    } else {
      assert (a + b)[1..] == a[1..] + b;
      JoinAppend(a[1..], b, sep);
    }
  }

  lemma NextPiece(s: string, start: nat, next: nat, sep: char, results: Path)
    requires start <= next <= |s| && sep !in s[start..next] && (next < |s| ==> s[next] == sep)
    ensures results + Split(s[start..], sep)
         == if next < |s| then results + [s[start..next]] + Split(s[next + 1..], sep) else results + [s[start..next]]
  {
    hide Split;
    var rest, k := s[start..], next - start;
    assert rest[..k] == s[start..next];
    SplitAt(rest, sep, k);
    if next < |s| {
      assert rest[k + 1..] == s[next + 1..];
      assert results + ([rest[..k]] + Split(rest[k + 1..], sep)) == results + [rest[..k]] + Split(rest[k + 1..], sep);
    } else {
      assert rest[..k] == rest;
    }
  }

  /** The loop of `split`. */
  method SplitString(original: string, separator: char) returns (results: Path)
    ensures results == Split(original, separator)
  {
    hide Split;
    results := [];
    var start := 0;
    assert original[0..] == original;
    var next := Find(original, start, separator);
    while next < |original|
      invariant start <= next <= |original| && separator !in original[start..next]
      invariant next < |original| ==> original[next] == separator
      invariant results + Split(original[start..], separator) == Split(original, separator)
      decreases |original| - start
    {
      NextPiece(original, start, next, separator, results);
      results := results + [original[start..next]];
      start := next + 1;
      next := Find(original, start, separator);
    }
    NextPiece(original, start, next, separator, results);
    results := results + [original[start..next]];
  }

  /** `std::find` from a position on. */
  method Find(s: string, start: nat, c: char) returns (next: nat)
    requires start <= |s|
    ensures start <= next <= |s| && c !in s[start..next]
    ensures next < |s| ==> s[next] == c
  {
    next := start;
    while next < |s| && s[next] != c
      invariant start <= next <= |s| && c !in s[start..next]
    {
      next := next + 1;
    }
  }

  /** `startsWith`. */
  predicate StartsWith(value: string, starting: string) {
    |starting| <= |value| && value[..|starting|] == starting
  }

  /** A node is an ancestor of another when its path is a prefix, whole components counted; as strings
      the path continues with a separator. */
  lemma AncestorIsPrefix(ancestor: string, path: string)
    ensures Split(ancestor, '/') < Split(path, '/') <==> StartsWith(path, ancestor + "/")
  {
    var a, p := Split(ancestor, '/'), Split(path, '/');
    JoinSplit(ancestor, '/');
    JoinSplit(path, '/');
    if a < p {
      var rest := p[|a|..];
      assert p == a + rest;
      JoinAppend(a, rest, '/');
      assert path[..|ancestor| + 1] == ancestor + "/";
    }
    if StartsWith(path, ancestor + "/") {
      var tail := path[|ancestor| + 1..];
      var t := Split(tail, '/');
      JoinSplit(tail, '/');
      JoinAppend(a, t, '/');
      assert path == ancestor + "/" + tail;
      SplitJoin(a + t, '/');
      assert p == a + t;
    }
  }

  /** `startsWith` does not ask for whole components: it holds of every ancestor, and of some others. */
  lemma StartsWithIsWider()
    ensures forall a, p :: Split(a, '/') <= Split(p, '/') ==> StartsWith(p, a)
    ensures StartsWith("ab", "a") && !(Split("a", '/') <= Split("ab", '/'))
  {
    forall a, p | Split(a, '/') <= Split(p, '/')
      ensures StartsWith(p, a)
    {
      AncestorIsPrefix(a, p);
      if Split(a, '/') == Split(p, '/') {
        JoinSplit(a, '/');
        JoinSplit(p, '/');
      } else {
        assert p[..|a|] == p[..|a + "/"|][..|a|];
      }
    }
    SplitAt("a", '/', 1);
    SplitAt("ab", '/', 2);
    assert ["a"][0] != ["ab"][0];
  }

  // ---- File names --------------------------------------------------------------------------

  /** The node's part of the names of its two files: the components joined by `_`. */
  function FileTag(comps: Path): string {
    if comps == [] then ""
    else
      var name := FileTag(comps[..|comps| - 1]);
      (if name != "" then name + "_" else name) + comps[|comps| - 1]
  }

  /** The leading empty components, which leave no trace in the name. */
  function Strip(a: Path): (r: Path)
    ensures r != [] ==> r[0] != ""
    ensures "" !in a ==> r == a
  {
    if a != [] && a[0] == "" then Strip(a[1..]) else a
  }

  /** The components cut at `_`. */
  function Pieces(a: Path): Path {
    if a == [] then [] else Split(a[0], '_') + Pieces(a[1..])
  }

  /** Two nodes share their files if and only if, leading empty components aside, their components cut
      at `_` are the same. */
  lemma FilesShared(a: Path, b: Path)
    ensures FileTag(a) == FileTag(b) <==> Pieces(Strip(a)) == Pieces(Strip(b))
  {
    TagIsPieces(a);
    TagIsPieces(b);
    if FileTag(a) == FileTag(b) && FileTag(a) != "" {
      JoinInjective(Pieces(Strip(a)), Pieces(Strip(b)), '_');
    }
  }

  lemma {:induction false} TagIsPieces(a: Path)
    ensures FileTag(a) == Join(Pieces(Strip(a)), '_')
    ensures FileTag(a) == "" <==> Pieces(Strip(a)) == []
    ensures Strip(a) != [] ==> FileTag(a) != "" && Plain(Pieces(Strip(a)), '_')
  {
    hide Split, Join, Strip, Pieces, FileTag;
    if a == [] {
      TagOfNothing();
    } else {
      var n := |a| - 1;
      var before, c := a[..n], a[n];
      TagIsPieces(before);
      assert a == before + [c];
      TagMore(before, c);
      StripAppend(before, c);
      JoinSplit(c, '_');
      PiecesAppend(Strip(before), c);
      TagOfNothing();
      if Strip(before) != [] {
        JoinAppend(Pieces(Strip(before)), Split(c, '_'), '_');
      } else {
        assert [] + Split(c, '_') == Split(c, '_');
        assert "" + c == c;
      }
    }
  }

  lemma TagOfNothing()
    ensures FileTag([]) == "" == Join([], '_') && Strip([]) == [] == Pieces([])
  {
  }

  lemma TagMore(comps: Path, c: string)
    ensures FileTag(comps + [c]) == (if FileTag(comps) != "" then FileTag(comps) + "_" else FileTag(comps)) + c
  {
    assert (comps + [c])[..|comps|] == comps;
  }

  lemma {:induction false} StripAppend(a: Path, c: string)
    ensures Strip(a + [c]) == if Strip(a) == [] && c == "" then [] else Strip(a) + [c]
  {
    if a != [] {
      assert (a + [c])[1..] == a[1..] + [c];
      StripAppend(a[1..], c);
    }
  }

  lemma {:induction false} PiecesAppend(a: Path, c: string)
    ensures Pieces(a + [c]) == Pieces(a) + Split(c, '_')
  {
    if a == [] {
      assert [c][1..] == [];
    } else {
      assert (a + [c])[1..] == a[1..] + [c];
      PiecesAppend(a[1..], c);
    }
  }

  /** In particular, nodes never share files when no component is empty or contains `_`. */
  lemma FilesApart(a: Path, b: Path)
    requires Plain(a, '_') && Plain(b, '_') && "" !in a && "" !in b
    requires FileTag(a) == FileTag(b)
    ensures a == b
  {
    FilesShared(a, b);
    PlainPieces(a);
    PlainPieces(b);
  }

  lemma {:induction false} PlainPieces(a: Path)
    requires forall i | 0 <= i < |a| :: '_' !in a[i]
    ensures Pieces(a) == a
  {
    if a != [] {
      SplitAt(a[0], '_', |a[0]|);
      PlainPieces(a[1..]);
    }
  }

  /** And they do share them for `a/b` and `a_b`, and for `/a` and `a`. */
  lemma FilesClash()
    ensures FileTag(["a", "b"]) == FileTag(["a_b"]) && FileTag(["", "a"]) == FileTag(["a"])
  {
    hide FileTag;
    FilesShared(["a", "b"], ["a_b"]);
    PlainPieces(["a", "b"]);
    SplitAt("a_b", '_', 1);
    assert "a_b"[2..] == "b" && "a_b"[..1] == "a";
    SplitAt("b", '_', 1);
    FilesShared(["", "a"], ["a"]);
    assert ["", "a"][1..] == ["a"];
  }
}
