/** The slash-separated path helpers the renamer relies on: the final
    element of a path, its extension, and case-insensitive comparison of an
    extension with an ASCII one. */
module Paths {

  /** The path without its trailing separators. */
  function TrimSlashes(p: string): (t: string)
    ensures |t| <= |p| && t == p[..|t|]
    ensures t == [] || t[|t| - 1] != '/'
  {
    if p != [] && p[|p| - 1] == '/' then TrimSlashes(p[..|p| - 1]) else p
  }

  /** The characters after the last separator. */
  function LastElement(p: string): (e: string)
    ensures |e| <= |p| && e == p[|p| - |e|..]
    ensures '/' !in e
    ensures |e| < |p| ==> p[|p| - |e| - 1] == '/'
  {
    if p == [] || p[|p| - 1] == '/' then []
    else
      var e := LastElement(p[..|p| - 1]);
      assert p[..|p| - 1][|p| - 1 - |e|..] + [p[|p| - 1]] == p[|p| - 1 - |e|..];
      e + [p[|p| - 1]]
  }

  /** The last element of a path, ignoring trailing separators; "." for the
      empty path and "/" for a path made only of separators. */
  function Base(p: string): (b: string)
    ensures b != []
    ensures b != "/" ==> '/' !in b
  {
    if p == [] then "."
    else
      var t := TrimSlashes(p);
      if t == [] then "/" else LastElement(t)
  }

  /** The extension: the suffix of the last element that starts at its last
      dot, or the empty string when that element has no dot. */
  function Ext(p: string): (e: string)
    ensures |e| <= |p| && e == p[|p| - |e|..]
    ensures e != [] ==> e[0] == '.' && '.' !in e[1..] && '/' !in e
  {
    if p == [] || p[|p| - 1] == '/' then []
    else if p[|p| - 1] == '.' then "."
    else
      var e := Ext(p[..|p| - 1]);
      if e == [] then []
      else
        assert p[..|p| - 1][|p| - 1 - |e|..] + [p[|p| - 1]] == p[|p| - 1 - |e|..];
        assert (e + [p[|p| - 1]])[1..] == e[1..] + [p[|p| - 1]];
        e + [p[|p| - 1]]
  }

  predicate IsSuffix(e: string, s: string)
  {
    |e| <= |s| && e == s[|s| - |e|..]
  }

  lemma SuffixAppend(e: string, s: string, c: char)
    requires IsSuffix(e, s)
    ensures IsSuffix(e + [c], s + [c])
  {
    assert (s + [c])[|s| + 1 - (|e| + 1)..] == s[|s| - |e|..] + [c];
  }

  /** A non-empty extension is a suffix of the path's base name. */
  lemma ExtSuffixOfBase(p: string)
    requires Ext(p) != []
    ensures IsSuffix(Ext(p), Base(p))
  {
    assert TrimSlashes(p) == p;
    ExtSuffixOfLastElement(p);
  }

  lemma {:induction false} ExtSuffixOfLastElement(p: string)
    requires Ext(p) != []
    ensures IsSuffix(Ext(p), LastElement(p))
    decreases |p|
  {
    var init, c := p[..|p| - 1], p[|p| - 1];
    assert LastElement(p) == LastElement(init) + [c];
    if c != '.' {
      ExtSuffixOfLastElement(init);
      SuffixAppend(Ext(init), LastElement(init), c);
    }
  }

  /** The extension of a path ending in a dot followed by no dot and no
      separator is that ending. */
  lemma {:induction false} ExtOfEnding(stem: string, ext: string)
    requires ext != [] && ext[0] == '.' && '.' !in ext[1..] && '/' !in ext
    ensures Ext(stem + ext) == ext
    decreases |ext|
  {
    var p := stem + ext;
    assert p[|p| - 1] == ext[|ext| - 1];
    if |ext| > 1 {
      var init := ext[..|ext| - 1];
      assert init[1..] == ext[1..][..|ext| - 2];
      assert p[..|p| - 1] == stem + init;
      ExtOfEnding(stem, init);
      assert ext[|ext| - 1] in ext[1..];
    }
  }

  function LowerChar(c: char): char
  {
    if 'A' <= c <= 'Z' then (c as int + 32) as char else c
  }

  /** ASCII lower-casing, character by character. */
  function Lower(s: string): string
  {
    seq(|s|, i requires 0 <= i < |s| => LowerChar(s[i]))
  }

  /** Case-insensitive equality. It folds only ASCII letters, which decides
      every comparison with an extension whose letters have no case partner
      outside ASCII (as for "m", "p" and "a"). */
  predicate EqualFold(s: string, t: string)
  {
    |s| == |t| && forall i :: 0 <= i < |s| ==> LowerChar(s[i]) == LowerChar(t[i])
  }

  lemma EqualFoldLower(s: string, t: string)
    ensures EqualFold(s, t) <==> Lower(s) == Lower(t)
  {
    if |s| == |t| && Lower(s) == Lower(t) {
      forall i | 0 <= i < |s| ensures LowerChar(s[i]) == LowerChar(t[i]) {
        assert Lower(s)[i] == Lower(t)[i];
      }
    }
  }
}
