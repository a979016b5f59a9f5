/** The filename sanitizer: an order-preserving filter that keeps Unicode
    letters, Unicode digits and a fixed set of punctuation. */
module Sanitizer {
  import opened Foreign

  /** The punctuation (and the space) that survives sanitizing. */
  const OkRunes: string := "!#$%&'(),-= "

  /** A character the sanitizer keeps. */
  predicate Safe(uc: UnicodeTables, c: char)
  {
    uc.isLetter(c) || uc.isDigit(c) || c in OkRunes
  }

  predicate AllSafe(uc: UnicodeTables, s: string)
  {
    forall i :: 0 <= i < |s| ==> Safe(uc, s[i])
  }

  /** What sanitizing `s` yields: its safe characters, in order. Defined from
      the last character so that it follows the builder that appends. */
  function Sanitized(uc: UnicodeTables, s: string): (r: string)
    ensures |r| <= |s|
    ensures AllSafe(uc, r)
  {
    if s == [] then []
    else
      var init, last := s[..|s| - 1], s[|s| - 1];
      Sanitized(uc, init) + (if Safe(uc, last) then [last] else [])
  }

  /** The sanitizer itself: one pass over the characters, appending each
      safe one to the result. */
  method Sanitize(uc: UnicodeTables, title: string) returns (filename: string)
    ensures filename == Sanitized(uc, title)
  {
    filename := "";
    var i := 0;
    while i < |title|
      invariant 0 <= i <= |title|
      invariant filename == Sanitized(uc, title[..i])
    {
      var r := title[i];
      assert title[..i + 1][..i] == title[..i];
      if uc.isLetter(r) || uc.isDigit(r) || r in OkRunes {
        filename := filename + [r];
      }
      i := i + 1;
    }
    assert title[..i] == title;
  }

  /** Greedy subsequence test, matching from the end. */
  predicate IsSubsequence(r: string, s: string)
    decreases |s|
  {
    if r == [] then true
    else if s == [] then false
    else if r[|r| - 1] == s[|s| - 1] then IsSubsequence(r[..|r| - 1], s[..|s| - 1])
    else IsSubsequence(r, s[..|s| - 1])
  }

  /** Sanitizing distributes over concatenation: it looks at one character
      at a time and never across a boundary. */
  lemma {:induction false} SanitizedConcat(uc: UnicodeTables, a: string, b: string)
    ensures Sanitized(uc, a + b) == Sanitized(uc, a) + Sanitized(uc, b)
    decreases |b|
  {
    if b == [] {
      assert a + b == a;
    } else {
      var b' := b[..|b| - 1];
      assert (a + b)[..|a + b| - 1] == a + b';
      assert (a + b)[|a + b| - 1] == b[|b| - 1];
      SanitizedConcat(uc, a, b');
    }
  }

  /** A string made only of safe characters is left as it is. */
  lemma {:induction false} SanitizedFixedPoint(uc: UnicodeTables, s: string)
    requires AllSafe(uc, s)
    ensures Sanitized(uc, s) == s
    decreases |s|
  {
    if s != [] {
      var init := s[..|s| - 1];
      assert AllSafe(uc, init) by {
        forall i | 0 <= i < |init| ensures Safe(uc, init[i]) { assert init[i] == s[i]; }
      }
      SanitizedFixedPoint(uc, init);
      assert init + [s[|s| - 1]] == s;
    }
  }

  /** Sanitizing twice is sanitizing once. */
  lemma SanitizedIdempotent(uc: UnicodeTables, s: string)
    ensures Sanitized(uc, Sanitized(uc, s)) == Sanitized(uc, s)
  {
    SanitizedFixedPoint(uc, Sanitized(uc, s));
  }

  /** Sanitizing changes a string exactly when it holds an unsafe character. */
  lemma SanitizedUnchangedIff(uc: UnicodeTables, s: string)
    ensures Sanitized(uc, s) == s <==> AllSafe(uc, s)
  {
    if AllSafe(uc, s) { SanitizedFixedPoint(uc, s); }
  }

  /** Every safe character keeps its number of occurrences, every other one
      disappears: nothing is inserted or replaced. */
  lemma {:induction false} SanitizedCounts(uc: UnicodeTables, s: string, c: char)
    ensures multiset(Sanitized(uc, s))[c] == if Safe(uc, c) then multiset(s)[c] else 0
    decreases |s|
  {
    if s != [] {
      var init, last := s[..|s| - 1], s[|s| - 1];
      SanitizedCounts(uc, init, c);
      assert s == init + [last];
    }
  }

  /** The sanitized string is a subsequence of the input. */
  lemma {:induction false} SanitizedIsSubsequence(uc: UnicodeTables, s: string)
    ensures IsSubsequence(Sanitized(uc, s), s)
    decreases |s|
  {
    if s != [] {
      var init, last := s[..|s| - 1], s[|s| - 1];
      SanitizedIsSubsequence(uc, init);
      var r := Sanitized(uc, s);
      if Safe(uc, last) {
        assert r[..|r| - 1] == Sanitized(uc, init);
      } else {
        assert r == Sanitized(uc, init);
        SubsequenceOfPrefix(r, init, last);
      }
    }
  }

  /** A subsequence of `s` is a subsequence of `s` extended by a character. */
  lemma {:induction false} SubsequenceOfPrefix(r: string, s: string, c: char)
    requires IsSubsequence(r, s)
    ensures IsSubsequence(r, s + [c])
    decreases |s|, 1
  {
    var t := s + [c];
    assert t[..|t| - 1] == s;
    if r != [] && r[|r| - 1] == c {
      SubsequenceDropLast(r, s);
    }
  }

  /** Dropping the last character of a subsequence keeps it a subsequence. */
  lemma {:induction false} SubsequenceDropLast(r: string, s: string)
    requires r != [] && IsSubsequence(r, s)
    ensures IsSubsequence(r[..|r| - 1], s)
    decreases |s|, 0
  {
    var r', s' := r[..|r| - 1], s[..|s| - 1];
    if r[|r| - 1] == s[|s| - 1] {
      if r' != [] { SubsequenceOfPrefix(r', s', s[|s| - 1]); assert s' + [s[|s| - 1]] == s; }
    } else {
      SubsequenceDropLast(r, s');
      if r' != [] { SubsequenceOfPrefix(r', s', s[|s| - 1]); assert s' + [s[|s| - 1]] == s; }
    }
  }

  /** No subsequence of `s` made of safe characters is longer than the
      sanitized string, and one as long is the sanitized string: sanitizing
      yields exactly the safe characters of `s`, in their original order. */
  lemma {:induction false} SanitizedIsLargestSafeSubsequence(uc: UnicodeTables, r: string, s: string)
    requires IsSubsequence(r, s) && AllSafe(uc, r)
    ensures |r| <= |Sanitized(uc, s)|
    ensures |r| == |Sanitized(uc, s)| ==> r == Sanitized(uc, s)
    decreases |s|
  {
    if r != [] {
      var s', last := s[..|s| - 1], s[|s| - 1];
      var r' := r[..|r| - 1];
      assert AllSafe(uc, r') by {
        forall i | 0 <= i < |r'| ensures Safe(uc, r'[i]) { assert r'[i] == r[i]; }
      }
      if r[|r| - 1] == last {
        SanitizedIsLargestSafeSubsequence(uc, r', s');
        assert Safe(uc, last) by { assert r[|r| - 1] == last; }
        assert r == r' + [last];
      } else {
        SanitizedIsLargestSafeSubsequence(uc, r, s');
      }
    } else if s != [] {
      var sn := Sanitized(uc, s);
      if |sn| == 0 { assert sn == []; }
    }
  }

  /** Neither the path separator nor the dot survives sanitizing. */
  lemma NoSeparatorOrDot(uc: UnicodeTables, s: string)
    requires uc.WellFormed()
    ensures '/' !in Sanitized(uc, s) && '.' !in Sanitized(uc, s)
  {
    var r := Sanitized(uc, s);
    assert !Safe(uc, '/') && !Safe(uc, '.');
    forall i | 0 <= i < |r| ensures r[i] != '/' && r[i] != '.' {
      assert Safe(uc, r[i]);
    }
  }

  /** A worked example: the slash, the colon and the dot go, the letters,
      the digit, the space and the exclamation mark stay. */
  lemma SanitizeExample(uc: UnicodeTables)
    requires uc.WellFormed()
    ensures Sanitized(uc, "Doctor/Who: Ep.1!") == "DoctorWho Ep1!"
  {
    ExampleTail(uc);
    assert "Doctor/Who: Ep.1!" == "Doctor" + ['/'] + "Who: Ep.1!";
    DropUnsafe(uc, "Doctor", '/', "Who: Ep.1!");
    AsciiSafe(uc, "Doctor");
  }

  lemma ExampleTail(uc: UnicodeTables)
    requires uc.WellFormed()
    ensures Sanitized(uc, "Who: Ep.1!") == "Who Ep1!"
  {
    ExampleEnd(uc);
    assert "Who: Ep.1!" == "Who" + [':'] + " Ep.1!";
    DropUnsafe(uc, "Who", ':', " Ep.1!");
    AsciiSafe(uc, "Who");
  }

  lemma ExampleEnd(uc: UnicodeTables)
    requires uc.WellFormed()
    ensures Sanitized(uc, " Ep.1!") == " Ep1!"
  {
    assert " Ep.1!" == " Ep" + ['.'] + "1!";
    DropUnsafe(uc, " Ep", '.', "1!");
    AsciiSafe(uc, " Ep");
    AsciiSafe(uc, "1!");
  }

  /** An unsafe character between two strings leaves no trace. */
  lemma DropUnsafe(uc: UnicodeTables, a: string, c: char, b: string)
    requires uc.WellFormed() && c in "/:."
    ensures Sanitized(uc, a + [c] + b) == Sanitized(uc, a) + Sanitized(uc, b)
  {
    assert !Safe(uc, c);
    SanitizedConcat(uc, a + [c], b);
    assert Sanitized(uc, a + [c]) == Sanitized(uc, a) by { assert (a + [c])[..|a|] == a; }
  }

  /** Strings of ASCII letters, digits, spaces and '!' are safe. */
  lemma AsciiSafe(uc: UnicodeTables, s: string)
    requires uc.WellFormed()
    requires forall i :: 0 <= i < |s| ==> IsAsciiLetter(s[i]) || IsAsciiDigit(s[i]) || s[i] == ' ' || s[i] == '!'
    ensures Sanitized(uc, s) == s
  {
    forall i | 0 <= i < |s| ensures Safe(uc, s[i]) {
      if s[i] == ' ' || s[i] == '!' { assert s[i] in OkRunes; }
    }
    SanitizedFixedPoint(uc, s);
  }
}
