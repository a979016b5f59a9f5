/** The episode file name "s<disc> e<track> <title><ext>", with both numbers
    formatted as by the verb %02d, and a parser that reads it back. */
module FileNames {
  import opened Foreign

  predicate AllDigits(s: string)
  {
    forall i :: 0 <= i < |s| ==> IsAsciiDigit(s[i])
  }

  function DigitChar(d: nat): (c: char)
    requires d < 10
    ensures IsAsciiDigit(c)
  {
    ('0' as int + d) as char
  }

  /** The decimal digits of `n`, most significant first, without padding. */
  function Digits(n: nat): (s: string)
    ensures s != [] && AllDigits(s)
    ensures n < 10 <==> |s| == 1
    ensures n < 100 <==> |s| <= 2
  {
    if n < 10 then [DigitChar(n)]
    else Digits(n / 10) + [DigitChar(n % 10)]
  }

  /** The verb %02d: at least two characters, zero-padded after any sign. */
  function Pad2(n: int): string
  {
    if n < 0 then "-" + Digits(-n)
    else if n < 10 then "0" + Digits(n)
    else Digits(n)
  }

  /** The value of a string of decimal digits. */
  function ParseDigits(s: string): nat
    requires AllDigits(s)
  {
    if s == [] then 0
    else 10 * ParseDigits(s[..|s| - 1]) + (s[|s| - 1] as int - '0' as int)
  }

  lemma {:induction false} ParseDigitsOfDigits(n: nat)
    ensures ParseDigits(Digits(n)) == n
  {
    if n >= 10 {
      ParseDigitsOfDigits(n / 10);
      var s := Digits(n);
      assert s[..|s| - 1] == Digits(n / 10);
    }
  }

  /** A leading zero does not change the value. */
  lemma {:induction false} ParseDigitsLeadingZero(s: string)
    requires AllDigits(s)
    ensures AllDigits("0" + s) && ParseDigits("0" + s) == ParseDigits(s)
    decreases |s|
  {
    if s != [] {
      var init := s[..|s| - 1];
      ParseDigitsLeadingZero(init);
      assert ("0" + s)[..|"0" + s| - 1] == "0" + init;
    }
  }

  /** %02d of a non-negative number: digits only, exactly two of them below
      100, and read back as the number itself. */
  lemma Pad2Spec(n: int)
    requires n >= 0
    ensures AllDigits(Pad2(n)) && |Pad2(n)| >= 2
    ensures n < 100 ==> |Pad2(n)| == 2
    ensures ParseDigits(Pad2(n)) == n
  {
    ParseDigitsOfDigits(n);
    if n < 10 { ParseDigitsLeadingZero(Digits(n)); }
  }

  /** The file name of a track. */
  function FileName(disc: int, track: int, title: string, ext: string): string
  {
    "s" + Pad2(disc) + " e" + Pad2(track) + " " + title + ext
  }

  /** %02d never produces a separator. */
  lemma Pad2NoSlash(n: int)
    ensures '/' !in Pad2(n)
  {
    var d := Digits(if n < 0 then -n else n);
    assert forall i :: 0 <= i < |d| ==> d[i] != '/';
  }

  /** The file name starts with "s" and holds a separator only if the title
      or the extension does. */
  lemma FileNameNoSlash(disc: int, track: int, title: string, ext: string)
    requires '/' !in title && '/' !in ext
    ensures '/' !in FileName(disc, track, title, ext)
    ensures FileName(disc, track, title, ext)[0] == 's'
  {
    Pad2NoSlash(disc);
    Pad2NoSlash(track);
    var p1, p2 := Pad2(disc), Pad2(track);
    assert FileName(disc, track, title, ext) == "s" + p1 + " e" + p2 + " " + title + ext;
  }

  /** The first position of `c` in `s`. */
  function IndexOf(s: string, c: char): (r: Option<nat>)
    ensures r.None? ==> c !in s
    ensures r.Some? ==> r.value < |s| && s[r.value] == c && c !in s[..r.value]
  {
    if s == [] then None
    else if s[0] == c then Some(0)
    else
      match IndexOf(s[1..], c)
      case None => None
      case Some(i) =>
        assert s[..i + 1] == [s[0]] + s[1..][..i];
        Some(i + 1)
  }

  lemma IndexOfAfter(x: string, c: char, y: string)
    requires c !in x
    ensures IndexOf(x + [c] + y, c) == Some(|x|)
  {
    var s := x + [c] + y;
    assert s[|x|] == c && s[..|x|] == x;
  }

  datatype NameParts = NameParts(disc: int, track: int, title: string, ext: string)

  /** Reads a file name of the form "s<digits> e<digits> <title><ext>", where
      the extension starts at the first dot after the second space. */
  function ParseFileName(name: string): Option<NameParts>
  {
    if name == [] || name[0] != 's' then None
    else
      match LeadingNumber(name[1..])
      case None => None
      case Some((disc, u)) =>
        if u == [] || u[0] != 'e' then None
        else
          match LeadingNumber(u[1..])
          case None => None
          case Some((track, rest)) =>
            var (title, ext) := SplitExt(rest);
            Some(NameParts(disc, track, title, ext))
  }

  /** A non-empty run of digits ended by a space: its value and what follows
      the space. */
  function LeadingNumber(t: string): Option<(nat, string)>
  {
    match IndexOf(t, ' ')
    case None => None
    case Some(i) =>
      if t[..i] == [] || !AllDigits(t[..i]) then None
      else Some((ParseDigits(t[..i]), t[i + 1..]))
  }

  /** Title and extension: the extension starts at the first dot. */
  function SplitExt(rest: string): (string, string)
  {
    var k := match IndexOf(rest, '.') case None => |rest| case Some(k) => k;
    (rest[..k], rest[k..])
  }

  lemma LeadingNumberOfPad2(n: int, tail: string)
    requires n >= 0
    ensures LeadingNumber(Pad2(n) + [' '] + tail) == Some((n, tail))
  {
    var p := Pad2(n);
    Pad2Spec(n);
    assert ' ' !in p by { forall i | 0 <= i < |p| ensures p[i] != ' ' { assert IsAsciiDigit(p[i]); } }
    IndexOfAfter(p, ' ', tail);
    var t := p + [' '] + tail;
    assert t[..|p|] == p && t[|p| + 1..] == tail;
  }

  lemma SplitExtOf(title: string, ext: string)
    requires '.' !in title
    requires ext == [] || ext[0] == '.'
    ensures SplitExt(title + ext) == (title, ext)
  {
    var rest := title + ext;
    if ext == [] {
      assert rest == title;
    } else {
      assert rest == title + ['.'] + ext[1..];
      IndexOfAfter(title, '.', ext[1..]);
      assert rest[..|title|] == title && rest[|title|..] == ext;
    }
  }

  /** Parsing a name assembled from its parts gives the parts back. */
  lemma ParseAssembled(t: string, u: string, v: string, title: string, ext: string,
                       disc: nat, track: nat)
    requires LeadingNumber(t) == Some((disc, u))
    requires u != [] && u[0] == 'e' && LeadingNumber(u[1..]) == Some((track, v))
    requires SplitExt(v) == (title, ext)
    ensures ParseFileName(['s'] + t) == Some(NameParts(disc, track, title, ext))
  {
    assert (['s'] + t)[1..] == t;
  }

  /** The file name gives back disc, track, title and extension, as long as
      the numbers are non-negative, the title has no dot and the extension is
      empty or starts with one. */
  lemma FileNameRoundTrip(disc: int, track: int, title: string, ext: string)
    requires disc >= 0 && track >= 0
    requires '.' !in title
    requires ext == [] || ext[0] == '.'
    ensures ParseFileName(FileName(disc, track, title, ext)) == Some(NameParts(disc, track, title, ext))
  {
    var p1, p2 := Pad2(disc), Pad2(track);
    var rest := title + ext;
    var v := p2 + [' '] + rest;
    var u := ['e'] + v;
    var t := p1 + [' '] + u;
    assert FileName(disc, track, title, ext) == ['s'] + t;
    LeadingNumberOfPad2(disc, u);
    assert u[1..] == v;
    LeadingNumberOfPad2(track, rest);
    SplitExtOf(title, ext);
    ParseAssembled(t, u, rest, title, ext, disc, track);
  }

  /** A worked example: disc 1, track 3. */
  lemma FileNameExample()
    ensures FileName(1, 3, "The Beginning", ".m4a") == "s01 e03 The Beginning.m4a"
  {
  }
}
