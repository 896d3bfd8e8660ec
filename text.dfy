/**
 * The two C library routines the readers rely on, as total functions on
 * strings: `strtok` (splitting a line into tokens at a set of delimiter
 * characters) and `atoi` (reading a leading decimal integer).  Each comes
 * with an inverse (`Join`, `ShowInt`) and a round-trip lemma.
 */
module Text {

  /** The characters C's `isspace` accepts: blank, \t, \n, \v, \f and \r. */
  predicate IsSpace(c: char) {
    c == ' ' || 9 <= c as int <= 13
  }

  predicate IsDigit(c: char) {
    '0' <= c <= '9'
  }

  predicate AllDigits(s: string) {
    forall i :: 0 <= i < |s| ==> IsDigit(s[i])
  }

  /** `strncmp(marker, line, |marker|) == 0`: the line begins with the marker. */
  predicate StartsWith(line: string, marker: string) {
    |marker| <= |line| && line[..|marker|] == marker
  }

  // ---------------------------------------------------------------------
  // strtok
  // ---------------------------------------------------------------------

  /** The longest prefix of `s` holding no delimiter. */
  function Word(s: string, delims: set<char>): (w: string)
    ensures |w| <= |s| && w == s[..|w|]
    ensures forall c :: c in w ==> c !in delims
    ensures |w| == |s| || s[|w|] in delims
  {
    if s == [] || s[0] in delims then [] else [s[0]] + Word(s[1..], delims)
  }

  /**
   * The tokens successive `strtok` calls return: the maximal runs of
   * non-delimiter characters, in order.
   */
  function Tokens(s: string, delims: set<char>): (ts: seq<string>)
    ensures forall k :: 0 <= k < |ts| ==> ts[k] != []
    ensures forall k :: 0 <= k < |ts| ==> forall c :: c in ts[k] ==> c !in delims
    decreases |s|
  {
    if s == [] then []
    else if s[0] in delims then Tokens(s[1..], delims)
    else
      var w := Word(s, delims);
      [w] + Tokens(s[|w|..], delims)
  }

  /** The inverse of `Tokens`: words separated by one delimiter. */
  function Join(ws: seq<string>, sep: char): string
  {
    if |ws| == 0 then []
    else if |ws| == 1 then ws[0]
    else ws[0] + [sep] + Join(ws[1..], sep)
  }

  lemma {:induction false} WordBeforeDelimiter(w: string, rest: string, delims: set<char>)
    requires forall c :: c in w ==> c !in delims
    requires rest == [] || rest[0] in delims
    ensures Word(w + rest, delims) == w
  {
    if w != [] {
      assert (w + rest)[1..] == w[1..] + rest;
      WordBeforeDelimiter(w[1..], rest, delims);
    }
  }

  /** Splitting a line made of delimiter-free words joined by a delimiter gives the words back. */
  lemma {:induction false} TokensOfJoin(ws: seq<string>, sep: char, delims: set<char>)
    requires sep in delims
    requires forall k :: 0 <= k < |ws| ==> ws[k] != [] && forall c :: c in ws[k] ==> c !in delims
    ensures Tokens(Join(ws, sep), delims) == ws
  {
    if |ws| == 1 {
      var w := ws[0];
      assert w == w + [];
      WordBeforeDelimiter(w, [], delims);
      assert w[|w|..] == [];
    } else if |ws| > 1 {
      var w, tail := ws[0], Join(ws[1..], sep);
      var s := w + [sep] + tail;
      assert s == w + ([sep] + tail);
      WordBeforeDelimiter(w, [sep] + tail, delims);
      assert s[0] == w[0];
      assert s[|w|..] == [sep] + tail;
      assert ([sep] + tail)[1..] == tail;
      TokensOfJoin(ws[1..], sep, delims);
    }
  }

  // ---------------------------------------------------------------------
  // atoi
  // ---------------------------------------------------------------------

  /** The number of leading white-space characters. */
  function LeadingSpace(s: string): (k: nat)
    ensures k <= |s|
    ensures forall i :: 0 <= i < k ==> IsSpace(s[i])
    ensures k == |s| || !IsSpace(s[k])
  {
    if s != [] && IsSpace(s[0]) then 1 + LeadingSpace(s[1..]) else 0
  }

  /** The longest prefix of `s` made of decimal digits. */
  function DigitRun(s: string): (d: string)
    ensures AllDigits(d) && |d| <= |s| && d == s[..|d|]
    ensures |d| == |s| || !IsDigit(s[|d|])
  {
    if s != [] && IsDigit(s[0]) then [s[0]] + DigitRun(s[1..]) else []
  }

  /** The value of a string of decimal digits, most significant first. */
  function DigitsValue(d: string): nat
    requires AllDigits(d)
  {
    if d == [] then 0
    else 10 * DigitsValue(d[..|d| - 1]) + (d[|d| - 1] as int - '0' as int)
  }

  /**
   * C's `atoi`: skip white space, take an optional sign, then the longest
   * run of digits; text without digits reads as 0.
   */
  function Atoi(s: string): (r: int)
    ensures (forall i :: 0 <= i < |s| ==> !IsDigit(s[i])) ==> r == 0
  {
    var t := s[LeadingSpace(s)..];
    if t != [] && (t[0] == '-' || t[0] == '+') then
      var m: int := DigitsValue(DigitRun(t[1..]));
      if t[0] == '-' then -m else m
    else
      DigitsValue(DigitRun(t))
  }

  function DigitChar(d: nat): (c: char)
    requires d < 10
    ensures IsDigit(c) && c as int - '0' as int == d
  {
    ('0' as int + d) as char
  }

  /** The decimal rendering of a natural number, without leading zeros. */
  function Show(k: nat): (s: string)
    ensures s != [] && AllDigits(s)
  {
    if k < 10 then [DigitChar(k)] else Show(k / 10) + [DigitChar(k % 10)]
  }

  /** The decimal rendering of an integer, with a '-' for negative values. */
  function ShowInt(k: int): string
  {
    if k < 0 then "-" + Show(-k) else Show(k)
  }

  lemma {:induction false} DigitsValueOfShow(k: nat)
    ensures DigitsValue(Show(k)) == k
  {
    if k >= 10 {
      var s := Show(k);
      assert s[..|s| - 1] == Show(k / 10);
      DigitsValueOfShow(k / 10);
    }
  }

  lemma {:induction false} DigitRunBeforeNonDigit(d: string, rest: string)
    requires AllDigits(d)
    requires rest == [] || !IsDigit(rest[0])
    ensures DigitRun(d + rest) == d
  {
    if d != [] {
      assert (d + rest)[1..] == d[1..] + rest;
      DigitRunBeforeNonDigit(d[1..], rest);
    }
  }

  /** `atoi` of a digit string followed by a non-digit is the value of the digits. */
  lemma AtoiOfDigits(s: string, d: string, rest: string)
    requires d != [] && AllDigits(d)
    requires rest == [] || !IsDigit(rest[0])
    requires s == d + rest
    ensures Atoi(s) == DigitsValue(d)
  {
    assert s[0] == d[0] && IsDigit(s[0]);
    assert LeadingSpace(s) == 0;
    assert s[0..] == s;
    DigitRunBeforeNonDigit(d, rest);
  }

  /** `atoi` of a minus sign, a digit string and a non-digit is the negated value of the digits. */
  lemma AtoiOfNegatedDigits(s: string, d: string, rest: string)
    requires AllDigits(d)
    requires rest == [] || !IsDigit(rest[0])
    requires s == "-" + d + rest
    ensures Atoi(s) == -(DigitsValue(d) as int)
  {
    assert s[0] == '-';
    assert LeadingSpace(s) == 0;
    assert s[0..] == s;
    assert s[1..] == d + rest;
    DigitRunBeforeNonDigit(d, rest);
  }

  /** `atoi` reads back any integer written in decimal and followed by a non-digit. */
  lemma AtoiShowInt(k: int, rest: string)
    requires rest == [] || !IsDigit(rest[0])
    ensures Atoi(ShowInt(k) + rest) == k
  {
    if k < 0 {
      DigitsValueOfShow(-k);
      AtoiOfNegatedDigits(ShowInt(k) + rest, Show(-k), rest);
    } else {
      DigitsValueOfShow(k);
      AtoiOfDigits(ShowInt(k) + rest, Show(k), rest);
    }
  }

  /** A decimal rendering is a non-empty word free of any character that is neither a digit nor '-'. */
  lemma ShowIntWord(k: int, c: char)
    requires !IsDigit(c) && c != '-'
    ensures ShowInt(k) != [] && c !in ShowInt(k)
  {
  }
}
