/** The string operations the Python code relies on: `str.strip()`, splitting
    at separator characters, `", ".join(...)`, `str.replace(" ", "")`, and
    the decimal rendering and parsing of integers (`str(n)`, `int(s)`). */
module Text {
  import opened Wrappers

  /** Python's `str.isspace()` for a single code point; these are the
      characters `str.strip()` removes and `\s` matches in a `re` pattern. */
  predicate IsSpace(c: char) {
    var n := c as int;
    n == 0x20 || 0x09 <= n <= 0x0d || 0x1c <= n <= 0x1f || n == 0x85 || n == 0xa0
    || n == 0x1680 || 0x2000 <= n <= 0x200a || n == 0x2028 || n == 0x2029
    || n == 0x202f || n == 0x205f || n == 0x3000
  }

  predicate AllSpace(s: string) {
    forall i :: 0 <= i < |s| ==> IsSpace(s[i])
  }

  /** No whitespace at either end: what `str.strip()` leaves behind. */
  predicate IsStripped(s: string) {
    s == [] || (!IsSpace(s[0]) && !IsSpace(s[|s| - 1]))
  }

  /** No character of `s` satisfies `sep`. */
  predicate NoneOf(s: string, sep: char -> bool) {
    forall c :: c in s ==> !sep(c)
  }

  /** `s.lstrip()`: what is left does not start with whitespace. */
  function TrimLeft(s: string): (r: string)
    ensures |r| <= |s|
    ensures r == [] || !IsSpace(r[0])
  {
    if s != [] && IsSpace(s[0]) then TrimLeft(s[1..]) else s
  }

  /** `s.rstrip()`: what is left does not end with whitespace, and it keeps
      the first character of `s` unless nothing is left. */
  function TrimRight(s: string): (r: string)
    ensures |r| <= |s|
    ensures r == [] || !IsSpace(r[|r| - 1])
    ensures r != [] ==> r[0] == s[0]
  {
    if s != [] && IsSpace(s[|s| - 1]) then TrimRight(s[..|s| - 1]) else s
  }

  /** `s.strip()`: the result has no whitespace at either end. */
  function Strip(s: string): (r: string)
    ensures IsStripped(r) && |r| <= |s|
  {
    TrimRight(TrimLeft(s))
  }

  /** `lstrip` removes a prefix made only of whitespace. */
  lemma {:induction false} TrimLeftRemovesSpace(s: string)
    ensures TrimLeft(s) == s[|s| - |TrimLeft(s)|..]
    ensures AllSpace(s[..|s| - |TrimLeft(s)|])
  {
    if s != [] && IsSpace(s[0]) {
      TrimLeftRemovesSpace(s[1..]);
      assert s[..|s| - |TrimLeft(s)|] == [s[0]] + s[1..][..|s[1..]| - |TrimLeft(s[1..])|];
    }
  }

  /** `rstrip` removes a suffix made only of whitespace. */
  lemma {:induction false} TrimRightRemovesSpace(s: string)
    ensures TrimRight(s) == s[..|TrimRight(s)|]
    ensures AllSpace(s[|TrimRight(s)|..])
  {
    if s != [] && IsSpace(s[|s| - 1]) {
      var init := s[..|s| - 1];
      TrimRightRemovesSpace(init);
      assert s[|TrimRight(s)|..] == init[|TrimRight(init)|..] + [s[|s| - 1]];
    }
  }

  /** What `strip` leaves is the middle of `s`, between a whitespace prefix
      and a whitespace suffix. */
  lemma StripIsInfix(s: string)
    ensures exists i :: 0 <= i <= |s| - |Strip(s)| && s[i..i + |Strip(s)|] == Strip(s)
                        && AllSpace(s[..i]) && AllSpace(s[i + |Strip(s)|..])
  {
    var t := TrimLeft(s);
    var r := Strip(s);
    var i := |s| - |t|;
    TrimLeftRemovesSpace(s);
    TrimRightRemovesSpace(t);
    assert s[i..i + |r|] == r;
    assert s[i + |r|..] == t[|r|..];
  }

  /** Stripping only ever removes characters: a character absent from `s`
      is absent from `Strip(s)`. */
  lemma StripAvoids(s: string, sep: char -> bool)
    requires NoneOf(s, sep)
    ensures NoneOf(Strip(s), sep)
  {
    var r := Strip(s);
    StripIsInfix(s);
    var i :| 0 <= i <= |s| - |r| && s[i..i + |r|] == r && AllSpace(s[..i]) && AllSpace(s[i + |r|..]);
    forall c | c in r ensures !sep(c) {
      var k :| 0 <= k < |r| && r[k] == c;
      assert s[i + k] == c;
    }
  }

  /** A string that is already stripped is left as it is. */
  lemma StripOfStripped(s: string)
    requires IsStripped(s)
    ensures Strip(s) == s
  {
    assert TrimLeft(s) == s;
  }

  /** Whitespace in front of a string does not change what `lstrip` leaves. */
  lemma {:induction false} TrimLeftSpacePrefix(w: string, x: string)
    requires AllSpace(w)
    ensures TrimLeft(w + x) == TrimLeft(x)
  {
    if w != [] {
      assert (w + x)[1..] == w[1..] + x;
      TrimLeftSpacePrefix(w[1..], x);
    } else {
      assert w + x == x;
    }
  }

  /** `strip` of `w + x`, where `w` is whitespace, is `strip` of `x`. */
  lemma StripSpacePrefix(w: string, x: string)
    requires AllSpace(w)
    ensures Strip(w + x) == Strip(x)
  {
    TrimLeftSpacePrefix(w, x);
  }

  // ---------------------------------------------------------------------------
  // Splitting at separator characters

  /** Cuts `s` at every character satisfying `sep`.  There is always at least
      one piece, and no piece contains a separator. */
  function Split(s: string, sep: char -> bool): (pieces: seq<string>)
    ensures |pieces| >= 1
    ensures forall k :: 0 <= k < |pieces| ==> NoneOf(pieces[k], sep)
  {
    if s == [] then [[]]
    else
      var rest := Split(s[1..], sep);
      if sep(s[0]) then [[]] + rest
      else [[s[0]] + rest[0]] + rest[1..]
  }

  /** The pieces written one after the other. */
  function Concat(pieces: seq<string>): string {
    if pieces == [] then [] else pieces[0] + Concat(pieces[1..])
  }

  /** `s` with every separator character removed, order kept. */
  function Without(s: string, sep: char -> bool): string {
    if s == [] then [] else (if sep(s[0]) then [] else [s[0]]) + Without(s[1..], sep)
  }

  /** Number of separator characters in `s`. */
  function Count(s: string, sep: char -> bool): nat {
    if s == [] then 0 else (if sep(s[0]) then 1 else 0) + Count(s[1..], sep)
  }

  /** Splitting loses exactly the separators: the pieces, concatenated in
      order, are `s` without its separators, and there is one piece more than
      there are separators. */
  lemma {:induction false} SplitLosesOnlySeparators(s: string, sep: char -> bool)
    ensures Concat(Split(s, sep)) == Without(s, sep)
    ensures |Split(s, sep)| == Count(s, sep) + 1
  {
    if s != [] {
      var rest := Split(s[1..], sep);
      SplitLosesOnlySeparators(s[1..], sep);
      assert Concat(rest) == rest[0] + Concat(rest[1..]);
      if sep(s[0]) {
        assert Concat([[]] + rest) == [] + Concat(rest);
      } else {
        var pieces := [[s[0]] + rest[0]] + rest[1..];
        assert pieces[1..] == rest[1..];
        assert Concat(pieces) == [s[0]] + rest[0] + Concat(rest[1..]);
      }
    }
  }

  /** A separator-free prefix joins the first piece of what follows it. */
  lemma {:induction false} SplitAfterPlain(x: string, rest: string, sep: char -> bool)
    requires NoneOf(x, sep)
    ensures Split(x + rest, sep) == [x + Split(rest, sep)[0]] + Split(rest, sep)[1..]
  {
    if x != [] {
      assert (x + rest)[1..] == x[1..] + rest;
      assert x[0] in x;
      SplitAfterPlain(x[1..], rest, sep);
      assert [x[0]] + (x[1..] + Split(rest, sep)[0]) == x + Split(rest, sep)[0];
    } else {
      var pieces := Split(rest, sep);
      assert x + rest == rest;
      assert x + pieces[0] == pieces[0];
      assert pieces == [pieces[0]] + pieces[1..];
    }
  }

  /** `sep.join(xs)` */
  function Join(xs: seq<string>, sep: string): string {
    if xs == [] then []
    else if |xs| == 1 then xs[0]
    else xs[0] + sep + Join(xs[1..], sep)
  }

  /** Joining separator-free pieces with a one-character separator and
      splitting the result again gives the pieces back. */
  lemma {:induction false} SplitJoin(xs: seq<string>, c: char, sep: char -> bool)
    requires xs != [] && sep(c)
    requires forall k :: 0 <= k < |xs| ==> NoneOf(xs[k], sep)
    ensures Split(Join(xs, [c]), sep) == xs
  {
    if |xs| == 1 {
      assert xs[0] + [] == xs[0];
      assert Split([], sep) == [[]];
      SplitAfterPlain(xs[0], [], sep);
    } else {
      var tail := Join(xs[1..], [c]);
      assert xs[0] + [c] + tail == xs[0] + ([c] + tail);
      SplitAfterPlain(xs[0], [c] + tail, sep);
      assert ([c] + tail)[1..] == tail;
      assert Split([c] + tail, sep) == [[]] + Split(tail, sep);
      SplitJoin(xs[1..], c, sep);
      assert xs[0] + [] == xs[0];
      assert xs == [xs[0]] + xs[1..];
    }
  }

  /** Joining pieces that avoid a set of characters with a separator that
      avoids them too gives text that avoids them. */
  lemma {:induction false} JoinAvoids(xs: seq<string>, sep: string, p: char -> bool)
    requires NoneOf(sep, p)
    requires forall k :: 0 <= k < |xs| ==> NoneOf(xs[k], p)
    ensures NoneOf(Join(xs, sep), p)
  {
    if |xs| > 1 {
      JoinAvoids(xs[1..], sep, p);
      assert xs[0] in xs;
      assert xs[0] + sep + Join(xs[1..], sep) == xs[0] + (sep + Join(xs[1..], sep));
    }
  }

  // ---------------------------------------------------------------------------
  // Lines

  /** The characters `str.splitlines()` ends a line at. */
  predicate IsLineBreak(c: char) {
    var n := c as int;
    n == 0x0a || n == 0x0b || n == 0x0c || n == 0x0d || 0x1c <= n <= 0x1e
    || n == 0x85 || n == 0x2028 || n == 0x2029
  }

  /** `len(s.splitlines()) > 1`: some line break has text after it, where a
      final `\r\n` pair ends one line. */
  predicate MultiLine(s: string) {
    exists i :: 0 <= i < |s| - 1 && IsLineBreak(s[i]) && !(i == |s| - 2 && s[i] == '\r' && s[i + 1] == '\n')
  }

  /** Text without line breaks is one line; a break with more text after it
      makes two. */
  lemma MultiLineCases(s: string, t: string)
    ensures NoneOf(s, IsLineBreak) ==> !MultiLine(s)
    ensures NoneOf(s, IsLineBreak) && t != [] ==> MultiLine(s + "\n" + t)
  {
    if NoneOf(s, IsLineBreak) && t != [] {
      var w := s + "\n" + t;
      assert w[|s|] == '\n';
      assert |s| < |w| - 1;
    }
  }

  /** `[p.strip() for p in ps if p.strip()]`: the stripped, non-empty pieces
      in their original order. */
  function CleanPieces(ps: seq<string>): (r: seq<string>)
    ensures |r| <= |ps|
    ensures forall k :: 0 <= k < |r| ==> r[k] != [] && IsStripped(r[k])
  {
    if ps == [] then []
    else
      var p := Strip(ps[0]);
      (if p == [] then [] else [p]) + CleanPieces(ps[1..])
  }

  /** Cleaning keeps out every character the pieces did not contain. */
  lemma {:induction false} CleanPiecesAvoid(ps: seq<string>, sep: char -> bool)
    requires forall k :: 0 <= k < |ps| ==> NoneOf(ps[k], sep)
    ensures forall k :: 0 <= k < |CleanPieces(ps)| ==> NoneOf(CleanPieces(ps)[k], sep)
  {
    if ps != [] {
      StripAvoids(ps[0], sep);
      CleanPiecesAvoid(ps[1..], sep);
    }
  }

  /** Pieces that are already stripped and non-empty are kept as they are. */
  lemma {:induction false} CleanPiecesOfClean(ps: seq<string>)
    requires forall k :: 0 <= k < |ps| ==> ps[k] != [] && IsStripped(ps[k])
    ensures CleanPieces(ps) == ps
  {
    if ps != [] {
      StripOfStripped(ps[0]);
      CleanPiecesOfClean(ps[1..]);
      assert CleanPieces(ps) == [ps[0]] + CleanPieces(ps[1..]);
      assert ps == [ps[0]] + ps[1..];
    }
  }

  /** Cleaning only looks at the stripped pieces. */
  lemma {:induction false} CleanPiecesStripEqual(ps: seq<string>, qs: seq<string>)
    requires |ps| == |qs|
    requires forall k :: 0 <= k < |ps| ==> Strip(ps[k]) == Strip(qs[k])
    ensures CleanPieces(ps) == CleanPieces(qs)
  {
    if ps != [] {
      CleanPiecesStripEqual(ps[1..], qs[1..]);
    }
  }

  // ---------------------------------------------------------------------------
  // Removing a character

  /** `s.replace(" ", "")`: every space goes, every other character stays, in order. */
  function RemoveSpaces(s: string): (r: string)
    ensures ' ' !in r
    ensures |r| <= |s|
  {
    if s == [] then [] else (if s[0] == ' ' then [] else [s[0]]) + RemoveSpaces(s[1..])
  }

  /** Removing spaces keeps every other character with its multiplicity. */
  lemma {:induction false} RemoveSpacesKeepsOthers(s: string, c: char)
    requires c != ' '
    ensures multiset(RemoveSpaces(s))[c] == multiset(s)[c]
  {
    if s != [] {
      RemoveSpacesKeepsOthers(s[1..], c);
      assert s == [s[0]] + s[1..];
    }
  }

  // ---------------------------------------------------------------------------
  // Decimal integers

  predicate IsDigit(c: char) {
    '0' <= c <= '9'
  }

  predicate AllDigits(s: string) {
    forall i :: 0 <= i < |s| ==> IsDigit(s[i])
  }

  function DigitChar(d: nat): (c: char)
    requires d < 10
    ensures IsDigit(c)
  {
    ('0' as int + d) as char
  }

  /** The decimal digits of `n`, most significant first, without leading zeros. */
  function Digits(n: nat): (s: string)
    ensures |s| >= 1 && AllDigits(s)
    ensures n > 0 ==> s[0] != '0'
  {
    if n < 10 then [DigitChar(n)] else Digits(n / 10) + [DigitChar(n % 10)]
  }

  /** The value of a string of decimal digits. */
  function DigitsValue(s: string): nat
    requires AllDigits(s)
  {
    if s == [] then 0 else 10 * DigitsValue(s[..|s| - 1]) + (s[|s| - 1] as int - '0' as int)
  }

  /** `str(n)` for a Python `int`. */
  function ShowInt(n: int): string {
    if n < 0 then "-" + Digits(-n) else Digits(n)
  }

  /** Integer text: an optional sign followed by at least one decimal digit.
      Anything else does not parse. */
  function ParseInt(s: string): Option<int> {
    if |s| >= 2 && s[0] == '-' && AllDigits(s[1..]) then Some(-(DigitsValue(s[1..]) as int))
    else if |s| >= 2 && s[0] == '+' && AllDigits(s[1..]) then Some(DigitsValue(s[1..]))
    else if |s| >= 1 && AllDigits(s) then Some(DigitsValue(s))
    else None
  }

  lemma {:induction false} DigitsValueOfDigits(n: nat)
    ensures DigitsValue(Digits(n)) == n
  {
    if n >= 10 {
      DigitsValueOfDigits(n / 10);
      var s := Digits(n);
      assert s[..|s| - 1] == Digits(n / 10);
    }
  }

  /** Rendering an integer in decimal and parsing it back gives the integer. */
  lemma ParseShowInt(n: int)
    ensures ParseInt(ShowInt(n)) == Some(n)
  {
    if n < 0 {
      DigitsValueOfDigits(-n);
      assert ShowInt(n)[1..] == Digits(-n);
    } else {
      DigitsValueOfDigits(n);
    }
  }
}
