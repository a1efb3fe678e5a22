/**
 * The few Python `str` built-ins the helpers rely on, on `seq<char>`:
 * `str.strip`, `str.lower`, `str(int)` and `int(...)` of a run of digits.
 */
module Text {

  /** The characters for which Python's `str.isspace()` holds; `str.strip()` removes these. */
  const PyWhitespace: set<char> := {
    '\t', '\n', '\U{000B}', '\U{000C}', '\r',
    '\U{001C}', '\U{001D}', '\U{001E}', '\U{001F}', ' ',
    '\U{0085}', '\U{00A0}', '\U{1680}',
    '\U{2000}', '\U{2001}', '\U{2002}', '\U{2003}', '\U{2004}', '\U{2005}',
    '\U{2006}', '\U{2007}', '\U{2008}', '\U{2009}', '\U{200A}',
    '\U{2028}', '\U{2029}', '\U{202F}', '\U{205F}', '\U{3000}'
  }

  predicate IsAsciiDigit(c: char) { '0' <= c <= '9' }

  predicate IsAsciiUpper(c: char) { 'A' <= c <= 'Z' }

  /** Every character of `s` is in `cs`. */
  predicate AllIn(s: string, cs: set<char>) {
    forall i :: 0 <= i < |s| ==> s[i] in cs
  }

  /** Removes the longest prefix of characters from `cs` (`str.lstrip(cs)`). */
  function StripLeft(s: string, cs: set<char>): (r: string)
    ensures |r| <= |s| && r == s[|s| - |r|..]
    ensures AllIn(s[..|s| - |r|], cs)
    ensures r == [] || r[0] !in cs
  {
    if s != [] && s[0] in cs then
      var r := StripLeft(s[1..], cs);
      assert s[..|s| - |r|] == [s[0]] + s[1..][..|s| - 1 - |r|];
      r
    else s
  }

  /** Removes the longest suffix of characters from `cs` (`str.rstrip(cs)`). */
  function StripRight(s: string, cs: set<char>): (r: string)
    ensures |r| <= |s| && r == s[..|r|]
    ensures AllIn(s[|r|..], cs)
    ensures r == [] || r[|r| - 1] !in cs
  {
    if s != [] && s[|s| - 1] in cs then
      var r := StripRight(s[..|s| - 1], cs);
      assert s[|r|..] == s[..|s| - 1][|r|..] + [s[|s| - 1]];
      r
    else s
  }

  /**
   * Python's `s.strip(cs)`: the slice of `s` left after removing characters
   * from `cs` at both ends.
   */
  function Strip(s: string, cs: set<char>): (r: string)
    ensures r == [] || (r[0] !in cs && r[|r| - 1] !in cs)
  {
    var l := StripLeft(s, cs);
    var r := StripRight(l, cs);
    assert r != [] ==> r[0] == l[0];
    r
  }

  /** `Strip` keeps a slice of `s` and removes only characters of `cs` around it. */
  lemma StripIsSlice(s: string, cs: set<char>)
    ensures exists i, j :: 0 <= i <= j <= |s| && Strip(s, cs) == s[i..j] && AllIn(s[..i], cs) && AllIn(s[j..], cs)
  {
    var l := StripLeft(s, cs);
    var r := StripRight(l, cs);
    var i, j := |s| - |l|, |s| - |l| + |r|;
    assert Strip(s, cs) == r == s[i..j];
    assert AllIn(s[..i], cs);
    assert s[j..] == l[|r|..];
    assert AllIn(s[j..], cs);
  }

  /** `s.strip()` with no argument: Python whitespace at both ends. */
  function StripSpace(s: string): string {
    Strip(s, PyWhitespace)
  }

  lemma {:induction false} StripLeftAppend(s: string, t: string, cs: set<char>)
    ensures StripLeft(s + t, cs) == if StripLeft(s, cs) == [] then StripLeft(t, cs) else StripLeft(s, cs) + t
  {
    if s != [] {
      assert (s + t)[1..] == s[1..] + t;
      if s[0] in cs {
        StripLeftAppend(s[1..], t, cs);
      }
    } else {
      assert s + t == t;
    }
  }

  lemma {:induction false} StripLeftAllIn(w: string, t: string, cs: set<char>)
    requires AllIn(w, cs)
    ensures StripLeft(w + t, cs) == StripLeft(t, cs)
  {
    if w != [] {
      assert (w + t)[1..] == w[1..] + t;
      StripLeftAllIn(w[1..], t, cs);
    } else {
      assert w + t == t;
    }
  }

  lemma {:induction false} StripRightAllIn(t: string, w: string, cs: set<char>)
    requires AllIn(w, cs)
    ensures StripRight(t + w, cs) == StripRight(t, cs)
  {
    if w != [] {
      assert (t + w)[..|t + w| - 1] == t + w[..|w| - 1];
      StripRightAllIn(t, w[..|w| - 1], cs);
    } else {
      assert t + w == t;
    }
  }

  /** Stripping from the right stops at the first kept character of `t` when `w` is not all stripped. */
  lemma {:induction false} StripRightAppend(t: string, w: string, cs: set<char>)
    requires t != [] && t[|t| - 1] !in cs
    ensures StripRight(t + w, cs) == t + StripRight(w, cs)
  {
    if w != [] {
      assert (t + w)[..|t + w| - 1] == t + w[..|w| - 1];
      if w[|w| - 1] in cs {
        StripRightAppend(t, w[..|w| - 1], cs);
      }
    } else {
      assert t + w == t;
    }
  }

  lemma Assoc(a: string, b: string, c: string)
    ensures a + b + c == a + (b + c)
  {
  }

  /** A string `k` that starts and ends with kept characters shields its start and whatever follows it up to the end's strip. */
  lemma StripAfterKept(k: string, y: string, cs: set<char>)
    requires k != [] && k[0] !in cs && k[|k| - 1] !in cs
    ensures Strip(k + y, cs) == k + StripRight(y, cs)
  {
    assert StripLeft(k + y, cs) == k + y;
    StripRightAppend(k, y, cs);
  }

  /** Characters of `cs` added at either end do not change `Strip`. */
  lemma StripPadded(w: string, s: string, w': string, cs: set<char>)
    requires AllIn(w, cs) && AllIn(w', cs)
    ensures Strip(w + s + w', cs) == Strip(s, cs)
  {
    assert w + s + w' == w + (s + w');
    StripLeftAllIn(w, s + w', cs);
    StripLeftAppend(s, w', cs);
    if StripLeft(s, cs) == [] {
      var e: string := [];
      assert e + w' == w';
      StripLeftAllIn(w', e, cs);
      assert w' + e == w';
    } else {
      StripRightAllIn(StripLeft(s, cs), w', cs);
    }
  }

  /** Python's ASCII case mapping of one character; other characters are kept. */
  function LowerChar(c: char): (r: char)
    ensures !IsAsciiUpper(r)
    ensures IsAsciiUpper(c) ==> r as int == c as int + 32
    ensures !IsAsciiUpper(c) ==> r == c
  {
    if IsAsciiUpper(c) then (c as int + 32) as char else c
  }

  /** `s.lower()`, on ASCII letters. */
  function Lower(s: string): (r: string)
    ensures |r| == |s|
    ensures forall i :: 0 <= i < |s| ==> r[i] == LowerChar(s[i])
  {
    seq(|s|, i requires 0 <= i < |s| => LowerChar(s[i]))
  }

  function DigitChar(d: nat): (c: char)
    requires d < 10
    ensures IsAsciiDigit(c) && c as int - '0' as int == d
  {
    ('0' as int + d) as char
  }

  /** `str(n)` for a non-negative integer: its decimal numeral, no leading zeros. */
  function NatToString(n: nat): (r: string)
    ensures r != [] && AllDigits(r)
    ensures |r| > 1 ==> r[0] != '0'
    decreases n
  {
    if n < 10 then [DigitChar(n)] else NatToString(n / 10) + [DigitChar(n % 10)]
  }

  /** `str(i)` for any integer: a minus sign before the numeral of a negative one. */
  function IntToString(i: int): (r: string)
    ensures r != [] && (r[0] == '-' <==> i < 0)
  {
    if i < 0 then "-" + NatToString(-i) else NatToString(i)
  }

  predicate AllDigits(s: string) {
    forall i :: 0 <= i < |s| ==> IsAsciiDigit(s[i])
  }

  /** `int(d)` for a run of ASCII digits. */
  function DigitsValue(d: string): (n: nat)
    requires AllDigits(d)
    ensures d == [] ==> n == 0
  {
    if d == [] then 0
    else DigitsValue(d[..|d| - 1]) * 10 + (d[|d| - 1] as int - '0' as int)
  }

  /** `int(str(n)) == n`. */
  lemma {:induction false} DigitsValueOfNatToString(n: nat)
    ensures DigitsValue(NatToString(n)) == n
    decreases n
  {
    var r := NatToString(n);
    if n >= 10 {
      DigitsValueOfNatToString(n / 10);
      assert r[..|r| - 1] == NatToString(n / 10);
    }
  }

  /** `int()` ignores a leading zero, so any number of them: `int("0" + d) == int(d)`. */
  lemma {:induction false} DigitsValueOfLeadingZero(d: string)
    requires AllDigits(d)
    ensures DigitsValue("0" + d) == DigitsValue(d)
  {
    if d != [] {
      var p := d[..|d| - 1];
      assert ("0" + d)[..|d|] == "0" + p;
      DigitsValueOfLeadingZero(p);
    }
  }

  /** The number of ASCII digits at the start of `s`. */
  function LeadingDigits(s: string): (k: nat)
    ensures k <= |s| && AllDigits(s[..k])
    ensures k < |s| ==> !IsAsciiDigit(s[k])
  {
    if s != [] && IsAsciiDigit(s[0]) then
      var k := 1 + LeadingDigits(s[1..]);
      assert s[..k] == [s[0]] + s[1..][..k - 1];
      k
    else 0
  }

  lemma {:induction false} LeadingDigitsAppend(d: string, t: string)
    requires AllDigits(d)
    requires t == [] || !IsAsciiDigit(t[0])
    ensures LeadingDigits(d + t) == |d|
  {
    if d != [] {
      assert (d + t)[1..] == d[1..] + t;
      LeadingDigitsAppend(d[1..], t);
    } else {
      assert d + t == t;
    }
  }
}
