/**
 * `SchemaVersion` of plugin/patcher.py: a `major.minor.patch` value, parsed
 * from the leading `major[.minor[.patch]]` of a string and ordered like the
 * tuple `(major, minor, patch)`.
 */
module Patcher {
  import opened Wrappers
  import opened Text

  /** The two `ValueError`s the class raises. */
  datatype Error =
    | NotComparable  // compared with something that is neither a SchemaVersion nor a str
    | NotAVersion    // a str whose stripped text does not start with a decimal digit

  /** The `operator` functions the six rich comparisons pass to `_compare_2`. */
  datatype Comparator = Eq | Ne | Lt | Le | Gt | Ge

  /** The right operand of a comparison, narrowed to the cases `_compare_2` tells apart. */
  datatype Operand = Version(v: SchemaVersion) | Str(s: string) | Other

  /**
   * Python's `<` on tuples of ints: the first position where they differ
   * decides; when one is a prefix of the other, the shorter is smaller.
   */
  function LexLess(a: seq<int>, b: seq<int>): bool {
    if a == [] then b != []
    else if b == [] then false
    else if a[0] != b[0] then a[0] < b[0]
    else LexLess(a[1..], b[1..])
  }

  /** `comparator(a, b)` for tuples `a` and `b`. */
  function ApplyToTuples(c: Comparator, a: seq<int>, b: seq<int>): bool {
    match c
    case Eq => a == b
    case Ne => a != b
    case Lt => LexLess(a, b)
    case Le => LexLess(a, b) || a == b
    case Gt => LexLess(b, a)
    case Ge => LexLess(b, a) || a == b
  }

  /** Version precedence, written out on the three components. */
  predicate Precedes(v: SchemaVersion, w: SchemaVersion) {
    || v.major < w.major
    || (v.major == w.major && v.minor < w.minor)
    || (v.major == w.major && v.minor == w.minor && v.patch < w.patch)
  }

  datatype SchemaVersion = SchemaVersion(major: int := 0, minor: int := 0, patch: int := 0) {

    /** The stored `v_tuple`. */
    function VTuple(): (t: seq<int>)
      ensures |t| == 3 && SchemaVersion(t[0], t[1], t[2]) == this
    {
      [major, minor, patch]
    }

    /** `str(self)`: the components joined with dots. */
    function ToString(): string {
      IntToString(major) + "." + IntToString(minor) + "." + IntToString(patch)
    }

    /** `_compare_2(other, comparator)`; a string is parsed and compared again. */
    function Compare2(other: Operand, c: Comparator): (r: Result<bool, Error>)
      ensures other.Version? ==> r.Ok?
      ensures other.Str? ==> (r.Err? <==> FromStr(other.s).Err?)
      ensures r.Err? ==> r.error == (if other.Other? then NotComparable else NotAVersion)
      ensures other.Other? ==> r.Err?
      decreases if other.Str? then 1 else 0
    {
      match other
      case Version(w) => Ok(ApplyToTuples(c, VTuple(), w.VTuple()))
      case Str(s) =>
        (match FromStr(s)
         case Ok(w) => Compare2(Version(w), c)
         case Err(e) => Err(e))
      case Other => Err(NotComparable)
    }

    function Equals(other: Operand): Result<bool, Error> { Compare2(other, Eq) }
    function NotEquals(other: Operand): Result<bool, Error> { Compare2(other, Ne) }
    function LessThan(other: Operand): Result<bool, Error> { Compare2(other, Lt) }
    function LessOrEqual(other: Operand): Result<bool, Error> { Compare2(other, Le) }
    function GreaterThan(other: Operand): Result<bool, Error> { Compare2(other, Gt) }
    function GreaterOrEqual(other: Operand): Result<bool, Error> { Compare2(other, Ge) }
  }

  /** A non-empty run of ASCII digits: what `\d+` matches. */
  predicate IsDigitRun(d: string) {
    d != [] && AllDigits(d)
  }

  /** `\.(\d+)` matched at the start of `s`: the digits' value and the text after them. */
  function DotComponent(s: string): (r: Option<(nat, string)>)
    ensures r.Some? <==> |s| >= 2 && s[0] == '.' && IsAsciiDigit(s[1])
    ensures r.Some? ==> |r.value.1| <= |s| - 2 && r.value.1 == s[|s| - |r.value.1|..]
    ensures r.Some? ==> r.value.1 == [] || !IsAsciiDigit(r.value.1[0])
    ensures r.Some? ==> var d := s[1..|s| - |r.value.1|];
      IsDigitRun(d) && r.value.0 == DigitsValue(d)
  {
    if |s| >= 2 && s[0] == '.' && IsAsciiDigit(s[1]) then
      var k := LeadingDigits(s[1..]);
      assert s[1..][..k] == s[1..1 + k];
      Some((DigitsValue(s[1..][..k]), s[1 + k..]))
    else None
  }

  /**
   * `SchemaVersion.from_str`: searches `^(\d+)(?:\.(\d+))?(?:\.(\d+))?` in the
   * stripped string.
   */
  function FromStr(s: string): (r: Result<SchemaVersion, Error>)
    ensures r.Err? <==> StripSpace(s) == [] || !IsAsciiDigit(StripSpace(s)[0])
    ensures r.Err? ==> r.error == NotAVersion
    ensures r.Ok? ==> r.value.major >= 0 && r.value.minor >= 0 && r.value.patch >= 0
  {
    var t := StripSpace(s);
    var n := LeadingDigits(t);
    if n == 0 then Err(NotAVersion)
    else Ok(WithOptionalParts(DigitsValue(t[..n]), t[n..]))
  }

  /**
   * The version read after the major group: the optional minor and patch
   * groups, each 0 when absent (`int(m.group(i) or "0")`).
   */
  function WithOptionalParts(major: nat, rest: string): (v: SchemaVersion)
    ensures v.major == major && v.minor >= 0 && v.patch >= 0
    ensures !(|rest| >= 2 && rest[0] == '.' && IsAsciiDigit(rest[1])) ==> v.minor == 0 && v.patch == 0
  {
    var minorGroup := DotComponent(rest);
    var (minor, rest') := if minorGroup.Some? then minorGroup.value else (0, rest);
    var patchGroup := DotComponent(rest');
    var patch := if patchGroup.Some? then patchGroup.value.0 else 0;
    SchemaVersion(major, minor, patch)
  }

  // ---------------------------------------------------------------------------
  // Ordering
  // ---------------------------------------------------------------------------

  lemma {:induction false} LexLessIrreflexive(a: seq<int>)
    ensures !LexLess(a, a)
  {
    if a != [] {
      LexLessIrreflexive(a[1..]);
    }
  }

  lemma {:induction false} LexLessTransitive(a: seq<int>, b: seq<int>, c: seq<int>)
    requires LexLess(a, b) && LexLess(b, c)
    ensures LexLess(a, c)
  {
    if a != [] && b != [] && c != [] && a[0] == b[0] && b[0] == c[0] {
      LexLessTransitive(a[1..], b[1..], c[1..]);
    }
  }

  /** Exactly one of `a < b`, `a == b`, `b < a` holds for tuples. */
  lemma {:induction false} LexLessTrichotomy(a: seq<int>, b: seq<int>)
    ensures LexLess(a, b) || a == b || LexLess(b, a)
    ensures !(LexLess(a, b) && LexLess(b, a))
    ensures a == b ==> !LexLess(a, b)
  {
    if a != [] && b != [] && a[0] == b[0] {
      LexLessTrichotomy(a[1..], b[1..]);
      if a[1..] == b[1..] {
        assert a == [a[0]] + a[1..] && b == [b[0]] + b[1..];
      }
    }
    if a == b {
      LexLessIrreflexive(a);
    }
  }

  /** Tuple order on `v_tuple` is precedence on the components. */
  lemma LexLessOfVersions(v: SchemaVersion, w: SchemaVersion)
    ensures LexLess(v.VTuple(), w.VTuple()) <==> Precedes(v, w)
  {
    var a, b := v.VTuple(), w.VTuple();
    assert a[1..] == [v.minor, v.patch] && b[1..] == [w.minor, w.patch];
    assert a[1..][1..] == [v.patch] && b[1..][1..] == [w.patch];
    assert a[1..][1..][1..] == [] && b[1..][1..][1..] == [];
    if v.major == w.major {
      assert LexLess(a, b) == LexLess(a[1..], b[1..]);
      if v.minor == w.minor {
        assert LexLess(a[1..], b[1..]) == LexLess(a[1..][1..], b[1..][1..]);
        if v.patch == w.patch {
          assert LexLess(a[1..][1..], b[1..][1..]) == LexLess(a[1..][1..][1..], b[1..][1..][1..]);
        }
      }
    }
  }

  /** Comparing two versions: `==` is equality of the value, `<` is precedence, and the rest follow. */
  lemma CompareVersions(v: SchemaVersion, w: SchemaVersion)
    ensures v.Equals(Version(w)) == Ok(v == w)
    ensures v.NotEquals(Version(w)) == Ok(v != w)
    ensures v.LessThan(Version(w)) == Ok(Precedes(v, w))
    ensures v.LessOrEqual(Version(w)) == Ok(Precedes(v, w) || v == w)
    ensures v.GreaterThan(Version(w)) == Ok(Precedes(w, v))
    ensures v.GreaterOrEqual(Version(w)) == Ok(Precedes(w, v) || v == w)
  {
    LexLessOfVersions(v, w);
    LexLessOfVersions(w, v);
    assert v.VTuple() == w.VTuple() ==> v == w by {
      if v.VTuple() == w.VTuple() {
        assert v.VTuple()[0] == w.VTuple()[0];
        assert v.VTuple()[1] == w.VTuple()[1];
        assert v.VTuple()[2] == w.VTuple()[2];
      }
    }
  }

  /** Precedence is a strict total order. */
  lemma PrecedesIsStrictTotalOrder(u: SchemaVersion, v: SchemaVersion, w: SchemaVersion)
    ensures !Precedes(v, v)
    ensures Precedes(u, v) && Precedes(v, w) ==> Precedes(u, w)
    ensures Precedes(v, w) || v == w || Precedes(w, v)
    ensures !(Precedes(v, w) && Precedes(w, v))
  {
    LexLessOfVersions(v, v);
    LexLessIrreflexive(v.VTuple());
    LexLessOfVersions(u, v);
    LexLessOfVersions(v, w);
    LexLessOfVersions(u, w);
    LexLessOfVersions(w, v);
    if Precedes(u, v) && Precedes(v, w) {
      LexLessTransitive(u.VTuple(), v.VTuple(), w.VTuple());
    }
    LexLessTrichotomy(v.VTuple(), w.VTuple());
    CompareVersions(v, w);
  }

  /** For two versions exactly one of `<`, `==`, `>` is true, and `!=` negates `==`. */
  lemma ExactlyOneHolds(v: SchemaVersion, w: SchemaVersion)
    ensures v.LessThan(Version(w)).Ok? && v.Equals(Version(w)).Ok? && v.GreaterThan(Version(w)).Ok?
    ensures var lt, eq, gt := v.LessThan(Version(w)).value, v.Equals(Version(w)).value, v.GreaterThan(Version(w)).value;
      (lt || eq || gt) && !(lt && eq) && !(lt && gt) && !(eq && gt)
    ensures v.NotEquals(Version(w)).value == !v.Equals(Version(w)).value
  {
    CompareVersions(v, w);
    PrecedesIsStrictTotalOrder(v, v, w);
    PrecedesIsStrictTotalOrder(w, w, w);
  }

  /** A string operand is parsed first: the result is that of comparing with `from_str` of it, or its error. */
  lemma CompareWithString(v: SchemaVersion, s: string, c: Comparator)
    ensures FromStr(s).Ok? ==> v.Compare2(Str(s), c) == v.Compare2(Version(FromStr(s).value), c)
    ensures FromStr(s).Err? ==> v.Compare2(Str(s), c) == Err(NotAVersion)
    ensures v.Compare2(Str(s), c).Err? <==> StripSpace(s) == [] || !IsAsciiDigit(StripSpace(s)[0])
  {
  }

  /** Any other operand raises. */
  lemma CompareWithOther(v: SchemaVersion, c: Comparator)
    ensures v.Compare2(Other, c) == Err(NotComparable)
  {
  }

  /** `SchemaVersion()` is 0.0.0. */
  lemma DefaultIsZero()
    ensures SchemaVersion() == SchemaVersion(0, 0, 0)
    ensures SchemaVersion().ToString() == "0.0.0"
  {
  }

  // ---------------------------------------------------------------------------
  // Parsing
  // ---------------------------------------------------------------------------

  lemma DigitIsNotSpace(c: char)
    requires IsAsciiDigit(c)
    ensures c !in PyWhitespace
  {
  }

  /** What remains of `x` after stripping its end starts as `x` does. */
  lemma StripRightKeepsStart(x: string)
    ensures var x' := StripRight(x, PyWhitespace);
      |x'| <= |x| && (x' == [] || x'[0] == x[0]) && (|x'| >= 2 ==> x'[1] == x[1])
  {
    var x' := StripRight(x, PyWhitespace);
    assert x' == x[..|x'|];
  }

  /**
   * Stripping a numeral `A`, a `tail` ending in a non-space and then `x`
   * trims only the end of `x`.
   */
  lemma StripAfterVersionText(A: string, tail: string, x: string)
    requires A != [] && AllDigits(A)
    requires tail == [] || !(tail[|tail| - 1] in PyWhitespace)
    ensures StripSpace(A + (tail + x)) == A + (tail + StripRight(x, PyWhitespace))
  {
    DigitIsNotSpace(A[0]);
    DigitIsNotSpace(A[|A| - 1]);
    StripAfterKept(A, tail + x, PyWhitespace);
    if tail == [] {
      assert tail + x == x && tail + StripRight(x, PyWhitespace) == StripRight(x, PyWhitespace);
    } else {
      StripRightAppend(tail, x, PyWhitespace);
    }
  }

  /** A digit run and text not continuing it: `\d+` takes exactly the run. */
  lemma DigitsThenText(d: string, x: string)
    requires IsDigitRun(d)
    requires x == [] || !IsAsciiDigit(x[0])
    ensures LeadingDigits(d + x) == |d|
    ensures (d + x)[..|d|] == d && (d + x)[|d|..] == x
  {
    LeadingDigitsAppend(d, x);
  }

  /** `\.(\d+)` on a dot, a digit run and text not continuing it yields `int()` of the run and that text. */
  lemma DotComponentOfDigits(d: string, x: string)
    requires IsDigitRun(d)
    requires x == [] || !IsAsciiDigit(x[0])
    ensures DotComponent("." + d + x) == Some((DigitsValue(d), x))
  {
    var s := "." + d + x;
    assert s[0] == '.' && s[1] == d[0];
    assert s[1..] == d + x;
    DigitsThenText(d, x);
    assert s[1..][..|d|] == d && s[1 + |d|..] == x;
  }

  /** Once the stripped text is a digit run and text not continuing it, the rest is read by `WithOptionalParts`. */
  lemma FromStrOfDigits(s: string, a: string, rest: string, v: SchemaVersion)
    requires IsDigitRun(a)
    requires StripSpace(s) == a + rest
    requires rest == [] || !IsAsciiDigit(rest[0])
    requires WithOptionalParts(DigitsValue(a), rest) == v
    ensures FromStr(s) == Ok(v)
  {
    DigitsThenText(a, rest);
  }

  lemma PartsAfterMajor(a: nat, x: string)
    requires x == [] || !IsAsciiDigit(x[0])
    requires !(|x| >= 2 && x[0] == '.' && IsAsciiDigit(x[1]))
    ensures var x' := StripRight(x, PyWhitespace);
      (x' == [] || !IsAsciiDigit(x'[0])) && WithOptionalParts(a, x') == SchemaVersion(a, 0, 0)
  {
    var x' := StripRight(x, PyWhitespace);
    StripRightKeepsStart(x);
    assert DotComponent(x') == None;
  }

  lemma PartsAfterMinor(a: nat, b: string, x: string)
    requires IsDigitRun(b)
    requires x == [] || !IsAsciiDigit(x[0])
    requires !(|x| >= 2 && x[0] == '.' && IsAsciiDigit(x[1]))
    ensures WithOptionalParts(a, "." + b + StripRight(x, PyWhitespace)) == SchemaVersion(a, DigitsValue(b), 0)
  {
    var x' := StripRight(x, PyWhitespace);
    StripRightKeepsStart(x);
    DotComponentOfDigits(b, x');
    assert DotComponent(x') == None;
  }

  lemma PartsAfterPatch(a: nat, b: string, c: string, x: string)
    requires IsDigitRun(b) && IsDigitRun(c)
    requires x == [] || !IsAsciiDigit(x[0])
    ensures var x' := StripRight(x, PyWhitespace);
      WithOptionalParts(a, "." + b + ("." + c + x')) == SchemaVersion(a, DigitsValue(b), DigitsValue(c))
  {
    var x' := StripRight(x, PyWhitespace);
    StripRightKeepsStart(x);
    DotComponentOfDigits(b, "." + c + x');
    DotComponentOfDigits(c, x');
  }

  lemma StripMajorMinor(A: string, B: string, x: string)
    requires IsDigitRun(A) && IsDigitRun(B)
    ensures StripSpace(A + "." + B + x) == A + ("." + B + StripRight(x, PyWhitespace))
  {
    DigitIsNotSpace(B[|B| - 1]);
    Assoc(A + ".", B, x);
    Assoc(A, ".", B + x);
    Assoc(".", B, x);
    StripAfterVersionText(A, "." + B, x);
  }

  lemma ToStringOfNatural(v: SchemaVersion)
    requires v.major >= 0 && v.minor >= 0 && v.patch >= 0
    ensures v.ToString() == NatToString(v.major) + "." + NatToString(v.minor) + "." + NatToString(v.patch)
  {
  }

  lemma StripThreeNumerals(A: string, B: string, C: string, x: string)
    requires IsDigitRun(A) && IsDigitRun(C)
    ensures StripSpace(A + "." + B + "." + C + x) == A + ("." + B + ("." + C + StripRight(x, PyWhitespace)))
  {
    var x' := StripRight(x, PyWhitespace);
    DigitIsNotSpace(C[|C| - 1]);
    var tail := "." + B + "." + C;
    assert A + "." + B + "." + C + x == A + (tail + x) by {
      Assoc(A + "." + B + ".", C, x);
      Assoc(A + "." + B, ".", C + x);
      Assoc(A + ".", B, "." + (C + x));
      Assoc(A, ".", B + ("." + (C + x)));
      Assoc("." + B + ".", C, x);
      Assoc("." + B, ".", C + x);
      Assoc(".", B, "." + (C + x));
    }
    StripAfterVersionText(A, tail, x);
    assert tail + x' == "." + B + ("." + C + x') by {
      Assoc("." + B + ".", C, x');
      Assoc("." + B, ".", C + x');
      Assoc(".", C, x');
    }
  }

  /**
   * A run of digits followed by text that starts neither with a digit nor
   * with a dot and a digit parses as `int(run).0.0`; leading zeros are
   * accepted, as `int()` accepts them.
   */
  lemma FromStrMajorOnly(A: string, x: string)
    requires IsDigitRun(A)
    requires x == [] || !IsAsciiDigit(x[0])
    requires !(|x| >= 2 && x[0] == '.' && IsAsciiDigit(x[1]))
    ensures FromStr(A + x) == Ok(SchemaVersion(DigitsValue(A), 0, 0))
  {
    var e, x' := "", StripRight(x, PyWhitespace);
    assert StripSpace(A + x) == A + x' by {
      assert A + x == A + (e + x) && e + x' == x';
      StripAfterVersionText(A, e, x);
    }
    PartsAfterMajor(DigitsValue(A), x);
    FromStrOfDigits(A + x, A, x', SchemaVersion(DigitsValue(A), 0, 0));
  }

  /** `A.B`, two digit runs, followed by text that starts neither with a digit nor with a dot and a digit parses as `int(A).int(B).0`. */
  lemma FromStrMajorMinor(A: string, B: string, x: string)
    requires IsDigitRun(A) && IsDigitRun(B)
    requires x == [] || !IsAsciiDigit(x[0])
    requires !(|x| >= 2 && x[0] == '.' && IsAsciiDigit(x[1]))
    ensures FromStr(A + "." + B + x) == Ok(SchemaVersion(DigitsValue(A), DigitsValue(B), 0))
  {
    StripMajorMinor(A, B, x);
    PartsAfterMinor(DigitsValue(A), B, x);
    FromStrOfDigits(A + "." + B + x, A, "." + B + StripRight(x, PyWhitespace),
                    SchemaVersion(DigitsValue(A), DigitsValue(B), 0));
  }

  /** `A.B.C`, three digit runs, followed by text that does not continue `C` parses as `int(A).int(B).int(C)`. */
  lemma FromStrMajorMinorPatch(A: string, B: string, C: string, x: string)
    requires IsDigitRun(A) && IsDigitRun(B) && IsDigitRun(C)
    requires x == [] || !IsAsciiDigit(x[0])
    ensures FromStr(A + "." + B + "." + C + x) == Ok(SchemaVersion(DigitsValue(A), DigitsValue(B), DigitsValue(C)))
  {
    var v := SchemaVersion(DigitsValue(A), DigitsValue(B), DigitsValue(C));
    StripThreeNumerals(A, B, C, x);
    PartsAfterPatch(v.major, B, C, x);
    FromStrOfDigits(A + "." + B + "." + C + x, A, "." + B + ("." + C + StripRight(x, PyWhitespace)), v);
  }

  /**
   * The numeral of a non-negative version followed by any text that does not
   * continue its last number parses back to that version: the match is
   * anchored only at the start.
   */
  lemma FromStrOfToStringThen(v: SchemaVersion, x: string)
    requires v.major >= 0 && v.minor >= 0 && v.patch >= 0
    requires x == [] || !IsAsciiDigit(x[0])
    ensures FromStr(v.ToString() + x) == Ok(v)
  {
    ToStringOfNatural(v);
    DigitsValueOfNatToString(v.major);
    DigitsValueOfNatToString(v.minor);
    DigitsValueOfNatToString(v.patch);
    FromStrMajorMinorPatch(NatToString(v.major), NatToString(v.minor), NatToString(v.patch), x);
  }

  /** `from_str(str(v)) == v` for a version with non-negative components. */
  lemma RoundTrip(v: SchemaVersion)
    requires v.major >= 0 && v.minor >= 0 && v.patch >= 0
    ensures FromStr(v.ToString()) == Ok(v)
  {
    assert v.ToString() + "" == v.ToString();
    FromStrOfToStringThen(v, "");
  }

  /** Parsing is canonical: printing a parsed version and parsing it again gives the same version. */
  lemma ParsedVersionRoundTrip(s: string)
    requires FromStr(s).Ok?
    ensures FromStr(FromStr(s).value.ToString()) == FromStr(s)
  {
    RoundTrip(FromStr(s).value);
  }

  /** Whitespace around the text is ignored. */
  lemma FromStrIgnoresPadding(w: string, s: string, w': string)
    requires AllIn(w, PyWhitespace) && AllIn(w', PyWhitespace)
    ensures FromStr(w + s + w') == FromStr(s)
  {
    StripPadded(w, s, w', PyWhitespace);
  }

  /** Missing minor and patch parts default to 0: `"a"`, `"a.0"` and `"a.0.0"` read as the same version. */
  lemma MissingPartsDefaultToZero(a: nat)
    ensures FromStr(NatToString(a)) == Ok(SchemaVersion(a, 0, 0))
    ensures FromStr(NatToString(a) + ".0") == Ok(SchemaVersion(a, 0, 0))
    ensures FromStr(NatToString(a) + ".0.0") == Ok(SchemaVersion(a, 0, 0))
  {
    MajorOnlyText(a);
    MajorMinorText(a);
    MajorMinorPatchText(a);
  }

  lemma MajorOnlyText(a: nat)
    ensures FromStr(NatToString(a)) == Ok(SchemaVersion(a, 0, 0))
  {
    var e: string := [];
    assert NatToString(a) + e == NatToString(a);
    DigitsValueOfNatToString(a);
    FromStrMajorOnly(NatToString(a), e);
  }

  lemma MajorMinorText(a: nat)
    ensures FromStr(NatToString(a) + ".0") == Ok(SchemaVersion(a, 0, 0))
  {
    var e: string := [];
    assert NatToString(0) == "0";
    OneZeroPart(NatToString(a));
    DigitsValueOfNatToString(a);
    assert DigitsValue("0") == 0;
    FromStrMajorMinor(NatToString(a), "0", e);
  }

  lemma OneZeroPart(A: string)
    ensures A + "." + "0" + [] == A + ".0"
  {
    Assoc(A, ".", "0");
  }

  lemma MajorMinorPatchText(a: nat)
    ensures FromStr(NatToString(a) + ".0.0") == Ok(SchemaVersion(a, 0, 0))
  {
    assert NatToString(0) == "0";
    ToStringOfNatural(SchemaVersion(a, 0, 0));
    TwoZeroParts(NatToString(a));
    RoundTrip(SchemaVersion(a, 0, 0));
  }

  lemma TwoZeroParts(A: string)
    ensures A + "." + "0" + "." + "0" == A + ".0.0"
  {
    Assoc(A + "." + "0", ".", "0");
    Assoc(A + ".", "0", "." + "0");
    Assoc(A, ".", "0" + ("." + "0"));
    assert ".0.0" == "." + ("0" + ("." + "0"));
  }

  /** Hence `SchemaVersion(a) == "a"`, `== "a.0"` and `== "a.0.0"` all hold. */
  lemma ShortFormsCompareEqual(a: nat)
    ensures SchemaVersion(a).Equals(Str(NatToString(a))) == Ok(true)
    ensures SchemaVersion(a).Equals(Str(NatToString(a) + ".0")) == Ok(true)
    ensures SchemaVersion(a).Equals(Str(NatToString(a) + ".0.0")) == Ok(true)
  {
    MissingPartsDefaultToZero(a);
    CompareVersions(SchemaVersion(a, 0, 0), SchemaVersion(a, 0, 0));
  }

  /** A pre-release suffix after the patch number is ignored. */
  lemma ExamplePreRelease(s: string)
    requires s == "1.2.3-rc1"
    ensures FromStr(s) == Ok(SchemaVersion(1, 2, 3))
  {
    var v := SchemaVersion(1, 2, 3);
    assert v.ToString() + "-rc1" == s by {
      assert NatToString(1) == "1" && NatToString(2) == "2" && NatToString(3) == "3";
    }
    FromStrOfToStringThen(v, "-rc1");
  }

  /** A fourth number is ignored. */
  lemma ExampleFourParts(s: string)
    requires s == "1.2.3.9"
    ensures FromStr(s) == Ok(SchemaVersion(1, 2, 3))
  {
    var v := SchemaVersion(1, 2, 3);
    assert v.ToString() + ".9" == s by {
      assert NatToString(1) == "1" && NatToString(2) == "2" && NatToString(3) == "3";
    }
    FromStrOfToStringThen(v, ".9");
  }

  /** An empty minor part ends the match: `"1..2"` is 1.0.0. */
  lemma ExampleEmptyMinor(s: string)
    requires s == "1..2"
    ensures FromStr(s) == Ok(SchemaVersion(1, 0, 0))
  {
    assert s == "1" + "..2";
    assert DigitsValue("1") == 1;
    FromStrMajorOnly("1", "..2");
  }

  /** A line ending after the version is not part of it. */
  lemma ExampleTrailingNewline(t: string)
    requires t == "2.0\n"
    ensures FromStr(t) == Ok(SchemaVersion(2, 0, 0))
  {
    assert t == "2" + "." + "0" + "\n";
    assert DigitsValue("2") == 2 && DigitsValue("0") == 0;
    FromStrMajorMinor("2", "0", "\n");
  }

  /** A zero put before a version's first digit changes nothing: `int()` accepts leading zeros. */
  lemma FromStrIgnoresLeadingZero(t: string)
    requires t != [] && IsAsciiDigit(t[0])
    ensures FromStr("0" + t) == FromStr(t)
  {
    StripLeadingZero(t);
    var w := StripSpace(t);
    LeadingZeroOfDigits(w);
    var k := LeadingDigits(w);
    DigitsValueOfLeadingZero(w[..k]);
  }

  lemma StripLeadingZero(t: string)
    requires t != [] && IsAsciiDigit(t[0])
    ensures StripSpace("0" + t) == "0" + StripSpace(t)
    ensures StripSpace(t) != [] && IsAsciiDigit(StripSpace(t)[0])
  {
    var c, y := [t[0]], t[1..];
    DigitIsNotSpace(t[0]);
    DigitIsNotSpace('0');
    assert t == c + y && "0" + t == ("0" + c) + y;
    StripAfterKept(c, y, PyWhitespace);
    StripAfterKept("0" + c, y, PyWhitespace);
    Assoc("0", c, StripRight(y, PyWhitespace));
  }

  lemma LeadingZeroOfDigits(w: string)
    requires w != [] && IsAsciiDigit(w[0])
    ensures var k := LeadingDigits(w);
      && LeadingDigits("0" + w) == k + 1
      && ("0" + w)[..k + 1] == "0" + w[..k] && ("0" + w)[k + 1..] == w[k..]
  {
    var k := LeadingDigits(w);
    assert w == w[..k] + w[k..];
    DigitBeforeRun("0", w[..k], w[k..]);
  }

  lemma DigitBeforeRun(z: string, D: string, R: string)
    requires |z| == 1 && IsAsciiDigit(z[0]) && AllDigits(D)
    requires R == [] || !IsAsciiDigit(R[0])
    ensures LeadingDigits(z + (D + R)) == |D| + 1
    ensures (z + (D + R))[..|D| + 1] == z + D && (z + (D + R))[|D| + 1..] == R
  {
    Assoc(z, D, R);
    assert AllDigits(z + D);
    LeadingDigitsAppend(z + D, R);
  }

  /** Leading zeros in any part: `"01.02"` is 1.2.0. */
  lemma ExampleLeadingZeros(s: string)
    requires s == "01.02"
    ensures FromStr(s) == Ok(SchemaVersion(1, 2, 0))
  {
    assert s == "01" + "." + "02" + [];
    assert DigitsValue("01") == 1 && DigitsValue("02") == 2;
    FromStrMajorMinor("01", "02", []);
  }

  /** Text that does not start with a digit once stripped is rejected with `NotAVersion`. */
  lemma ExampleRejected(s: string, e: string)
    requires s == "v1.2" && e == ""
    ensures FromStr(s) == Err(NotAVersion)
    ensures FromStr(e) == Err(NotAVersion)
  {
    LetterFirstRejected(s);
    EmptyRejected(e);
  }

  lemma LetterFirstRejected(s: string)
    requires s == "v1.2"
    ensures FromStr(s) == Err(NotAVersion)
  {
    var k, y := s[..1], s[1..];
    assert k == "v" && s == k + y;
    assert k[0] !in PyWhitespace;
    StripAfterKept(k, y, PyWhitespace);
    assert StripSpace(s)[0] == 'v';
  }

  lemma EmptyRejected(e: string)
    requires e == ""
    ensures FromStr(e) == Err(NotAVersion)
  {
    assert StripLeft(e, PyWhitespace) == [];
    assert StripSpace(e) == [];
  }

  /** Text made only of whitespace is rejected with `NotAVersion`. */
  lemma ExampleBlank(s: string)
    requires s == " \t "
    ensures FromStr(s) == Err(NotAVersion)
  {
    assert StripSpace(s) == [] by {
      var e := "";
      assert AllIn(s, PyWhitespace);
      assert s + e + e == s;
      StripPadded(s, e, e, PyWhitespace);
    }
  }
}
