/**
 * `get_command_name` of plugin/utils.py: the editor command name of a
 * command class, e.g. `LspIntelephensePatcherPatchCommand` becomes
 * `lsp_intelephense_patcher_patch`.
 */
module Utils {
  import opened Text

  /** A Python class, seen only through its `__name__`. */
  datatype PyClass = PyClass(name: string)

  /** The argument of `get_command_name`: a class or a string. */
  datatype CommandSource = ClassArg(cls: PyClass) | StrArg(s: string)

  /** `var.__name__ if isinstance(var, type) else str(var)`. */
  function NameOf(src: CommandSource): string {
    match src
    case ClassArg(cls) => cls.name
    case StrArg(s) => s
  }

  predicate EndsWith(s: string, suffix: string) {
    |suffix| <= |s| && s[|s| - |suffix|..] == suffix
  }

  predicate NoUpper(s: string) {
    forall i :: 0 <= i < |s| ==> !IsAsciiUpper(s[i])
  }

  predicate NoDoubleUnderscore(s: string) {
    forall i :: 0 <= i < |s| - 1 ==> !(s[i] == '_' && s[i + 1] == '_')
  }

  /** Every ASCII capital has an underscore right before it. */
  predicate CapitalsSeparated(s: string) {
    forall i :: 0 <= i < |s| && IsAsciiUpper(s[i]) ==> i > 0 && s[i - 1] == '_'
  }

  /** The shape of every command name: lower case, single underscores, none at either end. */
  predicate IsCommandName(s: string) {
    && NoUpper(s)
    && NoDoubleUnderscore(s)
    && (s == [] || (s[0] != '_' && s[|s| - 1] != '_'))
  }

  /**
   * `re.sub(r"Command$", "", name)`. Python's `$` matches at the very end
   * and also just before a newline that ends the string, so a final
   * `"Command\n"` loses its `"Command"` and keeps the newline.
   */
  function StripCommandSuffix(s: string): (r: string)
    ensures EndsWith(s, "Command") ==> r + "Command" == s
    ensures !EndsWith(s, "Command") && EndsWith(s, "Command\n") ==> r != [] && r[..|r| - 1] + "Command\n" == s && r[|r| - 1] == '\n'
    ensures !EndsWith(s, "Command") && !EndsWith(s, "Command\n") ==> r == s
  {
    if EndsWith(s, "Command") then s[..|s| - 7]
    else if EndsWith(s, "Command\n") then s[..|s| - 8] + "\n"
    else s
  }

  /** `re.sub(r"([A-Z])", r"_\1", name)`: an underscore before every ASCII capital. */
  function PrefixCapitals(s: string): (r: string)
    ensures CapitalsSeparated(r)
    ensures s == [] <==> r == []
    ensures s != [] ==> r[0] == (if IsAsciiUpper(s[0]) then '_' else s[0])
  {
    if s == [] then []
    else
      var rest := PrefixCapitals(s[1..]);
      (if IsAsciiUpper(s[0]) then ['_', s[0]] else [s[0]]) + rest
  }

  /** `re.sub(r"_{2,}", "_", name)`: every run of underscores becomes one. */
  function CollapseUnderscores(s: string): (r: string)
    ensures NoDoubleUnderscore(r)
    ensures |r| <= |s| && (r == [] <==> s == [])
    ensures r != [] ==> r[0] == s[0] && r[|r| - 1] == s[|s| - 1]
  {
    if |s| <= 1 then s
    else if s[0] == '_' && s[1] == '_' then CollapseUnderscores(s[1..])
    else
      var rest := CollapseUnderscores(s[1..]);
      [s[0]] + rest
  }

  /** The four rewrites of `get_command_name`, applied to a name. */
  function CommandNameOf(name: string): (r: string)
    ensures IsCommandName(r)
  {
    var t := CollapseUnderscores(PrefixCapitals(StripCommandSuffix(name)));
    var u := Strip(t, {'_'});
    StripKeepsNoDouble(t);
    LowerKeepsShape(u);
    Lower(u)
  }

  /** `get_command_name(var)`. */
  function GetCommandName(src: CommandSource): (r: string)
    ensures IsCommandName(r)
  {
    CommandNameOf(NameOf(src))
  }

  lemma NoDoubleInSlice(t: string, i: nat, j: nat)
    requires NoDoubleUnderscore(t) && i <= j <= |t|
    ensures NoDoubleUnderscore(t[i..j])
  {
    var r := t[i..j];
    forall k | 0 <= k < |r| - 1
      ensures !(r[k] == '_' && r[k + 1] == '_')
    {
      assert r[k] == t[i + k] && r[k + 1] == t[i + k + 1];
    }
  }

  /** Stripping underscores from a string without doubled underscores leaves none doubled. */
  lemma StripKeepsNoDouble(t: string)
    requires NoDoubleUnderscore(t)
    ensures NoDoubleUnderscore(Strip(t, {'_'}))
  {
    var l := StripLeft(t, {'_'});
    var r := StripRight(l, {'_'});
    NoDoubleInSlice(t, |t| - |l|, |t|);
    NoDoubleInSlice(l, 0, |r|);
  }

  /** Lowering ASCII letters keeps underscores where they are and removes every capital. */
  lemma LowerKeepsShape(u: string)
    requires NoDoubleUnderscore(u)
    requires u == [] || (u[0] != '_' && u[|u| - 1] != '_')
    ensures IsCommandName(Lower(u))
  {
    var r := Lower(u);
    forall k | 0 <= k < |r| - 1
      ensures !(r[k] == '_' && r[k + 1] == '_')
    {
      assert r[k] == LowerChar(u[k]) && r[k + 1] == LowerChar(u[k + 1]);
    }
  }

  // ---------------------------------------------------------------------------
  // Words: the reference description of the output
  // ---------------------------------------------------------------------------

  /** The maximal runs of non-underscore characters of `s`, in order. */
  function Words(s: string): (ws: seq<string>)
    ensures forall k :: 0 <= k < |ws| ==> ws[k] != [] && '_' !in ws[k]
    ensures s != [] && s[0] != '_' ==> ws != [] && ws[0][0] == s[0]
  {
    if s == [] then []
    else if s[0] == '_' then Words(s[1..])
    else
      var rest := Words(s[1..]);
      if |s| > 1 && s[1] != '_' then [[s[0]] + rest[0]] + rest[1..]
      else [[s[0]]] + rest
  }

  /**
   * The words of a class name: split at underscores, which are dropped,
   * and before every ASCII capital, which begins a new word.
   */
  function Segments(s: string): (ws: seq<string>)
    ensures forall k :: 0 <= k < |ws| ==> ws[k] != [] && '_' !in ws[k]
    ensures forall k, j :: 0 <= k < |ws| && 0 < j < |ws[k]| ==> !IsAsciiUpper(ws[k][j])
    ensures s != [] && s[0] != '_' ==> ws != [] && ws[0][0] == s[0]
  {
    if s == [] then []
    else if s[0] == '_' then Segments(s[1..])
    else
      var rest := Segments(s[1..]);
      if |s| > 1 && s[1] != '_' && !IsAsciiUpper(s[1]) then [[s[0]] + rest[0]] + rest[1..]
      else [[s[0]]] + rest
  }

  /** `sep.join(ws)`. */
  function JoinWith(ws: seq<string>, sep: char): string {
    if |ws| == 0 then []
    else if |ws| == 1 then ws[0]
    else ws[0] + [sep] + JoinWith(ws[1..], sep)
  }

  /** Collapsing underscore runs does not change the words. */
  lemma {:induction false} WordsOfCollapse(s: string)
    ensures Words(CollapseUnderscores(s)) == Words(s)
  {
    if |s| > 1 {
      WordsOfCollapse(s[1..]);
      if !(s[0] == '_' && s[1] == '_') {
        var c := CollapseUnderscores(s);
        assert c[1..] == CollapseUnderscores(s[1..]);
      }
    }
  }

  lemma {:induction false} WordsOfStripLeft(s: string)
    ensures Words(StripLeft(s, {'_'})) == Words(s)
  {
    if s != [] && s[0] == '_' {
      WordsOfStripLeft(s[1..]);
    }
  }

  lemma {:induction false} WordsOfUnderscores(u: string)
    requires AllIn(u, {'_'})
    ensures Words(u) == []
  {
    if u != [] {
      WordsOfUnderscores(u[1..]);
    }
  }

  /** Trailing underscores do not change the words. */
  lemma {:induction false} WordsAppendUnderscores(t: string, u: string)
    requires AllIn(u, {'_'})
    ensures Words(t + u) == Words(t)
  {
    if t == [] {
      assert t + u == u;
      WordsOfUnderscores(u);
    } else {
      assert (t + u)[1..] == t[1..] + u;
      WordsAppendUnderscores(t[1..], u);
    }
  }

  lemma WordsOfStripRight(s: string)
    ensures Words(StripRight(s, {'_'})) == Words(s)
  {
    var r := StripRight(s, {'_'});
    assert s == r + s[|r|..];
    WordsAppendUnderscores(r, s[|r|..]);
  }

  lemma WordsOfStrip(s: string)
    ensures Words(Strip(s, {'_'})) == Words(s)
  {
    WordsOfStripLeft(s);
    WordsOfStripRight(StripLeft(s, {'_'}));
  }

  /** A string of single underscores between non-empty words is the join of its words. */
  lemma {:induction false} JoinOfWords(u: string)
    requires NoDoubleUnderscore(u)
    requires u == [] || (u[0] != '_' && u[|u| - 1] != '_')
    ensures JoinWith(Words(u), '_') == u
  {
    if u != [] {
      var x := u[1..];
      assert u == [u[0]] + x;
      if x == [] {
        assert Words(u) == [[u[0]]];
      } else if x[0] != '_' {
        NoDoubleInSlice(u, 1, |u|);
        JoinOfWords(x);
        var w := Words(x);
        assert Words(u) == [[u[0]] + w[0]] + w[1..];
        JoinWithExtendFirst(u[0], w, '_');
      } else {
        var y := u[2..];
        assert u[1] == '_';
        assert y != [] && y[0] != '_';
        NoDoubleInSlice(u, 2, |u|);
        JoinOfWords(y);
        assert x[1..] == y;
        assert Words(u) == [[u[0]]] + Words(y);
        JoinWithCons([u[0]], Words(y), '_');
        assert u == [u[0]] + ['_'] + y;
      }
    }
  }

  lemma JoinWithCons(v: string, ws: seq<string>, sep: char)
    requires ws != []
    ensures JoinWith([v] + ws, sep) == v + [sep] + JoinWith(ws, sep)
  {
    assert ([v] + ws)[1..] == ws;
  }

  /** Putting `c` before the first word puts it before the join. */
  lemma JoinWithExtendFirst(c: char, ws: seq<string>, sep: char)
    requires ws != []
    ensures JoinWith([[c] + ws[0]] + ws[1..], sep) == [c] + JoinWith(ws, sep)
  {
    if |ws| > 1 {
      var v, rest := ws[0], JoinWith(ws[1..], sep);
      JoinWithCons([c] + v, ws[1..], sep);
      assert ws == [v] + ws[1..];
      JoinWithCons(v, ws[1..], sep);
      Assoc([c] + v, [sep], rest);
      Assoc([c], v, [sep] + rest);
      Assoc(v, [sep], rest);
    }
  }

  /** Collapsing underscore runs and stripping them from the ends joins the words with single underscores. */
  lemma NormalizedIsJoinOfWords(t: string)
    ensures Strip(CollapseUnderscores(t), {'_'}) == JoinWith(Words(t), '_')
  {
    var c := CollapseUnderscores(t);
    var n := Strip(c, {'_'});
    StripKeepsNoDouble(c);
    JoinOfWords(n);
    WordsOfStrip(c);
    WordsOfCollapse(t);
  }

  /** The underscore-separated words after `PrefixCapitals` are the segments of the original name. */
  lemma {:induction false} WordsOfPrefixCapitals(s: string)
    ensures Words(PrefixCapitals(s)) == Segments(s)
  {
    if s != [] {
      var x := s[1..];
      var p := PrefixCapitals(x);
      WordsOfPrefixCapitals(x);
      var c := [s[0]] + p;
      WordsCons(s[0], p);
      if IsAsciiUpper(s[0]) {
        assert PrefixCapitals(s) == ['_'] + c;
        WordsCons('_', c);
      } else {
        assert PrefixCapitals(s) == c;
      }
    }
  }

  /** `Words` of a string with a known first character. */
  lemma WordsCons(ch: char, p: string)
    ensures Words([ch] + p) ==
      if ch == '_' then Words(p)
      else if p != [] && p[0] != '_' then [[ch] + Words(p)[0]] + Words(p)[1..]
      else [[ch]] + Words(p)
  {
    assert ([ch] + p)[1..] == p;
  }

  /**
   * The command name is the segments of the name, without a final
   * `Command`, joined by underscores and lower-cased.
   */
  lemma CommandNameIsJoinedSegments(src: CommandSource)
    ensures GetCommandName(src) == Lower(JoinWith(Segments(StripCommandSuffix(NameOf(src))), '_'))
  {
    var p := PrefixCapitals(StripCommandSuffix(NameOf(src)));
    NormalizedIsJoinOfWords(p);
    WordsOfPrefixCapitals(StripCommandSuffix(NameOf(src)));
  }

  /** A final `"Command"` is removed once, and only at the very end. */
  lemma StripCommandSuffixOnce(x: string)
    ensures StripCommandSuffix(x + "Command") == x
  {
    assert (x + "Command")[|x|..] == "Command";
  }

  // ---------------------------------------------------------------------------
  // Idempotence
  // ---------------------------------------------------------------------------

  lemma StripCommandSuffixOfLower(y: string)
    requires NoUpper(y)
    ensures StripCommandSuffix(y) == y
  {
    // The suffix would put the upper-case 'C' at its first index, which `NoUpper` rules out.
    assert !EndsWith(y, "Command") by {
      if |y| >= 7 {
        assert !IsAsciiUpper(y[|y| - 7]) && IsAsciiUpper('C');
        assert y[|y| - 7..][0] == y[|y| - 7] != 'C';
      }
    }
    assert !EndsWith(y, "Command\n") by {
      if |y| >= 8 {
        assert !IsAsciiUpper(y[|y| - 8]) && IsAsciiUpper('C');
        assert y[|y| - 8..][0] == y[|y| - 8] != 'C';
      }
    }
  }

  lemma {:induction false} PrefixCapitalsOfLower(y: string)
    requires NoUpper(y)
    ensures PrefixCapitals(y) == y
  {
    if y != [] {
      PrefixCapitalsOfLower(y[1..]);
      assert y == [y[0]] + y[1..];
    }
  }

  lemma {:induction false} CollapseOfSingle(y: string)
    requires NoDoubleUnderscore(y)
    ensures CollapseUnderscores(y) == y
  {
    if |y| > 1 {
      NoDoubleInSlice(y, 1, |y|);
      CollapseOfSingle(y[1..]);
      assert y == [y[0]] + y[1..];
    }
  }

  lemma LowerOfLower(y: string)
    requires NoUpper(y)
    ensures Lower(y) == y
  {
  }

  /** A command name is its own command name: each rewrite leaves it as it is. */
  lemma CommandNameOfCommandName(y: string)
    requires IsCommandName(y)
    ensures CommandNameOf(y) == y
  {
    StripCommandSuffixOfLower(y);
    PrefixCapitalsOfLower(y);
    CollapseOfSingle(y);
    StripOfTrimmed(y);
    LowerOfLower(y);
  }

  lemma StripOfTrimmed(y: string)
    requires y == [] || (y[0] != '_' && y[|y| - 1] != '_')
    ensures Strip(y, {'_'}) == y
  {
    assert StripLeft(y, {'_'}) == y;
  }

  /** `get_command_name(get_command_name(x)) == get_command_name(x)`. */
  lemma GetCommandNameIdempotent(src: CommandSource)
    ensures GetCommandName(StrArg(GetCommandName(src))) == GetCommandName(src)
  {
    CommandNameOfCommandName(GetCommandName(src));
  }

  /** A class and its `__name__` give the same command name. */
  lemma ClassAndNameAgree(cls: PyClass)
    ensures GetCommandName(ClassArg(cls)) == GetCommandName(StrArg(cls.name))
  {
  }

  // ---------------------------------------------------------------------------
  // Examples
  // ---------------------------------------------------------------------------

  /** A capital ends the segment before it. */
  lemma {:induction false} SegmentsAppendAtCapital(a: string, b: string)
    requires b != [] && IsAsciiUpper(b[0])
    ensures Segments(a + b) == Segments(a) + Segments(b)
  {
    if a == [] {
      assert a + b == b;
    } else {
      assert (a + b)[1..] == a[1..] + b;
      SegmentsAppendAtCapital(a[1..], b);
    }
  }

  /** A capitalised word without underscores is one segment. */
  lemma {:induction false} SegmentsOfWord(w: string)
    requires IsCamelWord(w)
    ensures Segments(w) == [w]
  {
    var x := w[1..];
    if x != [] {
      assert !IsAsciiUpper(x[0]) && x[0] != '_';
      SegmentsOfLowerWord(x);
      assert Segments(w) == [[w[0]] + Segments(x)[0]] + Segments(x)[1..];
      assert w == [w[0]] + x;
    } else {
      assert w == [w[0]];
    }
  }

  lemma {:induction false} SegmentsOfLowerWord(x: string)
    requires x != [] && '_' !in x && NoUpper(x)
    ensures Segments(x) == [x]
  {
    var y := x[1..];
    if y != [] {
      assert y[0] == x[1];
      assert NoUpper(y) by {
        forall i | 0 <= i < |y|
          ensures !IsAsciiUpper(y[i])
        {
          assert y[i] == x[i + 1];
        }
      }
      SegmentsOfLowerWord(y);
      assert Segments(x) == [[x[0]] + Segments(y)[0]] + Segments(y)[1..];
      assert x == [x[0]] + y;
    } else {
      assert x == [x[0]];
    }
  }

  /** A capital followed by non-capitals, without underscores: one word of a CamelCase name. */
  predicate IsCamelWord(w: string) {
    w != [] && IsAsciiUpper(w[0]) && '_' !in w && NoUpper(w[1..])
  }

  /** The concatenation of the words `ws`. */
  function Concat(ws: seq<string>): string {
    if ws == [] then [] else ws[0] + Concat(ws[1..])
  }

  /** A CamelCase name splits back into its words. */
  lemma {:induction false} SegmentsOfCamelCase(ws: seq<string>)
    requires forall k :: 0 <= k < |ws| ==> IsCamelWord(ws[k])
    ensures Segments(Concat(ws)) == ws
  {
    if ws != [] {
      SegmentsOfCamelCase(ws[1..]);
      SegmentsOfWord(ws[0]);
      if ws[1..] == [] {
        assert Concat(ws) == ws[0] + [];
        assert ws[0] + [] == ws[0];
      } else {
        assert Concat(ws[1..]) == ws[1] + Concat(ws[2..]);
        SegmentsAppendAtCapital(ws[0], Concat(ws[1..]));
      }
    }
  }

  /** A CamelCase name not ending in `Command` maps to its words, lower-cased and joined by underscores. */
  lemma CamelCaseCommandName(ws: seq<string>)
    requires forall k :: 0 <= k < |ws| ==> IsCamelWord(ws[k])
    requires !EndsWith(Concat(ws), "Command") && !EndsWith(Concat(ws), "Command\n")
    ensures GetCommandName(StrArg(Concat(ws))) == Lower(JoinWith(ws, '_'))
  {
    CommandNameIsJoinedSegments(StrArg(Concat(ws)));
    SegmentsOfCamelCase(ws);
  }

  /** A command class `W1…WnCommand` maps to `w1_…_wn`. */
  lemma CamelCaseCommandClass(ws: seq<string>)
    requires forall k :: 0 <= k < |ws| ==> IsCamelWord(ws[k])
    ensures GetCommandName(ClassArg(PyClass(Concat(ws) + "Command"))) == Lower(JoinWith(ws, '_'))
  {
    StripCommandSuffixOnce(Concat(ws));
    CommandNameIsJoinedSegments(ClassArg(PyClass(Concat(ws) + "Command")));
    SegmentsOfCamelCase(ws);
  }

  /** Every capital begins a segment, consecutive ones included. */
  lemma ExampleConsecutiveCapitals(name: string)
    requires name == "IOError"
    ensures GetCommandName(StrArg(name)) == "i_o_error"
  {
    IOErrorWords();
    CamelCaseCommandName(["I", "O", "Error"]);
  }

  lemma IOErrorWords()
    ensures forall k :: 0 <= k < 3 ==> IsCamelWord(["I", "O", "Error"][k])
    ensures Concat(["I", "O", "Error"]) == "IOError"
    ensures !EndsWith("IOError", "Command") && !EndsWith("IOError", "Command\n")
    ensures Lower(JoinWith(["I", "O", "Error"], '_')) == "i_o_error"
  {
    IOErrorJoined();
  }

  lemma IOErrorJoined()
    ensures Lower(JoinWith(["I", "O", "Error"], '_')) == "i_o_error"
  {
    assert JoinWith(["I", "O", "Error"], '_') == "I_O_Error";
    assert Lower("I_O_Error") == "i_o_error";
  }

  /** `"Command"` at the start stays. */
  lemma ExampleCommandPrefix(name: string)
    requires name == "CommandFoo"
    ensures GetCommandName(StrArg(name)) == "command_foo"
  {
    var ws := ["Command", "Foo"];
    assert Concat(ws) == name;
    assert JoinWith(ws, '_') == "Command_Foo";
    assert Lower("Command_Foo") == "command_foo";
    CamelCaseCommandName(ws);
  }

  /** `"Command"` is removed only once. */
  lemma ExampleCommandTwice(name: string)
    requires name == "CommandCommand"
    ensures GetCommandName(ClassArg(PyClass(name))) == "command"
  {
    var ws := ["Command"];
    assert Concat(ws) + "Command" == name;
    assert JoinWith(ws, '_') == "Command";
    assert Lower("Command") == "command";
    CamelCaseCommandClass(ws);
  }
}
