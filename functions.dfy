/**
 * The two pure helpers of plugin/functions.py: the `[package] message`
 * prefix put on every message the plugin shows, and
 * `get_class_command_name`, a second copy of the command-name rewrites.
 */
module Functions {
  import opened Text
  import opened Utils

  /** `package.partition(".")[0]`: the package name up to its first dot. */
  function PackageHead(package: string): (r: string)
    ensures |r| <= |package| && r == package[..|r|]
    ensures '.' !in r
    ensures r == package || package[|r|] == '.'
  {
    if package == [] || package[0] == '.' then []
    else [package[0]] + PackageHead(package[1..])
  }

  /**
   * `pluginfy_msg(msg)`, with the module's `__package__` passed in as
   * `package`. The message is a `format` argument, not the format string,
   * so it is copied verbatim, braces included.
   */
  function PluginfyMsg(package: string, msg: string): (r: string)
    ensures var h := PackageHead(package);
      && |r| == |h| + 3 + |msg|
      && r[0] == '[' && r[1..|h| + 1] == h && r[|h| + 1..|h| + 3] == "] "
      && r[|h| + 3..] == msg
  {
    "[" + PackageHead(package) + "] " + msg
  }

  /** `get_class_command_name(cls)`: the same four rewrites, on the class name. */
  function GetClassCommandName(cls: PyClass): (r: string)
    ensures IsCommandName(r)
    ensures r == Lower(JoinWith(Segments(StripCommandSuffix(cls.name)), '_'))
  {
    var t := CollapseUnderscores(PrefixCapitals(StripCommandSuffix(cls.name)));
    var u := Strip(t, {'_'});
    StripKeepsNoDouble(t);
    LowerKeepsShape(u);
    CommandNameIsJoinedSegments(ClassArg(cls));
    Lower(u)
  }

  /** The head is the only dot-free prefix that ends the name or stops at a dot. */
  lemma {:induction false} PackageHeadUnique(package: string, h: string)
    requires |h| <= |package| && h == package[..|h|] && '.' !in h
    requires h == package || package[|h|] == '.'
    ensures PackageHead(package) == h
  {
    if h == [] {
      assert package == [] || package[0] == '.';
    } else {
      assert package[0] == h[0] && h[0] != '.';
      PackageHeadUnique(package[1..], h[1..]);
    }
  }

  /** A sub-module's package yields the top-level package. */
  lemma PackageHeadOfSubmodule(top: string, rest: string)
    requires '.' !in top
    ensures PackageHead(top + "." + rest) == top
  {
    PackageHeadUnique(top + "." + rest, top);
  }

  /** A package name without a dot is its own head. */
  lemma PackageHeadOfTopLevel(top: string)
    requires '.' !in top
    ensures PackageHead(top) == top
  {
    PackageHeadUnique(top, top);
  }

  /** Taking the head twice changes nothing. */
  lemma PackageHeadIdempotent(package: string)
    ensures PackageHead(PackageHead(package)) == PackageHead(package)
  {
    PackageHeadOfTopLevel(PackageHead(package));
  }

  /** Different messages from one package stay different. */
  lemma PluginfyMsgInjective(package: string, m1: string, m2: string)
    requires PluginfyMsg(package, m1) == PluginfyMsg(package, m2)
    ensures m1 == m2
  {
    var h := PackageHead(package);
    assert m1 == PluginfyMsg(package, m1)[|h| + 3..];
  }

  /** Only the top-level package shows in the prefix. */
  lemma PluginfyMsgOfSubmodule(top: string, rest: string, msg: string)
    requires '.' !in top
    ensures PluginfyMsg(top + "." + rest, msg) == PluginfyMsg(top, msg)
  {
    PackageHeadOfSubmodule(top, rest);
    PackageHeadOfTopLevel(top);
  }

  /** Both copies of the rewrites give every class the same command name. */
  lemma ClassCommandNameAgrees(cls: PyClass)
    ensures GetClassCommandName(cls) == GetCommandName(ClassArg(cls))
  {
    CommandNameIsJoinedSegments(ClassArg(cls));
  }

  /** A class `W1…WnCommand` named by its CamelCase words is given `w1_…_wn`. */
  lemma CamelCaseClassCommandName(ws: seq<string>)
    requires forall k :: 0 <= k < |ws| ==> IsCamelWord(ws[k])
    ensures GetClassCommandName(PyClass(Concat(ws) + "Command")) == Lower(JoinWith(ws, '_'))
  {
    CamelCaseCommandClass(ws);
    ClassCommandNameAgrees(PyClass(Concat(ws) + "Command"));
  }

  /** Applying the rewrites to a command name returns it unchanged. */
  lemma ClassCommandNameIdempotent(cls: PyClass)
    ensures GetClassCommandName(PyClass(GetClassCommandName(cls))) == GetClassCommandName(cls)
  {
    ClassCommandNameAgrees(cls);
    ClassCommandNameAgrees(PyClass(GetClassCommandName(cls)));
    GetCommandNameIdempotent(ClassArg(cls));
  }

  /** A message from a sub-module: the prefix names the top-level package only. */
  lemma ExamplePluginfyMsg(package: string, msg: string)
    requires package == "patcher.plugin" && msg == "{0}"
    ensures PluginfyMsg(package, msg) == "[patcher] {0}"
  {
    var top := package[..7];
    assert package == top + "." + package[8..];
    PackageHeadOfSubmodule(top, package[8..]);
    assert "[" + top + "] " + msg == "[patcher] {0}";
  }
}
