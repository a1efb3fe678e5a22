# Versions, command names and message prefixes of the patcher plugin

This project models the pure core of a text-editor plugin that patches a
language-server binary. It is written in Dafny and proves properties of
that core. It covers three pieces.

- `SchemaVersion` (module `Patcher`, patcher.dfy) is a
  `major.minor.patch` value. `from_str` reads it from the leading
  `major[.minor[.patch]]` of a stripped string, and absent parts are 0.
  The six rich comparisons go through `_compare_2`. It compares
  `v_tuple` with another `SchemaVersion`, parses a `str` operand first,
  and raises `ValueError` for anything else. `str()` joins the
  components with dots.
- `get_command_name` (module `Utils`, utils.dfy) turns a command class,
  or its name, into the editor's command name. It works in four steps:
  - drop a final `Command`;
  - put `_` before every capital;
  - collapse runs of `_`;
  - strip `_` at both ends and lower-case the result.
- `pluginfy_msg` and `get_class_command_name` (module `Functions`,
  functions.dfy). `get_class_command_name` is a second copy of the same
  four rewrites.

Module `Text` (text.dfy) holds the Python string built-ins these rely on:
- `str.strip` with the 29 `str.isspace()` characters;
- `str.lower` and `str(int)`;
- `int()` of a run of digits.

Module `Wrappers` (wrappers.dfy) holds `Option` and `Result`.

The two `ValueError`s become `Err(NotComparable)` and `Err(NotAVersion)`.
The right operand of a comparison is one of three cases: a
`SchemaVersion`, a `str`, or any other object.

Two descriptions stand as independent references, each with a lemma
tying it to the code:
- for the order, `Precedes`, written out on the three components;
- for command names, `Segments`, the words of the class name cut at
  capitals and underscores.

## Model

| member | source | states |
|---|---|---|
| Patcher.SchemaVersion.VTuple | plugin/patcher.py:74-75 | `v_tuple` has three entries and determines the version. |
| Patcher.SchemaVersion.ToString | plugin/patcher.py:83-84 | `str()` joins the three components with dots. Its meaning is given by Patcher.RoundTrip. |
| Patcher.SchemaVersion.Compare2 | plugin/patcher.py:104-111 | A version operand always gives a boolean. A `str` operand fails exactly when it does not parse, with `NotAVersion`. Any other operand fails with `NotComparable`. The boolean values are given by Patcher.CompareVersions. |
| Patcher.SchemaVersion.Equals | plugin/patcher.py:86-87 | `__eq__` is `_compare_2` with `operator.eq`. Its values are given by Patcher.CompareVersions. |
| Patcher.SchemaVersion.NotEquals | plugin/patcher.py:101-102 | `__ne__` is `_compare_2` with `operator.ne`. Its values are given by Patcher.CompareVersions. |
| Patcher.SchemaVersion.LessThan | plugin/patcher.py:98-99 | `__lt__` is `_compare_2` with `operator.lt`. Its values are given by Patcher.CompareVersions. |
| Patcher.SchemaVersion.LessOrEqual | plugin/patcher.py:95-96 | `__le__` is `_compare_2` with `operator.le`. Its values are given by Patcher.CompareVersions. |
| Patcher.SchemaVersion.GreaterThan | plugin/patcher.py:92-93 | `__gt__` is `_compare_2` with `operator.gt`. Its values are given by Patcher.CompareVersions. |
| Patcher.SchemaVersion.GreaterOrEqual | plugin/patcher.py:89-90 | `__ge__` is `_compare_2` with `operator.ge`. Its values are given by Patcher.CompareVersions. |
| Patcher.LexLess | plugin/patcher.py:106 | Python's tuple `<`. Its meaning on versions is given by Patcher.LexLessOfVersions, and its order laws by the three lemmas below. |
| Patcher.ApplyToTuples | plugin/patcher.py:106 | `comparator(self.v_tuple, other.v_tuple)` for each of the six operators. Its meaning is given by Patcher.CompareVersions. |
| Patcher.CompareVersions | plugin/patcher.py:86-106 | Between two versions, `==` and `!=` are equality of the value; `<`, `<=`, `>` and `>=` are precedence on (major, minor, patch), plus equality for `<=` and `>=`. |
| Patcher.LexLessOfVersions | plugin/patcher.py:104-106 | Python's tuple `<` on `v_tuple` holds exactly when the first version precedes the second component-wise. |
| Patcher.LexLessIrreflexive | plugin/patcher.py:104-106 | No tuple is less than itself. |
| Patcher.LexLessTransitive | plugin/patcher.py:104-106 | Tuple `<` is transitive. |
| Patcher.LexLessTrichotomy | plugin/patcher.py:104-106 | Any two tuples are equal or one is less than the other. |
| Patcher.PrecedesIsStrictTotalOrder | plugin/patcher.py:86-106 | The version order is irreflexive, transitive, total and asymmetric. |
| Patcher.ExactlyOneHolds | plugin/patcher.py:86-106 | For two versions exactly one of `<`, `==`, `>` is true, and `!=` is the negation of `==`. |
| Patcher.CompareWithString | plugin/patcher.py:108-109 | A `str` operand is parsed with `from_str`, and the comparison is made against the parsed version. When parsing fails its error is raised, and that happens exactly when the stripped text does not start with a digit. |
| Patcher.CompareWithOther | plugin/patcher.py:111 | Any operand that is neither a version nor a string raises `NotComparable`, for every comparator. |
| Patcher.DefaultIsZero | plugin/patcher.py:74-75 | `SchemaVersion()` is 0.0.0 and prints as `"0.0.0"`. |
| Patcher.FromStr | plugin/patcher.py:113-124 | Parsing fails, with `NotAVersion`, exactly when the stripped text is empty or starts with something other than a digit. Otherwise every component is non-negative. |
| Patcher.DotComponent | plugin/patcher.py:115 | The optional group `\.(\d+)` matches exactly when the text starts with a dot and a digit. The matched digits are a non-empty run, the value is `int()` of that run, and the text left after it does not start with a digit. |
| Patcher.WithOptionalParts | plugin/patcher.py:120-124 | The major group is kept. The minor and patch parts are non-negative. When the minor group does not match, the patch is 0 as well. |
| Patcher.DotComponentOfDigits | plugin/patcher.py:115 | A dot, any digit run and text not continuing it: the group yields `int()` of the run and leaves that text. |
| Patcher.FromStrMajorOnly | plugin/patcher.py:115-122 | Any digit run `A`, leading zeros allowed, followed by text that starts neither with a digit nor with a dot and a digit parses as `int(A).0.0`. |
| Patcher.FromStrMajorMinor | plugin/patcher.py:115-122 | `A.B`, two digit runs, followed by such text parses as `int(A).int(B).0`. |
| Patcher.FromStrMajorMinorPatch | plugin/patcher.py:115-124 | `A.B.C`, three digit runs, followed by text not starting with a digit parses as `int(A).int(B).int(C)`. |
| Patcher.FromStrIgnoresLeadingZero | plugin/patcher.py:115-120 | A zero put before text that starts with a digit does not change the result. |
| Patcher.FromStrOfToStringThen | plugin/patcher.py:83-84 | `str(v)` of a non-negative version, followed by text not starting with a digit, parses back to `v`. This covers pre-release suffixes and fourth parts. |
| Patcher.RoundTrip | plugin/patcher.py:83-84 | `from_str(str(v)) == v` for every version with non-negative components. |
| Patcher.ParsedVersionRoundTrip | plugin/patcher.py:113-124 | Printing a parsed version and parsing it again gives the same version. |
| Patcher.FromStrIgnoresPadding | plugin/patcher.py:115 | Whitespace on either side of the text does not change the result. |
| Patcher.MissingPartsDefaultToZero | plugin/patcher.py:121-122 | `"a"`, `"a.0"` and `"a.0.0"` all parse as `a.0.0`. |
| Patcher.ShortFormsCompareEqual | plugin/patcher.py:108-109 | `SchemaVersion(a)` compares equal to `"a"`, `"a.0"` and `"a.0.0"`. |
| Patcher.ExamplePreRelease | plugin/patcher.py:115 | `"1.2.3-rc1"` parses as 1.2.3. |
| Patcher.ExampleFourParts | plugin/patcher.py:115 | `"1.2.3.9"` parses as 1.2.3. |
| Patcher.ExampleEmptyMinor | plugin/patcher.py:115-122 | `"1..2"` parses as 1.0.0, because an empty minor part ends the match. |
| Patcher.ExampleTrailingNewline | plugin/patcher.py:115 | `"2.0\n"` parses as 2.0.0: the line ending is not part of the version. |
| Patcher.ExampleLeadingZeros | plugin/patcher.py:115-122 | `"01.02"` parses as 1.2.0. |
| Patcher.ExampleRejected | plugin/patcher.py:117-118 | `"v1.2"` and `""` are rejected with `NotAVersion`. |
| Patcher.ExampleBlank | plugin/patcher.py:117-118 | Text made only of whitespace is rejected. |
| Text.StripLeft | plugin/patcher.py:115 | The left half of `strip`: the result is a suffix of the input, only characters of the set were removed, and the result does not start with one. |
| Text.StripRight | plugin/utils.py:16 | The right half of `strip`: the result is a prefix of the input, only characters of the set were removed, and the result does not end with one. |
| Text.StripSpace | plugin/patcher.py:115 | `str.strip()` with no argument, on the 29 `isspace()` characters. Its meaning is given by Text.StripIsSlice and Text.StripPadded. |
| Text.Strip | plugin/utils.py:16 | `s.strip(cs)` leaves a result that neither starts nor ends with a character of `cs`. |
| Text.StripIsSlice | plugin/patcher.py:115 | The stripped text is a slice of the input, with only characters of `cs` removed before and after it. |
| Text.StripPadded | plugin/patcher.py:115 | Characters of `cs` added around a text are removed again by `strip`. |
| Text.Lower | plugin/utils.py:16 | `lower()` keeps the length and lowers each character on its own. |
| Text.LowerChar | plugin/utils.py:16 | A lowered character is never an ASCII capital. |
| Text.NatToString | plugin/patcher.py:84 | `str(n)` is a non-empty run of digits with no leading zero. |
| Text.IntToString | plugin/patcher.py:84 | `str(i)` starts with `-` exactly when `i` is negative. |
| Text.DigitsValue | plugin/patcher.py:120-122 | `int()` of a run of ASCII digits, and 0 for an empty run. Its meaning is given by Text.DigitsValueOfNatToString and Text.DigitsValueOfLeadingZero. |
| Text.DigitsValueOfLeadingZero | plugin/patcher.py:120-122 | `int()` ignores a leading zero: `int("0" + d) == int(d)`. |
| Text.DigitsValueOfNatToString | plugin/patcher.py:120 | `int(str(n)) == n`. |
| Text.LeadingDigits | plugin/patcher.py:115 | `\d+` at the start takes every leading digit and stops before the first non-digit. |
| Utils.StripCommandSuffix | plugin/utils.py:12 | A final `"Command"` is removed. Before a final newline, `"Command\n"` loses `"Command"` and keeps the newline. Any other name is unchanged. |
| Utils.StripCommandSuffixOnce | plugin/utils.py:12 | `"Command"` is removed once: `XCommand` becomes `X`, even when `X` itself ends in `Command`. |
| Utils.PrefixCapitals | plugin/utils.py:13 | After the rewrite every ASCII capital has an underscore right before it. |
| Utils.CollapseUnderscores | plugin/utils.py:14 | After the rewrite no two underscores are adjacent. The first and last characters are kept. |
| Utils.CommandNameOf | plugin/utils.py:12-16 | The four rewrites always give a command name: lower case, no doubled underscore, and no underscore at either end. |
| Utils.GetCommandName | plugin/utils.py:9-16 | Every result has the shape of a command name. |
| Utils.CommandNameIsJoinedSegments | plugin/utils.py:9-16 | The result is the class name without its final `Command`, cut into segments at capitals and underscores, joined by single underscores and lower-cased. |
| Utils.WordsOfPrefixCapitals | plugin/utils.py:13 | The underscore-separated words after the capital rewrite are the segments of the original name. |
| Utils.NormalizedIsJoinOfWords | plugin/utils.py:14-16 | Collapsing and stripping underscores leaves the words of the text joined by single underscores. |
| Utils.GetCommandNameIdempotent | plugin/utils.py:9-16 | Applied to its own result, `get_command_name` returns it unchanged. |
| Utils.CommandNameOfCommandName | plugin/utils.py:12-16 | A command name passes through each of the four rewrites unchanged. |
| Utils.NameOf | plugin/utils.py:10 | A class gives its `__name__`, a string itself. Its meaning is given by Utils.ClassAndNameAgree. |
| Utils.ClassAndNameAgree | plugin/utils.py:10 | A class and its `__name__` as a string give the same command name. |
| Utils.SegmentsOfCamelCase | plugin/utils.py:13 | A name made of capitalised words without underscores splits back into exactly those words. |
| Utils.CamelCaseCommandName | plugin/utils.py:12-16 | A CamelCase name not ending in `Command` becomes its words, joined by underscores and lower-cased. |
| Utils.CamelCaseCommandClass | plugin/utils.py:12-16 | A class `W1…WnCommand` becomes `w1_…_wn`. |
| Utils.ExampleConsecutiveCapitals | plugin/utils.py:13 | `"IOError"` becomes `"i_o_error"`, because every capital starts a word. |
| Utils.ExampleCommandPrefix | plugin/utils.py:12 | `"CommandFoo"` becomes `"command_foo"`, because only a final `Command` is removed. |
| Utils.ExampleCommandTwice | plugin/utils.py:12 | The class `CommandCommand` becomes `"command"`. |
| Functions.PackageHead | plugin/functions.py:6 | `partition(".")[0]` is a prefix of the package name without a dot. It is either the whole name or stops at the first dot. |
| Functions.PackageHeadUnique | plugin/functions.py:6 | Those three properties determine the head: any such prefix is the head. |
| Functions.PackageHeadOfSubmodule | plugin/functions.py:6 | `top.rest` yields `top` when `top` has no dot. |
| Functions.PackageHeadOfTopLevel | plugin/functions.py:6 | A name without a dot is its own head. |
| Functions.PackageHeadIdempotent | plugin/functions.py:6 | Taking the head twice changes nothing. |
| Functions.PluginfyMsg | plugin/functions.py:5-8 | The result is `[`, the package head, `] `, and then the message verbatim, with its length the sum of the parts. |
| Functions.PluginfyMsgInjective | plugin/functions.py:5-8 | Two different messages from the same package give different results. |
| Functions.PluginfyMsgOfSubmodule | plugin/functions.py:5-8 | Every sub-module of a package prefixes messages the same way as the top-level package. |
| Functions.ExamplePluginfyMsg | plugin/functions.py:5-8 | From package `patcher.plugin`, the message `"{0}"` becomes `"[patcher] {0}"`: the braces are not interpreted. |
| Functions.GetClassCommandName | plugin/functions.py:27-33 | Every result is a command name. It equals the class name without its final `Command`, cut into segments, joined by underscores and lower-cased. |
| Functions.ClassCommandNameAgrees | plugin/functions.py:27-33 | `get_class_command_name(cls) == get_command_name(cls)` for every class. |
| Functions.CamelCaseClassCommandName | plugin/functions.py:27-33 | A class `W1…WnCommand` becomes `w1_…_wn`. |
| Functions.ClassCommandNameIdempotent | plugin/functions.py:27-33 | Applying the rewrites to a command name returns it unchanged. |

## Left out

- The licence-bypass engine in plugin/patcher.py, from line 127 on, is not part of this model. That covers the byte-pattern rewrites of the server binary.
- `backup_files` and `restore_directory` (plugin/patcher.py:16-49) are not modelled. They copy files.
- The check of a patched file's recorded version against `Patcher.VERSION` (plugin/commands.py:85) is not modelled. It is a use of the comparison modelled here, made inside a command class.
- File I/O, the clock (`now_isoformat`) and JSON serialisation are not modelled. They are host calls.
- The editor API glue is not modelled: `console_msg`, `status_msg`, `info_box` and `error_box` (plugin/functions.py:11-24), the command classes and the boot module.
- The `pluginfy_msg` of plugin/plugin_message.py is not part of this model.
- `SchemaVersion.__hash__` and `__repr__` are not modelled. The first is Python's tuple hash. The second is `__str__`.
- A comparison whose left operand is a `str` or another object is not modelled as such. Python's `str` comparison returns `NotImplemented` for a `SchemaVersion`, so `"1.2" < v` calls `v.__gt__("1.2")`, which reaches `_compare_2` with the mirrored comparator. That case is `GreaterThan(Str(..))` and its kin here. `_compare_2` itself never returns `NotImplemented`. Subclasses of `SchemaVersion` are treated like `SchemaVersion`, and the operand is narrowed to three cases.
- Patcher.FromStr: `\d` and `int()` are modelled on ASCII digits only. Python also accepts the other Unicode decimal digits, such as Arabic-Indic digits.
- Text.Lower: `str.lower()` is modelled on ASCII letters only. Other letters are left unchanged, where Python would lower them too.
- Text.LowerChar: its contract that a character other than an ASCII capital is unchanged is false in Python for other capitals, such as 'Ä'.
- Patcher.FromStr: recent CPython versions (3.11, and 3.8.14 on) raise `ValueError` when `int()` is given a run of more than 4300 digits, and `str()` refuses such numbers too. `DigitsValue` and `NatToString` have no such limit, so Patcher.RoundTrip and Patcher.FromStrOfToStringThen also cover versions that Python cannot print or parse.
- Utils.GetCommandName: because of that, a name with non-ASCII capitals is lowered only in its ASCII part.
- Functions.PluginfyMsg: the module's `__package__` is a parameter, since it is fixed by the host's import system.
