/** The pure helpers of `JdkUtil`: quoting for Java argument files, the
    classification of VM options, the choice of the launch target, the JDK
    name suggestion, the version taken from a quoted version string and the
    jar path taken from a `-javaagent` option. */
module JdkUtil {
  import opened Wrappers

  // ---------------------------------------------------------------------------
  // Java string primitives used by the helpers below
  // ---------------------------------------------------------------------------

  /** The form feed character, written `\f` in Java. */
  const FormFeed: char := 12 as char

  /** `String.startsWith`. */
  predicate StartsWith(s: string, prefix: string) {
    |prefix| <= |s| && s[..|prefix|] == prefix
  }

  /** `String.endsWith`. */
  predicate EndsWith(s: string, suffix: string) {
    |suffix| <= |s| && s[|s| - |suffix|..] == suffix
  }

  /** `String.indexOf(c, from)`: the first position at or after `from` holding
      `c`, or -1. */
  function IndexOf(s: string, c: char, from: nat): (r: int)
    ensures r == -1 || from <= r < |s|
    ensures r >= 0 ==> s[r] == c && forall k :: from <= k < r ==> s[k] != c
    ensures r == -1 ==> forall k :: from <= k < |s| ==> s[k] != c
    decreases |s| - from
  {
    if from >= |s| then -1
    else if s[from] == c then from
    else IndexOf(s, c, from + 1)
  }

  /** `String.lastIndexOf(c)`, searching the first `upto` characters: the last
      position holding `c`, or -1. */
  function LastIndexOf(s: string, c: char, upto: nat): (r: int)
    requires upto <= |s|
    ensures r == -1 || 0 <= r < upto
    ensures r >= 0 ==> s[r] == c && forall k :: r < k < upto ==> s[k] != c
    ensures r == -1 ==> forall k :: 0 <= k < upto ==> s[k] != c
  {
    if upto == 0 then -1
    else if s[upto - 1] == c then upto - 1
    else LastIndexOf(s, c, upto - 1)
  }

  /** `StringUtil.containsAnyChar`. */
  function ContainsAnyChar(s: string, chars: string): (r: bool)
    ensures r <==> exists i :: 0 <= i < |s| && s[i] in chars
  {
    if |s| == 0 then false
    else if s[0] in chars then true
    else
      var rest := ContainsAnyChar(s[1..], chars);
      assert forall i :: 1 <= i < |s| ==> s[i] == s[1..][i - 1];
      rest
  }

  // ---------------------------------------------------------------------------
  // quoteArg and the argument file (JdkUtil.java:279-309)
  // ---------------------------------------------------------------------------

  /** The characters `quoteArg` escapes. */
  const Specials: string := [' ', '#', '\'', '"', '\n', '\r', '\t', FormFeed]

  /** The replacement `quoteArg` writes for one character of the argument. */
  function QuoteChar(c: char): (r: string)
    ensures c !in Specials <==> r == [c]
    ensures c in Specials ==> 3 <= |r| <= 4 && r[0] == '"' && r[|r| - 1] == '"'
  {
    if c == ' ' || c == '#' || c == '\'' then ['"', c, '"']
    else if c == '"' then ['"', '\\', '"', '"']
    else if c == '\n' then ['"', '\\', 'n', '"']
    else if c == '\r' then ['"', '\\', 'r', '"']
    else if c == '\t' then ['"', '\\', 't', '"']
    else if c == FormFeed then ['"', '\\', 'f', '"']
    else [c]
  }

  /** The loop of `quoteArg`: every character replaced, in order. */
  function QuoteEach(s: string): string {
    if |s| == 0 then [] else QuoteChar(s[0]) + QuoteEach(s[1..])
  }

  /** `quoteArg`: the argument as it is written on its own line of a Java
      argument file. An argument without special characters is written as it
      is; otherwise every character is replaced by `QuoteChar`. The result
      never holds a raw line terminator, tab or form feed, so the argument
      stays on its line. */
  function QuoteArg(arg: string): (r: string)
    ensures !ContainsAnyChar(arg, Specials) ==> r == arg
    ensures forall i :: 0 <= i < |r| ==> !IsControl(r[i])
    ensures |arg| <= |r| <= 4 * |arg|
  {
    if !ContainsAnyChar(arg, Specials) then arg else QuoteEachFacts(arg); QuoteEach(arg)
  }

  /** A replacement is one to four characters long and holds no raw line
      terminator, tab or form feed. */
  lemma QuoteCharFacts(c: char)
    ensures 1 <= |QuoteChar(c)| <= 4
    ensures forall i :: 0 <= i < |QuoteChar(c)| ==> !IsControl(QuoteChar(c)[i])
  {
  }

  /** The characters that would break a line or an argument apart. */
  predicate IsControl(c: char) {
    c == '\n' || c == '\r' || c == '\t' || c == FormFeed
  }

  /** Length bounds and the absence of raw control characters in `QuoteEach`. */
  lemma {:induction false} QuoteEachFacts(s: string)
    ensures |s| <= |QuoteEach(s)| <= 4 * |s|
    ensures forall i :: 0 <= i < |QuoteEach(s)| ==> !IsControl(QuoteEach(s)[i])
  {
    if |s| > 0 {
      QuoteEachFacts(s[1..]);
      QuoteCharFacts(s[0]);
      var head := QuoteChar(s[0]);
      var tail := QuoteEach(s[1..]);
      assert QuoteEach(s) == head + tail;
      forall i | 0 <= i < |head + tail| ensures !IsControl((head + tail)[i]) {
        if i < |head| {
          assert (head + tail)[i] == head[i];
        } else {
          assert (head + tail)[i] == tail[i - |head|];
        }
      }
    }
  }

  /** The shortcut for arguments without special characters returns what the
      loop would have built: a character outside the special set is copied
      verbatim. */
  lemma {:induction false} ShortcutAgreesWithLoop(arg: string)
    ensures QuoteArg(arg) == QuoteEach(arg)
  {
    if !ContainsAnyChar(arg, Specials) {
      PlainIsCopied(arg);
    }
  }

  lemma {:induction false} PlainIsCopied(s: string)
    requires !ContainsAnyChar(s, Specials)
    ensures QuoteEach(s) == s
  {
    if |s| > 0 {
      assert s[0] !in Specials;
      assert !ContainsAnyChar(s[1..], Specials);
      PlainIsCopied(s[1..]);
    }
  }

  /** `QuoteEach` works character by character. */
  lemma {:induction false} QuoteEachConcat(a: string, b: string)
    ensures QuoteEach(a + b) == QuoteEach(a) + QuoteEach(b)
  {
    if |a| > 0 {
      assert (a + b)[1..] == a[1..] + b;
      QuoteEachConcat(a[1..], b);
    } else {
      assert a + b == b;
    }
  }

  /** `quoteArg` of a concatenation is the concatenation of the quoted parts:
      each character is quoted on its own, whatever surrounds it. */
  lemma QuoteArgConcat(a: string, b: string)
    ensures QuoteArg(a + b) == QuoteArg(a) + QuoteArg(b)
  {
    ShortcutAgreesWithLoop(a + b);
    ShortcutAgreesWithLoop(a);
    ShortcutAgreesWithLoop(b);
    QuoteEachConcat(a, b);
  }

  /** The text `writeArgumentsToParameterFile` writes: each quoted argument
      followed by a newline. */
  function ArgFileText(args: seq<string>): (r: string)
    ensures r == [] <==> |args| == 0
    ensures r != [] ==> r[|r| - 1] == '\n'
    ensures |args| <= |r|
  {
    if |args| == 0 then [] else QuoteArg(args[0]) + "\n" + ArgFileText(args[1..])
  }

  /** Occurrences of `c` in `s`. */
  function Count(s: string, c: char): nat {
    if |s| == 0 then 0 else (if s[0] == c then 1 else 0) + Count(s[1..], c)
  }

  lemma {:induction false} CountConcat(a: string, b: string, c: char)
    ensures Count(a + b, c) == Count(a, c) + Count(b, c)
  {
    if |a| > 0 {
      assert (a + b)[1..] == a[1..] + b;
      CountConcat(a[1..], b, c);
    } else {
      assert a + b == b;
    }
  }

  lemma {:induction false} CountAbsent(s: string, c: char)
    requires forall i :: 0 <= i < |s| ==> s[i] != c
    ensures Count(s, c) == 0
  {
    if |s| > 0 {
      CountAbsent(s[1..], c);
    }
  }

  /** Each argument occupies exactly one line of the argument file: the file
      holds one newline per argument and no carriage return. */
  lemma {:induction false} OneLinePerArgument(args: seq<string>)
    ensures Count(ArgFileText(args), '\n') == |args|
    ensures Count(ArgFileText(args), '\r') == 0
  {
    if |args| > 0 {
      var q := QuoteArg(args[0]);
      OneLinePerArgument(args[1..]);
      CountAbsent(q, '\n');
      CountAbsent(q, '\r');
      CountConcat(q, "\n", '\n');
      CountConcat(q, "\n", '\r');
      CountConcat(q + "\n", ArgFileText(args[1..]), '\n');
      CountConcat(q + "\n", ArgFileText(args[1..]), '\r');
    }
  }

  // ---------------------------------------------------------------------------
  // VM options kept out of the command line (JdkUtil.java:323-330, 419-426, 463-465)
  // ---------------------------------------------------------------------------

  /** `isUserDefinedProperty`: a `-D` system property whose key does not start
      with `sun.` or `java.`. */
  function IsUserDefinedProperty(param: string): (r: bool)
    ensures r <==> (|param| >= 2 && param[..2] == "-D"
                    && !StartsWith(param[2..], "sun.") && !StartsWith(param[2..], "java."))
  {
    assert |param| >= 6 ==> param[2..][..4] == param[2..6];
    assert |param| >= 7 ==> param[2..][..5] == param[2..7];
    StartsWith(param, "-D") && !(StartsWith(param, "-Dsun.") || StartsWith(param, "-Djava."))
  }

  /** An option is a user-defined property iff it is `-D` followed by a
      property key that starts with neither `sun.` nor `java.`. */
  lemma UserDefinedPropertyByKey(param: string)
    ensures IsUserDefinedProperty(param) <==>
      exists key :: param == "-D" + key && !StartsWith(key, "sun.") && !StartsWith(key, "java.")
  {
    if |param| >= 2 && param[..2] == "-D" {
      var key := param[2..];
      assert param == "-D" + key;
      if |param| >= 6 { assert key[..4] == param[2..6]; }
      if |param| >= 7 { assert key[..5] == param[2..7]; }
    }
    forall key | param == "-D" + key
      ensures IsUserDefinedProperty(param) <==> !StartsWith(key, "sun.") && !StartsWith(key, "java.")
    {
      assert key == param[2..];
      if |param| >= 6 { assert key[..4] == param[2..6]; }
      if |param| >= 7 { assert key[..5] == param[2..7]; }
    }
  }

  /** `c` is `a` and `b` merged, each keeping its own order. */
  ghost predicate Interleaves(a: seq<string>, b: seq<string>, c: seq<string>)
    decreases |c|
  {
    if |c| == 0 then a == [] && b == []
    else
      || (|a| > 0 && a[0] == c[0] && Interleaves(a[1..], b, c[1..]))
      || (|b| > 0 && b[0] == c[0] && Interleaves(a, b[1..], c[1..]))
  }

  /** The split of the VM options made when they are passed dynamically: the
      user-defined properties go to the parameters file (or the manifest),
      every other option to the command line, each side in the original
      order. */
  function PartitionVmOptions(params: seq<string>): (r: (seq<string>, seq<string>))
    ensures forall k :: 0 <= k < |r.0| ==> IsUserDefinedProperty(r.0[k])
    ensures forall k :: 0 <= k < |r.1| ==> !IsUserDefinedProperty(r.1[k])
    ensures Interleaves(r.0, r.1, params)
  {
    if |params| == 0 then ([], [])
    else
      var p := params[0];
      var rest := PartitionVmOptions(params[1..]);
      assert params == [p] + params[1..];
      if IsUserDefinedProperty(p) then
        InterleavesWithFirst(p, rest.0, rest.1, params[1..]);
        ([p] + rest.0, rest.1)
      else
        InterleavesWithSecond(p, rest.0, rest.1, params[1..]);
        (rest.0, [p] + rest.1)
  }

  /** A merge loses and adds nothing. */
  lemma {:induction false} InterleavingKeepsElements(a: seq<string>, b: seq<string>, c: seq<string>)
    requires Interleaves(a, b, c)
    ensures multiset(a) + multiset(b) == multiset(c)
    decreases |c|
  {
    if |c| > 0 {
      assert c == [c[0]] + c[1..];
      if |a| > 0 && a[0] == c[0] && Interleaves(a[1..], b, c[1..]) {
        InterleavingKeepsElements(a[1..], b, c[1..]);
        assert a == [a[0]] + a[1..];
      } else {
        InterleavingKeepsElements(a, b[1..], c[1..]);
        assert b == [b[0]] + b[1..];
      }
    }
  }

  /** The split keeps every VM option exactly once. */
  lemma PartitionKeepsEveryOption(params: seq<string>)
    ensures var r := PartitionVmOptions(params);
      multiset(r.0) + multiset(r.1) == multiset(params) && |r.0| + |r.1| == |params|
  {
    var r := PartitionVmOptions(params);
    InterleavingKeepsElements(r.0, r.1, params);
    assert |multiset(r.0) + multiset(r.1)| == |multiset(params)|;
  }

  lemma InterleavesWithFirst(x: string, a: seq<string>, b: seq<string>, c: seq<string>)
    requires Interleaves(a, b, c)
    ensures Interleaves([x] + a, b, [x] + c)
  {
  }

  lemma InterleavesWithSecond(x: string, a: seq<string>, b: seq<string>, c: seq<string>)
    requires Interleaves(a, b, c)
    ensures Interleaves(a, [x] + b, [x] + c)
  {
  }

  // ---------------------------------------------------------------------------
  // getMainClassParams (JdkUtil.java:511-528)
  // ---------------------------------------------------------------------------

  /** The `CantRunException` thrown when nothing can be launched. */
  datatype CantRun = MainClassNotSpecified

  /** `getMainClassParams`: the launcher arguments naming what to run. A main
      class inside a module wins over a bare main class, which wins over a
      jar; with none of them the launch fails. */
  function GetMainClassParams(mainClass: Option<string>, moduleName: Option<string>, jarPath: Option<string>)
    : (r: Result<seq<string>, CantRun>)
    ensures r.Failure? <==> mainClass.None? && jarPath.None?
    ensures mainClass.Some? && moduleName.Some? ==> r == Success(["-m", moduleName.value + "/" + mainClass.value])
    ensures mainClass.Some? && moduleName.None? ==> r == Success([mainClass.value])
    ensures mainClass.None? && jarPath.Some? ==> r == Success(["-jar", jarPath.value])
  {
    if mainClass.Some? && moduleName.Some? then Success(["-m", moduleName.value + "/" + mainClass.value])
    else if mainClass.Some? then Success([mainClass.value])
    else if jarPath.Some? then Success(["-jar", jarPath.value])
    else Failure(MainClassNotSpecified)
  }

  /** What the `java` launcher runs, as named by its trailing arguments. */
  datatype LaunchTarget = ModuleMain(moduleName: string, main: string) | MainClass(main: string) | Jar(path: string)

  /** The launcher's reading of those arguments: `-m` takes a module name and a
      class separated by the first `/`, `-jar` takes a jar path, and a lone
      argument is a class name. */
  function LauncherTarget(params: seq<string>): Option<LaunchTarget> {
    if |params| == 2 && params[0] == "-m" then
      var slash := IndexOf(params[1], '/', 0);
      if slash < 0 then None else Some(ModuleMain(params[1][..slash], params[1][slash + 1..]))
    else if |params| == 2 && params[0] == "-jar" then Some(Jar(params[1]))
    else if |params| == 1 then Some(MainClass(params[0]))
    else None
  }

  /** The launcher runs what `getMainClassParams` chose, provided that a module
      name holds no `/` (which module names never do). */
  lemma MainClassParamsNameTheTarget(mainClass: Option<string>, moduleName: Option<string>, jarPath: Option<string>)
    requires moduleName.Some? ==> '/' !in moduleName.value
    ensures var r := GetMainClassParams(mainClass, moduleName, jarPath);
      r.Success? ==>
        LauncherTarget(r.value) ==
        Some(if mainClass.Some? && moduleName.Some? then ModuleMain(moduleName.value, mainClass.value)
             else if mainClass.Some? then MainClass(mainClass.value)
             else Jar(jarPath.value))
  {
    if mainClass.Some? && moduleName.Some? {
      var m, c := moduleName.value, mainClass.value;
      var arg := m + "/" + c;
      var slash := IndexOf(arg, '/', 0);
      assert arg[|m|] == '/';
      assert forall k :: 0 <= k < |m| ==> arg[k] == m[k] != '/';
      assert slash == |m|;
      assert arg[..slash] == m;
      assert arg[slash + 1..] == c;
    }
  }

  /** A module name without a main class is ignored: the jar, if any, is run. */
  lemma ModuleWithoutMainIsIgnored(moduleName: Option<string>, jarPath: Option<string>)
    ensures GetMainClassParams(None, moduleName, jarPath) == GetMainClassParams(None, None, jarPath)
  {
  }

  // ---------------------------------------------------------------------------
  // suggestJdkName (JdkUtil.java:93-103)
  // ---------------------------------------------------------------------------

  /** The parts of a parsed `JavaVersion` that the name uses. */
  datatype JavaVersion = JavaVersion(feature: nat, ea: bool)

  predicate IsDigit(c: char) { '0' <= c <= '9' }

  /** `StringBuilder.append(int)` for a non-negative number: its decimal
      digits, without leading zeros. */
  function NatToString(n: nat): (r: string)
    ensures |r| > 0
    ensures forall i :: 0 <= i < |r| ==> IsDigit(r[i])
    ensures |r| > 1 ==> r[0] != '0'
  {
    if n < 10 then [('0' as int + n) as char]
    else NatToString(n / 10) + [('0' as int + n % 10) as char]
  }

  /** The value of a non-empty decimal digit string. */
  function ParseNat(s: string): Option<nat> {
    if |s| == 0 then None
    else if !IsDigit(s[|s| - 1]) then None
    else if |s| == 1 then Some(s[0] as int - '0' as int)
    else match ParseNat(s[..|s| - 1])
      case None => None
      case Some(v) => Some(10 * v + (s[|s| - 1] as int - '0' as int))
  }

  lemma {:induction false} ParseNatToString(n: nat)
    ensures ParseNat(NatToString(n)) == Some(n)
  {
    if n >= 10 {
      var s := NatToString(n);
      ParseNatToString(n / 10);
      assert s[..|s| - 1] == NatToString(n / 10);
    }
  }

  /** `suggestJdkName`: no name when the version does not parse; otherwise
      `1.` for features before 9, then the feature number, then `-ea` for an
      early-access build. */
  function SuggestJdkName(version: Option<JavaVersion>): (r: Option<string>)
    ensures r.None? <==> version.None?
    ensures r.Some? ==> (StartsWith(r.value, "1.") <==> version.value.feature < 9)
    ensures r.Some? ==> (EndsWith(r.value, "-ea") <==> version.value.ea)
  {
    match version
    case None => None
    case Some(v) =>
      var digits := NatToString(v.feature);
      var name := (if v.feature < 9 then "1." else "") + digits + (if v.ea then "-ea" else "");
      assert StartsWith(name, "1.") <==> v.feature < 9 by {
        if v.feature >= 9 && |name| >= 2 {
          if |digits| >= 2 {
            assert name[1] == digits[1] && IsDigit(digits[1]);
          } else {
            assert name[1] == '-';
          }
        }
      }
      assert EndsWith(name, "-ea") <==> v.ea by {
        if !v.ea && |name| >= 3 { assert name[|name| - 1] == digits[|digits| - 1]; assert IsDigit(digits[|digits| - 1]); }
      }
      Some(name)
  }

  /** Reads a suggested JDK name back into the version it was made from. */
  function ParseJdkName(name: string): Option<JavaVersion> {
    var ea := EndsWith(name, "-ea");
    var body := if ea then name[..|name| - 3] else name;
    if StartsWith(body, "1.") then
      match ParseNat(body[2..])
      case Some(f) => if f < 9 then Some(JavaVersion(f, ea)) else None
      case None => None
    else
      match ParseNat(body)
      case Some(f) => if f >= 9 then Some(JavaVersion(f, ea)) else None
      case None => None
  }

  /** The suggested name identifies the version: reading it back gives the
      feature number and the early-access flag it was made from. */
  lemma SuggestedNameRoundTrip(v: JavaVersion)
    ensures ParseJdkName(SuggestJdkName(Some(v)).value) == Some(v)
  {
    var digits := NatToString(v.feature);
    var prefix := if v.feature < 9 then "1." else "";
    var name := SuggestJdkName(Some(v)).value;
    assert name == prefix + digits + (if v.ea then "-ea" else "");
    var body := if v.ea then name[..|name| - 3] else name;
    assert body == prefix + digits;
    ParseNatToString(v.feature);
    if v.feature < 9 {
      assert body[2..] == digits;
    } else {
      assert body == digits;
      assert !StartsWith(body, "1.") by {
        if |body| >= 2 { assert IsDigit(body[1]); }
      }
      assert ParseNat(body) == Some(v.feature);
    }
  }

  /** Different versions get different names. */
  lemma SuggestedNamesAreDistinct(v: JavaVersion, w: JavaVersion)
    requires SuggestJdkName(Some(v)) == SuggestJdkName(Some(w))
    ensures v == w
  {
    SuggestedNameRoundTrip(v);
    SuggestedNameRoundTrip(w);
  }

  // ---------------------------------------------------------------------------
  // The cached version string (JdkUtil.java:66-75)
  // ---------------------------------------------------------------------------

  /** The version taken from a cached JDK version string such as
      `java version "1.8.0_201"`: the text between the first and the last
      double quote. `None` means the cached string gives no answer and the
      lookup goes on to the runtime's jar files. */
  function QuotedVersion(versionString: Option<string>): (r: Option<string>)
    ensures r.Some? <==>
      && versionString.Some?
      && exists i, j :: 0 <= i < j < |versionString.value| && versionString.value[i] == '"' && versionString.value[j] == '"'
    ensures r.Some? ==> exists i :: QuotedAt(versionString.value, i, r.value)
  {
    match versionString
    case None => None
    case Some(s) =>
      var start := IndexOf(s, '"', 0);
      var end := LastIndexOf(s, '"', |s|);
      QuotePositions(s);
      if start >= 0 && end > start then
        QuotesEnclose(s, start, end);
        Some(s[start + 1..end])
      else None
  }

  /** The first and the last double quote are two different ones exactly when
      the string holds two double quotes. */
  lemma QuotePositions(s: string)
    ensures var start, end := IndexOf(s, '"', 0), LastIndexOf(s, '"', |s|);
      (start >= 0 && end > start) <==> exists i, j :: 0 <= i < j < |s| && s[i] == '"' && s[j] == '"'
  {
  }

  /** The text between the first and the last double quote is what `QuotedAt`
      describes. */
  lemma QuotesEnclose(s: string, start: int, end: int)
    requires 0 <= start < end < |s| && s[start] == '"' && s[end] == '"'
    requires forall k :: 0 <= k < start ==> s[k] != '"'
    requires forall k :: end < k < |s| ==> s[k] != '"'
    ensures QuotedAt(s, start, s[start + 1..end])
  {
  }

  /** `v` sits between the first double quote of `s`, at `i`, and the last. */
  ghost predicate QuotedAt(s: string, i: int, v: string) {
    && 0 <= i && i + |v| + 1 < |s|
    && s[i] == '"' && s[i + |v| + 1] == '"'
    && s[i + 1..i + |v| + 1] == v
    && (forall k :: 0 <= k < i ==> s[k] != '"')
    && (forall k :: i + |v| + 1 < k < |s| ==> s[k] != '"')
  }

  /** Quoting a version between quote-free text and extracting it again gives
      the version back, even when it holds quotes itself. */
  lemma QuotedVersionRoundTrip(before: string, v: string, after: string)
    requires '"' !in before && '"' !in after
    ensures QuotedVersion(Some(before + "\"" + v + "\"" + after)) == Some(v)
  {
    var s := before + "\"" + v + "\"" + after;
    var i := |before|;
    var j := |before| + |v| + 1;
    assert s[i] == '"' && s[j] == '"';
    assert forall k :: 0 <= k < i ==> s[k] == before[k];
    assert forall k :: j < k < |s| ==> s[k] == after[k - j - 1];
    assert IndexOf(s, '"', 0) == i;
    assert LastIndexOf(s, '"', |s|) == j;
    assert s[i + 1..j] == v;
  }

  // ---------------------------------------------------------------------------
  // The path of a -javaagent option (JdkUtil.java:57, 171-175)
  // ---------------------------------------------------------------------------

  const JavaAgent: string := "-javaagent"

  /** The `StringIndexOutOfBoundsException` `substring` throws. */
  datatype OutOfBounds = OutOfBounds

  /** The jar path of an option `-javaagent:<path>[=<args>]`: from index 11 up
      to the first `=` at or after index 10, or to the end. `substring` fails
      when that end lies before index 11: the option is `-javaagent` alone or
      has `=` right after the prefix. The character at index 10 is skipped
      whatever it is. */
  function JavaAgentPath(parameter: string): (r: Result<string, OutOfBounds>)
    requires StartsWith(parameter, JavaAgent)
    ensures r.Failure? <==> |parameter| == 10 || parameter[10] == '='
    ensures r.Success? ==>
      && 11 + |r.value| <= |parameter|
      && parameter[11..11 + |r.value|] == r.value
      && (forall k :: 0 <= k < |r.value| ==> r.value[k] != '=')
      && (11 + |r.value| == |parameter| || parameter[11 + |r.value|] == '=')
  {
    var agentArgsIdx := IndexOf(parameter, '=', |JavaAgent|);
    var end := if agentArgsIdx > -1 then agentArgsIdx else |parameter|;
    if end < |JavaAgent| + 1 then Failure(OutOfBounds)
    else Success(parameter[|JavaAgent| + 1..end])
  }

  /** The path written into `-javaagent:<path>` or `-javaagent:<path>=<args>`
      is the path extracted, provided that it holds no `=`. */
  lemma JavaAgentPathRoundTrip(path: string, args: Option<string>)
    requires forall k :: 0 <= k < |path| ==> path[k] != '='
    ensures var option := JavaAgent + ":" + path + (if args.Some? then "=" + args.value else "");
      StartsWith(option, JavaAgent) && JavaAgentPath(option) == Success(path)
  {
    var option := JavaAgent + ":" + path + (if args.Some? then "=" + args.value else "");
    assert option[..10] == JavaAgent;
    assert option[10] == ':';
    assert forall k :: 11 <= k < 11 + |path| ==> option[k] == path[k - 11] != '=';
    assert option[11..11 + |path|] == path;
    if args.Some? {
      assert option[11 + |path|] == '=';
      assert IndexOf(option, '=', 10) == 11 + |path|;
    } else {
      assert |option| == 11 + |path|;
      assert IndexOf(option, '=', 10) == -1;
    }
  }
}
