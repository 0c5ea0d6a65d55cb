/**
 * The configuration of the weaver (`transform_config.properties`): the
 * line parser that fills the global properties table, the skip predicates
 * read from it, and the lookup of an `@Inject` annotation's destination.
 */
module Util {
  import opened Strings
  import opened ClassModel

  const SKIP_PACKAGE := "skip_package"
  const SKIP_FILENAME_PREFIX := "skip_filename_prefix"
  const SKIP_FILENAME_CONTAIN := "skip_filename_contain"
  const SKIP_JAR_PATH_CONTAIN := "skip_jar_path_contain"
  const KEEP_JAR_PATH_CONTAIN := "keep_jar_path_contain"
  const TARGET_FILENAME_SUFFIX := ".class"
  const LOG_ENABLE := "log_enable"
  const KOTLIN_COMPANION_SUFFIX := "$Companion"

  /** The global `propertiesMap`: key to its comma-separated values. */
  type Properties = map<string, seq<string>>

  // ---------------------------------------------------------------------
  // parsing

  /** A line that `split("=")` cuts into exactly two pieces. */
  predicate IsSetting(line: string) {
    |Split(line, '=')| == 2
  }

  /** The effect of one line on the table. */
  function ParseLine(pm: Properties, line: string): Properties {
    if line == "" then pm
    else
      var kv := Split(line, '=');
      if |kv| == 2 then pm[kv[0] := Split(kv[1], ',')] else pm
  }

  /** The effect of the lines in file order. */
  function ParseLines(pm: Properties, lines: seq<string>): Properties
    decreases |lines|
  {
    if lines == [] then pm else ParseLines(ParseLine(pm, lines[0]), lines[1..])
  }

  /** Reference reading: the value of the LAST setting line for `key`. */
  function LastSetting(lines: seq<string>, key: string): Option<seq<string>>
    decreases |lines|
  {
    if lines == [] then None
    else
      var line := lines[|lines| - 1];
      if IsSetting(line) && Split(line, '=')[0] == key then Some(Split(Split(line, '=')[1], ','))
      else LastSetting(lines[..|lines| - 1], key)
  }

  lemma {:induction false} ParseLinesSnoc(pm: Properties, lines: seq<string>, line: string)
    ensures ParseLines(pm, lines + [line]) == ParseLine(ParseLines(pm, lines), line)
    decreases |lines|
  {
    if lines == [] {
      assert ParseLines(ParseLine(pm, line), []) == ParseLine(pm, line);
    } else {
      assert (lines + [line])[1..] == lines[1..] + [line];
      ParseLinesSnoc(ParseLine(pm, lines[0]), lines[1..], line);
    }
  }

  /**
   * After parsing, a key holds the value of its last setting line, or what
   * it held before when no line sets it; lines that are not settings
   * change nothing.
   */
  lemma {:induction false} ParseLinesLastWins(pm: Properties, lines: seq<string>, key: string)
    ensures key in ParseLines(pm, lines) <==> key in pm || LastSetting(lines, key).Some?
    ensures LastSetting(lines, key).Some? ==> ParseLines(pm, lines)[key] == LastSetting(lines, key).value
    ensures LastSetting(lines, key).None? && key in pm ==> ParseLines(pm, lines)[key] == pm[key]
    decreases |lines|
  {
    if lines != [] {
      var init := lines[..|lines| - 1];
      var line := lines[|lines| - 1];
      assert lines == init + [line];
      ParseLinesSnoc(pm, init, line);
      ParseLinesLastWins(pm, init, key);
    }
  }

  /** A setting line is one with exactly one `=`, and it is `key=value`. */
  lemma SettingShape(line: string)
    ensures IsSetting(line) <==> CountChar(line, '=') == 1
    ensures IsSetting(line) ==> line == Split(line, '=')[0] + "=" + Split(line, '=')[1]
  {
    SplitCount(line, '=');
    if IsSetting(line) {
      JoinSplit(line, '=');
      var kv := Split(line, '=');
      assert kv[1..] == [kv[1]];
    }
  }

  /** `propertiesMap[LOG_ENABLE]?.contains("true") ?: false` */
  predicate LogEnabled(pm: Properties) {
    LOG_ENABLE in pm && "true" in pm[LOG_ENABLE]
  }

  /** The globals `propertiesMap` and `logEnable`, filled by `getProperties`. */
  class Config {
    var propertiesMap: Properties
    var logEnable: bool

    constructor ()
      ensures propertiesMap == map[] && !logEnable
    {
      propertiesMap := map[];
      logEnable := false;
    }

    /**
     * `getProperties`: `content` is the lines of the configuration file,
     * or None when the file does not exist (then nothing changes).
     */
    method GetProperties(content: Option<seq<string>>)
      modifies this
      ensures content.None? ==> propertiesMap == old(propertiesMap) && logEnable == old(logEnable)
      ensures content.Some? ==> propertiesMap == ParseLines(old(propertiesMap), content.value)
      ensures content.Some? ==> (logEnable <==> LogEnabled(propertiesMap))
    {
      if content.Some? {
        var lines := content.value;
        var i := 0;
        while i < |lines|
          invariant 0 <= i <= |lines|
          invariant propertiesMap == ParseLines(old(propertiesMap), lines[..i])
        {
          var line := lines[i];
          if line != "" {
            var keyValues := Split(line, '=');
            if |keyValues| == 2 {
              propertiesMap := propertiesMap[keyValues[0] := Split(keyValues[1], ',')];
            }
          }
          ParseLinesSnoc(old(propertiesMap), lines[..i], line);
          assert lines[..i + 1] == lines[..i] + [line];
          i := i + 1;
        }
        assert lines[..i] == lines;
        logEnable := LOG_ENABLE in propertiesMap && "true" in propertiesMap[LOG_ENABLE];
      }
    }
  }

  // ---------------------------------------------------------------------
  // skip predicates

  /** The values configured for `key`, none when the key is absent. */
  function Values(pm: Properties, key: string): seq<string> {
    if key in pm then pm[key] else []
  }

  /** `forEach { if (name.startsWith(it)) return true }`, in list order. */
  function AnyPrefixOf(prefixes: seq<string>, name: string): (r: bool)
    ensures r <==> exists k :: 0 <= k < |prefixes| && StartsWith(name, prefixes[k])
  {
    if prefixes == [] then false
    else if StartsWith(name, prefixes[0]) then true
    else
      var r := AnyPrefixOf(prefixes[1..], name);
      assert forall k :: 1 <= k < |prefixes| ==> prefixes[k] == prefixes[1..][k - 1];
      r
  }

  /** `forEach { if (text.contains(it)) return true }`, in list order. */
  function AnyContainedIn(subs: seq<string>, text: string): (r: bool)
    ensures r <==> exists k :: 0 <= k < |subs| && Contains(text, subs[k])
  {
    if subs == [] then false
    else if Contains(text, subs[0]) then true
    else
      var r := AnyContainedIn(subs[1..], text);
      assert forall k :: 1 <= k < |subs| ==> subs[k] == subs[1..][k - 1];
      r
  }

  function IsFilterPackage(pm: Properties, name: string): (r: bool)
    ensures SKIP_PACKAGE !in pm ==> !r
    ensures r <==> exists k :: 0 <= k < |Values(pm, SKIP_PACKAGE)| && Values(pm, SKIP_PACKAGE)[k] == name
  {
    var packages := Values(pm, SKIP_PACKAGE);
    name in packages
  }

  function IsIgnoreFileName(pm: Properties, name: string): (r: bool)
    ensures !EndsWith(name, TARGET_FILENAME_SUFFIX) ==> r
    ensures EndsWith(name, TARGET_FILENAME_SUFFIX) ==>
      (r <==> ((exists k :: 0 <= k < |Values(pm, SKIP_FILENAME_PREFIX)| && StartsWith(name, Values(pm, SKIP_FILENAME_PREFIX)[k]))
               || (exists k :: 0 <= k < |Values(pm, SKIP_FILENAME_CONTAIN)| && Contains(name, Values(pm, SKIP_FILENAME_CONTAIN)[k]))))
    ensures SKIP_FILENAME_PREFIX !in pm && SKIP_FILENAME_CONTAIN !in pm ==> (r <==> !EndsWith(name, TARGET_FILENAME_SUFFIX))
  {
    var prefixes, contained := Values(pm, SKIP_FILENAME_PREFIX), Values(pm, SKIP_FILENAME_CONTAIN);
    if !EndsWith(name, TARGET_FILENAME_SUFFIX) then true
    else if SKIP_FILENAME_PREFIX in pm && AnyPrefixOf(pm[SKIP_FILENAME_PREFIX], name) then true
    else
      assert SKIP_FILENAME_PREFIX in pm ==> prefixes == pm[SKIP_FILENAME_PREFIX];
      assert SKIP_FILENAME_CONTAIN in pm ==> contained == pm[SKIP_FILENAME_CONTAIN];
      SKIP_FILENAME_CONTAIN in pm && AnyContainedIn(pm[SKIP_FILENAME_CONTAIN], name)
  }

  /** `isIgnoreFile`: directories and ignored names. */
  function IsIgnoreFile(pm: Properties, isDirectory: bool, name: string): (r: bool)
    ensures isDirectory ==> r
    ensures !isDirectory ==> (r <==> IsIgnoreFileName(pm, name))
  {
    isDirectory || IsIgnoreFileName(pm, name)
  }

  /** `match(path, key)`: the path contains a substring configured for key. */
  function Match(pm: Properties, path: string, key: string): (r: bool)
    ensures key !in pm ==> !r
    ensures r <==> exists k :: 0 <= k < |Values(pm, key)| && Contains(path, Values(pm, key)[k])
  {
    assert key in pm ==> Values(pm, key) == pm[key];
    key in pm && AnyContainedIn(pm[key], path)
  }

  function IsIgnoreJar(pm: Properties, path: string): (r: bool)
    ensures r <==> exists k :: 0 <= k < |Values(pm, SKIP_JAR_PATH_CONTAIN)| && Contains(path, Values(pm, SKIP_JAR_PATH_CONTAIN)[k])
  {
    Match(pm, path, SKIP_JAR_PATH_CONTAIN)
  }

  function IsKeepJar(pm: Properties, path: string): (r: bool)
    ensures r <==> exists k :: 0 <= k < |Values(pm, KEEP_JAR_PATH_CONTAIN)| && Contains(path, Values(pm, KEEP_JAR_PATH_CONTAIN)[k])
  {
    Match(pm, path, KEEP_JAR_PATH_CONTAIN)
  }

  // ---------------------------------------------------------------------
  // destination of a directive

  /**
   * `getInjectTargetClassName`: the `classPath` string if non-empty, else the
   * class-valued `target`, else "".
   */
  function TargetClassName(a: Inject): (r: string)
    ensures a.classPath != "" ==> r == a.classPath
    ensures r == "" <==> a.classPath == "" && (a.target.None? || a.target.value == "")
    ensures r != "" && a.classPath == "" ==> a.target == Some(r)
  {
    if a.classPath != "" then a.classPath
    else match a.target
      case Some(t) => t
      case None => ""
  }
}
