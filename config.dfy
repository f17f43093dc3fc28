/**
 * The config package (config.go): the mode flags read from the process
 * environment, and loading `KEY=value` lines from a file into it.
 *
 * The process environment is a table from names to values that `Setenv`
 * changes in place. A file is given by its lines, as the line scanner
 * yields them, or by `None` when it cannot be opened.
 */
module Config {
  import opened Wrappers

  /** The process environment. */
  class Environment {
    var vars: map<string, string>

    constructor (vars: map<string, string>)
      ensures this.vars == vars
    {
      this.vars := vars;
    }

    /** `os.Getenv`: the value, or "" for a name that is not set. */
    function Getenv(key: string): (v: string)
      reads this
      ensures key in vars ==> v == vars[key]
      ensures key !in vars ==> v == ""
    {
      if key in vars then vars[key] else ""
    }

    /**
     * `os.Setenv`: sets the name unless the operating system refuses it
     * (an empty name, a name holding `=` or a NUL, a value holding a NUL),
     * in which case nothing changes and an error is returned.
     */
    method Setenv(key: string, value: string) returns (ok: bool)
      modifies this
      ensures ok == Accepts(key, value)
      ensures vars == Set(old(vars), key, value)
    {
      if !Accepts(key, value) {
        return false;
      }
      vars := vars[key := value];
      return true;
    }
  }

  /** The names and values the operating system accepts. */
  predicate Accepts(key: string, value: string)
  {
    key != "" && '=' !in key && '\0' !in key && '\0' !in value
  }

  /** The environment after `os.Setenv(key, value)`. */
  function Set(env: map<string, string>, key: string, value: string): (r: map<string, string>)
    ensures Accepts(key, value) ==> key in r && r[key] == value
    ensures forall k :: k != key ==> (k in r <==> k in env) && (k in env ==> r[k] == env[k])
    ensures !Accepts(key, value) ==> r == env
  {
    if Accepts(key, value) then env[key := value] else env
  }

  /** The package's configuration. */
  datatype Configuration = Configuration(inDevMode: bool, inProdMode: bool)

  /** `LoadConfigFromEnv`'s error, which is never returned. */
  datatype ConfigError = ConfigError

  /**
   * `LoadConfigFromEnv`: production mode exactly when `PROD` is "true" or
   * "1", development mode otherwise, and never an error.
   */
  function LoadConfigFromEnv(env: Environment): (r: (Configuration, Option<ConfigError>))
    reads env
    ensures r.0.inProdMode <==> "PROD" in env.vars && env.vars["PROD"] in {"true", "1"}
    ensures r.0.inDevMode <==> !r.0.inProdMode
    ensures r.1.None?
  {
    var prodVar := env.Getenv("PROD");
    var inProd := prodVar == "true" || prodVar == "1";
    (Configuration(!inProd, inProd), None)
  }

  /** Without `PROD` set the server runs in development mode. */
  lemma UnsetMeansDevelopment(env: Environment)
    requires "PROD" !in env.vars
    ensures LoadConfigFromEnv(env).0 == Configuration(true, false)
  {
  }

  /**
   * `strings.SplitN(line, "=", 2)` when it yields two parts: the text
   * before the first `=` and everything after it; `None` when the line
   * has no `=` (one part).
   */
  function SplitAtEquals(line: string): (r: Option<(string, string)>)
    ensures r.None? <==> '=' !in line
    ensures r.Some? ==> line == r.value.0 + "=" + r.value.1 && '=' !in r.value.0
  {
    if |line| == 0 then None
    else
      var rest := SplitAtEquals(line[1..]);
      if line[0] == '=' then
        Some(("", line[1..]))
      else if rest.None? then None
      else
        ConsJoined(line, rest.value.0, rest.value.1);
        Some(([line[0]] + rest.value.0, rest.value.1))
  }

  /** Putting back the first character of a line split after it. */
  lemma ConsJoined(line: string, k: string, v: string)
    requires |line| > 0 && line[1..] == k + "=" + v
    ensures line == [line[0]] + k + "=" + v
  {
    assert line == [line[0]] + line[1..];
  }

  /** A key without `=` joined to any value splits back into that key and value. */
  lemma {:induction false} SplitJoined(key: string, value: string)
    requires '=' !in key
    ensures SplitAtEquals(key + "=" + value) == Some((key, value))
  {
    if key != [] {
      assert (key + "=" + value)[1..] == key[1..] + "=" + value;
      SplitJoined(key[1..], value);
      assert [key[0]] + key[1..] == key;
    } else {
      assert key + "=" + value == "=" + value;
    }
  }

  /** The environment after the lines are applied in order, as `LoadEnv`'s loop applies them. */
  function Applied(env: map<string, string>, lines: seq<string>): map<string, string>
    decreases |lines|
  {
    if lines == [] then env
    else
      var last := lines[|lines| - 1];
      var before := Applied(env, lines[..|lines| - 1]);
      match SplitAtEquals(last)
      case None => before
      case Some((k, v)) => Set(before, k, v)
  }

  /** The value the last accepted line for `key` assigns, if any line does. */
  function LastAssignment(lines: seq<string>, key: string): Option<string>
    decreases |lines|
  {
    if lines == [] then None
    else
      var last := lines[|lines| - 1];
      match SplitAtEquals(last)
      case Some((k, v)) =>
        if k == key && Accepts(k, v) then Some(v) else LastAssignment(lines[..|lines| - 1], key)
      case None => LastAssignment(lines[..|lines| - 1], key)
  }

  /**
   * After loading, a name holds the value of the last line that assigns it
   * (so a later line wins), and a name that no line assigns keeps the
   * value, or the absence, it had: lines without `=` change nothing.
   */
  lemma {:induction false} AppliedValue(env: map<string, string>, lines: seq<string>, key: string)
    ensures LastAssignment(lines, key).Some? ==>
              key in Applied(env, lines) && Applied(env, lines)[key] == LastAssignment(lines, key).value
    ensures LastAssignment(lines, key).None? ==>
              (key in Applied(env, lines) <==> key in env) &&
              (key in env ==> Applied(env, lines)[key] == env[key])
    decreases |lines|
  {
    if lines != [] {
      AppliedValue(env, lines[..|lines| - 1], key);
    }
  }

  /** A line without `=` can be dropped from any position without changing the result. */
  lemma LineWithoutEqualsIgnored(env: map<string, string>, before: seq<string>, line: string, after: seq<string>)
    requires '=' !in line
    ensures Applied(env, before + [line] + after) == Applied(env, before + after)
  {
    forall key
      ensures LastAssignment(before + [line] + after, key) == LastAssignment(before + after, key)
    {
      LastAssignmentSkips(before, line, after, key);
    }
    SameAssignmentsSameResult(env, before + [line] + after, before + after);
  }

  lemma {:induction false} LastAssignmentSkips(before: seq<string>, line: string, after: seq<string>, key: string)
    requires '=' !in line
    ensures LastAssignment(before + [line] + after, key) == LastAssignment(before + after, key)
    decreases |after|
  {
    if after == [] {
      assert before + [line] + after == before + [line];
      assert (before + [line])[..|before + [line]| - 1] == before;
      assert before + after == before;
    } else {
      var s := before + [line] + after;
      var t := before + after;
      assert s[|s| - 1] == after[|after| - 1] == t[|t| - 1];
      assert s[..|s| - 1] == before + [line] + after[..|after| - 1];
      assert t[..|t| - 1] == before + after[..|after| - 1];
      LastAssignmentSkips(before, line, after[..|after| - 1], key);
    }
  }

  /** Two line lists with the same last assignment for every name load to the same environment. */
  lemma SameAssignmentsSameResult(env: map<string, string>, a: seq<string>, b: seq<string>)
    requires forall key :: LastAssignment(a, key) == LastAssignment(b, key)
    ensures Applied(env, a) == Applied(env, b)
  {
    forall key
      ensures (key in Applied(env, a) <==> key in Applied(env, b)) &&
              (key in Applied(env, a) ==> Applied(env, a)[key] == Applied(env, b)[key])
    {
      AppliedValue(env, a, key);
      AppliedValue(env, b, key);
    }
  }

  /** Why loading failed. */
  datatype LoadError = OpenFailed

  /**
   * `LoadEnv`: a file that cannot be opened is an error and sets nothing;
   * otherwise each line with a `=` sets the name before its first `=` to
   * the rest of the line, in line order, and the result is no error.
   */
  method LoadEnv(env: Environment, file: Option<seq<string>>) returns (err: Option<LoadError>)
    modifies env
    ensures file.None? ==> err == Some(OpenFailed) && env.vars == old(env.vars)
    ensures file.Some? ==> err.None? && env.vars == Applied(old(env.vars), file.value)
  {
    if file.None? {
      return Some(OpenFailed);
    }
    var lines := file.value;
    var i := 0;
    while i < |lines|
      invariant 0 <= i <= |lines|
      invariant env.vars == Applied(old(env.vars), lines[..i])
    {
      assert lines[..i + 1][..i] == lines[..i];
      var split := SplitAtEquals(lines[i]);
      if split.Some? {
        var _ := env.Setenv(split.value.0, split.value.1);
      }
      i := i + 1;
    }
    assert lines[..i] == lines;
    return None;
  }
}
