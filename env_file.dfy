/**
 * The env package (env.go): loading `KEY=value` lines from a file into
 * the process environment, line by line as the config package does.
 */
module EnvFile {
  import opened Wrappers
  import Config

  /**
   * `Load`: a file that cannot be opened is an error and sets nothing;
   * otherwise each line with a `=` sets the name before its first `=` to
   * the rest of the line, in line order, and the result is no error.
   */
  method Load(env: Config.Environment, file: Option<seq<string>>) returns (err: Option<Config.LoadError>)
    modifies env
    ensures file.None? ==> err == Some(Config.OpenFailed) && env.vars == old(env.vars)
    ensures file.Some? ==> err.None? && env.vars == Config.Applied(old(env.vars), file.value)
  {
    if file.None? {
      return Some(Config.OpenFailed);
    }
    var lines := file.value;
    var i := 0;
    while i < |lines|
      invariant 0 <= i <= |lines|
      invariant env.vars == Config.Applied(old(env.vars), lines[..i])
    {
      assert lines[..i + 1][..i] == lines[..i];
      var split := Config.SplitAtEquals(lines[i]);
      if split.Some? {
        var _ := env.Setenv(split.value.0, split.value.1);
      }
      i := i + 1;
    }
    assert lines[..i] == lines;
    return None;
  }

  /**
   * Loading a file twice gives what loading it once gives: every name a
   * line assigns ends with its last assignment either way.
   */
  lemma LoadIdempotent(env: map<string, string>, lines: seq<string>)
    ensures Config.Applied(Config.Applied(env, lines), lines) == Config.Applied(env, lines)
  {
    var once := Config.Applied(env, lines);
    var twice := Config.Applied(once, lines);
    forall key
      ensures (key in twice <==> key in once) && (key in once ==> twice[key] == once[key])
    {
      Config.AppliedValue(env, lines, key);
      Config.AppliedValue(once, lines, key);
    }
  }
}
