/**
 * The command: which registered checks are enabled, given the GitHub Actions
 * input variables in the environment, and the verdict of one run over a
 * loaded schema.
 */
module Lint {
  import opened Wrappers
  import opened Catalog
  import opened Checks

  // ---------------------------------------------------------------------------
  // Input variable names
  // ---------------------------------------------------------------------------

  predicate IsLowerAscii(c: char) {
    'a' <= c <= 'z'
  }

  /** The replacer's rewriting of one character: "-" and " " become "_". */
  function Separator(c: char): char {
    if c == '-' || c == ' ' then '_' else c
  }

  /** `strings.ToUpper` on one character, restricted to ASCII. */
  function UpperAscii(c: char): char {
    if IsLowerAscii(c) then (c as int - 32) as char else c
  }

  /** `strings.NewReplacer("-", "_", " ", "_").Replace(name)`. */
  function ReplaceSeparators(name: string): (r: string)
    ensures |r| == |name|
    ensures forall i :: 0 <= i < |r| ==> r[i] != '-' && r[i] != ' '
    ensures forall i :: 0 <= i < |r| ==> r[i] == Separator(name[i])
  {
    seq(|name|, i requires 0 <= i < |name| => Separator(name[i]))
  }

  /** `strings.ToUpper(s)` for ASCII text. */
  function ToUpperAscii(s: string): (r: string)
    ensures |r| == |s|
    ensures forall i :: 0 <= i < |r| ==> !IsLowerAscii(r[i])
    ensures forall i :: 0 <= i < |r| ==> r[i] == UpperAscii(s[i])
  {
    seq(|s|, i requires 0 <= i < |s| => UpperAscii(s[i]))
  }

  /** The environment variable through which GitHub Actions passes the input `name`. */
  function GithubActionsInputEnvVar(name: string): (v: string)
    ensures |v| == |name| + 6
    ensures v[..6] == "INPUT_"
    ensures forall i :: 6 <= i < |v| ==> v[i] != '-' && v[i] != ' ' && !IsLowerAscii(v[i])
  {
    "INPUT_" + ToUpperAscii(ReplaceSeparators(name))
  }

  /** The character a name character stands for in its variable. */
  function Canonical(c: char): char {
    UpperAscii(Separator(c))
  }

  /**
   * Two names share a variable exactly when they agree up to the separators
   * "-", " ", "_" and ASCII case.
   */
  lemma SameVariableIffSameCanonicalName(a: string, b: string)
    ensures GithubActionsInputEnvVar(a) == GithubActionsInputEnvVar(b) <==>
      |a| == |b| && forall i :: 0 <= i < |a| ==> Canonical(a[i]) == Canonical(b[i])
  {
    var va, vb := GithubActionsInputEnvVar(a), GithubActionsInputEnvVar(b);
    if va == vb {
      forall i | 0 <= i < |a| ensures Canonical(a[i]) == Canonical(b[i]) {
        assert va[i + 6] == vb[i + 6];
      }
    }
    if |a| == |b| && forall i :: 0 <= i < |a| ==> Canonical(a[i]) == Canonical(b[i]) {
      forall i | 0 <= i < |va| ensures va[i] == vb[i] {
        if i >= 6 {
          assert va[i] == Canonical(a[i - 6]) && vb[i] == Canonical(b[i - 6]);
        }
      }
    }
  }

  /** The variable that disables `require_not_null`. */
  lemma RequireNotNullVariable()
    ensures GithubActionsInputEnvVar("require_not_null") == "INPUT_REQUIRE_NOT_NULL"
    ensures GithubActionsInputEnvVar("require-not-null") == "INPUT_REQUIRE_NOT_NULL"
  {
    UnderscoreSpelling();
    HyphenSpelling();
  }

  lemma UnderscoreSpelling()
    ensures GithubActionsInputEnvVar("require_not_null") == "INPUT_REQUIRE_NOT_NULL"
  {
    VariableOfCanonicalName("require_not_null", "REQUIRE_NOT_NULL");
  }

  lemma HyphenSpelling()
    ensures GithubActionsInputEnvVar("require-not-null") == "INPUT_REQUIRE_NOT_NULL"
  {
    VariableOfCanonicalName("require-not-null", "REQUIRE_NOT_NULL");
  }

  /** The variable of `name` is "INPUT_" followed by the canonical characters of `name`. */
  lemma VariableOfCanonicalName(name: string, canonical: string)
    requires |name| == |canonical| && forall i :: 0 <= i < |name| ==> Canonical(name[i]) == canonical[i]
    ensures GithubActionsInputEnvVar(name) == "INPUT_" + canonical
  {
    var v := GithubActionsInputEnvVar(name);
    assert forall i :: 6 <= i < |v| ==> v[i] == canonical[i - 6];
    assert v[..6] == "INPUT_";
  }

  /** The five checks are controlled by five different variables. */
  lemma RegistryVariablesDistinct()
    ensures forall k1, k2 :: k1 in Checks.Checks && k2 in Checks.Checks && k1 != k2 ==>
      GithubActionsInputEnvVar(k1) != GithubActionsInputEnvVar(k2)
  {
    forall k1, k2 | k1 in Checks.Checks && k2 in Checks.Checks && k1 != k2
      ensures GithubActionsInputEnvVar(k1) != GithubActionsInputEnvVar(k2)
    {
      assert |k1| != |k2|;
      DifferentLengthsDifferentVariables(k1, k2);
    }
  }

  lemma DifferentLengthsDifferentVariables(a: string, b: string)
    requires |a| != |b|
    ensures GithubActionsInputEnvVar(a) != GithubActionsInputEnvVar(b)
  {
  }

  // ---------------------------------------------------------------------------
  // Activation
  // ---------------------------------------------------------------------------

  /** A check runs unless its variable is set to exactly "false". */
  predicate IsCheckEnabled(c: Check, env: map<string, string>) {
    var key := GithubActionsInputEnvVar(c.name);
    key !in env || env[key] != "false"
  }

  /**
   * Setting a registered check's variable to `value` disables that check exactly
   * when `value` is "false" ("FALSE" and "0" leave it enabled) and leaves every
   * other registered check as it was.
   */
  lemma SettingVariable(env: map<string, string>, name: string, value: string)
    requires name in Checks.Checks
    ensures
      var env' := env[GithubActionsInputEnvVar(name) := value];
      && (IsCheckEnabled(Checks.Checks[name], env') <==> value != "false")
      && forall k :: k in Checks.Checks && k != name ==> (IsCheckEnabled(Checks.Checks[k], env') <==> IsCheckEnabled(Checks.Checks[k], env))
  {
    forall k | k in Checks.Checks && k != name
      ensures IsCheckEnabled(Checks.Checks[k], env[GithubActionsInputEnvVar(name) := value]) <==> IsCheckEnabled(Checks.Checks[k], env)
    {
      OtherVariableUntouched(env, name, value, k);
    }
    assert Checks.Checks[name].name == name;
  }

  lemma OtherVariableUntouched(env: map<string, string>, name: string, value: string, k: string)
    requires name in Checks.Checks && k in Checks.Checks && k != name
    ensures IsCheckEnabled(Checks.Checks[k], env[GithubActionsInputEnvVar(name) := value]) <==> IsCheckEnabled(Checks.Checks[k], env)
  {
    assert Checks.Checks[k].name == k;
    assert |k| != |name|;
    DifferentLengthsDifferentVariables(k, name);
  }

  // ---------------------------------------------------------------------------
  // The run
  // ---------------------------------------------------------------------------

  /** The end of a run: success, lint errors found, or a panic on a check that failed to execute. */
  datatype Outcome = Passed | Failed | Aborted(err: string)

  /** Check `c` is enabled and returns at least one row. */
  predicate Reports(c: Check, p: Pragmas, env: map<string, string>) {
    IsCheckEnabled(c, env) && Execute(c, p).Success? && |Execute(c, p).value| > 0
  }

  /** Check `c` is enabled and fails to execute. */
  predicate Breaks(c: Check, p: Pragmas, env: map<string, string>) {
    IsCheckEnabled(c, env) && Execute(c, p).Failure?
  }

  /** Some enabled check reports a violation. */
  predicate RunFails(p: Pragmas, env: map<string, string>) {
    exists k :: k in Checks.Checks && Reports(Checks.Checks[k], p, env)
  }

  /** Some enabled check fails to execute. */
  predicate RunAborts(p: Pragmas, env: map<string, string>) {
    exists k :: k in Checks.Checks && Breaks(Checks.Checks[k], p, env)
  }

  /**
   * The loop of `main` over the registry, whose iteration order is arbitrary:
   * disabled checks are skipped, a check that fails to execute aborts the run,
   * and the run fails iff some enabled check returns a row. Whatever the order,
   * the verdict is the same.
   */
  method LintSchema(p: Pragmas, env: map<string, string>) returns (outcome: Outcome)
    ensures outcome.Aborted? <==> RunAborts(p, env)
    ensures outcome.Aborted? ==>
      exists k :: k in Checks.Checks && IsCheckEnabled(Checks.Checks[k], env) && Execute(Checks.Checks[k], p) == Failure(outcome.err)
    ensures !outcome.Aborted? ==> (outcome == Failed <==> RunFails(p, env))
  {
    var isFailure := false;
    var remaining := Checks.Checks.Keys;
    while remaining != {}
      invariant remaining <= Checks.Checks.Keys
      invariant forall k :: k in Checks.Checks.Keys - remaining ==> !Breaks(Checks.Checks[k], p, env)
      invariant isFailure <==> exists k :: k in Checks.Checks.Keys - remaining && Reports(Checks.Checks[k], p, env)
      decreases remaining
    {
      var name :| name in remaining;
      remaining := remaining - {name};
      var check := Checks.Checks[name];
      if !IsCheckEnabled(check, env) {
        continue;
      }
      var results := Execute(check, p);
      if results.Failure? {
        return Aborted(results.error);
      }
      if |results.value| > 0 {
        isFailure := true;
      }
    }
    outcome := if isFailure then Failed else Passed;
  }

  /** Disabling a check can turn a failing run into a passing one, never the reverse. */
  lemma DisablingNeverAddsFailures(p: Pragmas, env: map<string, string>, name: string)
    requires name in Checks.Checks
    ensures
      var env' := env[GithubActionsInputEnvVar(name) := "false"];
      && (RunFails(p, env') ==> RunFails(p, env))
      && (RunAborts(p, env') ==> RunAborts(p, env))
  {
    var env' := env[GithubActionsInputEnvVar(name) := "false"];
    SettingVariable(env, name, "false");
    if RunFails(p, env') {
      var k :| k in Checks.Checks && Reports(Checks.Checks[k], p, env');
      assert Reports(Checks.Checks[k], p, env);
    }
    if RunAborts(p, env') {
      var k :| k in Checks.Checks && Breaks(Checks.Checks[k], p, env');
      assert Breaks(Checks.Checks[k], p, env);
    }
  }

  /** With every check's variable set to "false" nothing runs, so the run passes. */
  lemma AllDisabledPasses(p: Pragmas, env: map<string, string>)
    requires forall k :: k in Checks.Checks ==>
      GithubActionsInputEnvVar(k) in env && env[GithubActionsInputEnvVar(k)] == "false"
    ensures !RunFails(p, env) && !RunAborts(p, env)
  {
    RegistryShape();
  }

  /**
   * A run aborts exactly when some enabled check's query makes the engine fail,
   * or `require_explicit_primary_key` is enabled on a schema with a 'table'
   * entry missing from table_list.
   */
  lemma AbortCauses(p: Pragmas, env: map<string, string>)
    ensures RunAborts(p, env) <==>
      exists k :: k in Checks.Checks && IsCheckEnabled(Checks.Checks[k], env)
        && (k in p.queryErrors || (Checks.Checks[k].rule == ExplicitPrimaryKey && HasUnlistedTable(p.schema, p.tableList)))
  {
    forall k | k in Checks.Checks
      ensures Execute(Checks.Checks[k], p).Failure? <==>
        k in p.queryErrors || (Checks.Checks[k].rule == ExplicitPrimaryKey && HasUnlistedTable(p.schema, p.tableList))
    {
      assert Checks.Checks[k].name == k;
      ExecuteFailure(Checks.Checks[k], p);
    }
  }

  /**
   * On a schema whose 'table' entries are all listed by table_list, and whose
   * queries the engine runs, the run never aborts, and it fails exactly when the
   * query of some enabled check returns a row.
   */
  lemma VerdictOnListedSchema(p: Pragmas, env: map<string, string>)
    requires !HasUnlistedTable(p.schema, p.tableList)
    requires forall k :: k in Checks.Checks ==> k !in p.queryErrors
    ensures !RunAborts(p, env)
    ensures RunFails(p, env) <==>
      exists k :: k in Checks.Checks && IsCheckEnabled(Checks.Checks[k], env) && Query(Checks.Checks[k].rule, p) != []
  {
    forall k | k in Checks.Checks ensures Execute(Checks.Checks[k], p).Success? {
      assert Checks.Checks[k].name == k;
      ExecuteFailure(Checks.Checks[k], p);
    }
  }

  /** On a clean schema whose queries the engine runs, the run passes whatever the environment. */
  lemma CleanSchemaPasses(p: Pragmas, env: map<string, string>)
    requires IsCleanSchema(p)
    requires forall k :: k in Checks.Checks ==> k !in p.queryErrors
    ensures !RunFails(p, env) && !RunAborts(p, env)
  {
    PassesEveryRuleIffClean(p);
    VerdictOnListedSchema(p, env);
    forall k | k in Checks.Checks ensures Query(Checks.Checks[k].rule, p) == [] {
      match Checks.Checks[k].rule
      case NotNull =>
      case Strict =>
      case IntType =>
      case ExplicitPrimaryKey =>
      case IndexedForeignKeys =>
    }
  }
}
