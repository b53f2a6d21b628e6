/** How the current plugin turns a container's `KEY=VALUE` environment strings into the
    Mesos metadata hash (`parse_env` and the classifier inside `get_container_metadata`
    of lib/fluent/plugin/filter_mesosphere_filter.rb). The loop that applies the
    classifier is the method `Filter.MesosphereFilter.GetContainerMetadata`; this module
    holds the specification it is proved against. */
module Metadata {
  import opened Common
  import opened Text
  import Marathon
  import Chronos

  /** The four keys the classifier can write into `task_data`. */
  datatype MetaKey = TaskId | Framework | App | TaskType

  /** The name under which a key appears in the record. */
  function KeyName(k: MetaKey): string {
    match k
    case TaskId => "mesos_task_id"
    case Framework => "mesos_framework"
    case App => "app"
    case TaskType => "chronos_task_type"
  }

  /** Different keys have different names, so writing one never overwrites another. */
  lemma KeyNameInjective(k: MetaKey, k': MetaKey)
    requires k != k'
    ensures KeyName(k) != KeyName(k')
  {
    assert |KeyName(TaskId)| == 13 && |KeyName(Framework)| == 15;
    assert |KeyName(App)| == 3 && |KeyName(TaskType)| == 17;
  }

  /** The metadata hash `task_data`. */
  type TaskData = map<MetaKey, string>

  /** The compiled `cronos_task_regex`, seen through the two groups the filter reads:
      `None` when the pattern does not match. The default is `Chronos.DefaultMatch`. */
  type ChronosMatcher = string -> Option<Chronos.ChronosMatch>

  // ---------------------------------------------------------------------------
  // parse_env
  // ---------------------------------------------------------------------------

  /** `env.split('=').last`: the last non-empty `=`-separated field, `None` (Ruby's nil)
      when the string holds nothing but `=`. */
  function ParseEnv(env: string): (r: Option<string>)
    ensures r.None? <==> forall i | 0 <= i < |env| :: env[i] == '='
    ensures r.Some? ==> r.value != [] && '=' !in r.value
  {
    LastField(env, '=')
  }

  /** `KEY=value` gives `value` when the value holds no `=`. */
  lemma ParseEnvKeyValue(key: string, value: string)
    requires value != [] && '=' !in value
    ensures ParseEnv(key + "=" + value) == Some(value)
  {
    LastFieldAfterSeparator(key, '=', value);
  }

  /** A value that itself holds `=` is cut down to its last field: the result is not
      "everything after the first `=`". */
  lemma ParseEnvKeepsLastSegment(key: string, front: string, back: string)
    requires back != [] && '=' !in back
    ensures ParseEnv(key + "=" + front + "=" + back) == Some(back)
  {
    assert key + "=" + front + "=" + back == (key + "=" + front) + "=" + back;
    ParseEnvKeyValue(key + "=" + front, back);
  }

  /** A variable with an empty value yields its own name. */
  lemma ParseEnvEmptyValue(key: string)
    requires key != [] && '=' !in key
    ensures ParseEnv(key + "=") == Some(key)
  {
    assert SplitsAround(key + "=", '=', [], key, "=");
    LastFieldComplete(key + "=", '=', key);
  }

  /** A string without `=` comes back unchanged. */
  lemma ParseEnvNoSeparator(s: string)
    requires s != [] && '=' !in s
    ensures ParseEnv(s) == Some(s)
  {
    assert SplitsAround(s, '=', [], s, []);
    LastFieldComplete(s, '=', s);
  }

  // ---------------------------------------------------------------------------
  // The classifier
  // ---------------------------------------------------------------------------

  /** `env =~ /MESOS_TASK_ID/i` (Chronos writes the name in lower case). */
  predicate IsTaskIdVar(env: string) {
    ContainsIgnoringCase(env, "mesos_task_id")
  }

  /** `env.include? 'MARATHON_APP_ID'` */
  predicate IsMarathonVar(env: string) {
    Contains(env, "MARATHON_APP_ID")
  }

  /** `env.include? 'CHRONOS_JOB_NAME'` */
  predicate IsChronosVar(env: string) {
    Contains(env, "CHRONOS_JOB_NAME")
  }

  /** `/MESOS_TASK_ID/i` matches wherever the name occurs in any mix of cases. */
  lemma TaskIdVarIff(env: string)
    ensures IsTaskIdVar(env) <==> exists j: nat :: OccursIgnoringCaseAt(env, "mesos_task_id", j)
  {
    ContainsIgnoringCaseIff(env, "mesos_task_id");
  }

  /** `include? 'MARATHON_APP_ID'` is an exact, case-sensitive occurrence. */
  lemma MarathonVarIff(env: string)
    ensures IsMarathonVar(env) <==> exists j: nat :: OccursAt(env, "MARATHON_APP_ID", j)
  {
    ContainsIff(env, "MARATHON_APP_ID");
  }

  /** `include? 'CHRONOS_JOB_NAME'` is an exact, case-sensitive occurrence. */
  lemma ChronosVarIff(env: string)
    ensures IsChronosVar(env) <==> exists j: nat :: OccursAt(env, "CHRONOS_JOB_NAME", j)
  {
    ContainsIff(env, "CHRONOS_JOB_NAME");
  }

  /** A recognised string holds a character other than `=`, so `parse_env` never
      yields nil for it. */
  lemma RecognisedHasValue(env: string)
    requires IsTaskIdVar(env) || IsMarathonVar(env) || IsChronosVar(env)
    ensures ParseEnv(env).Some?
  {
    if IsTaskIdVar(env) {
      ContainsGivesLastField(env, "mesos_task_id", '=', true);
    } else if IsMarathonVar(env) {
      ContainsGivesLastField(env, "MARATHON_APP_ID", '=', false);
    } else {
      ContainsGivesLastField(env, "CHRONOS_JOB_NAME", '=', false);
    }
  }

  /** `parse_env(env)` for a recognised string. */
  function EnvValue(env: string): (v: string)
    requires IsTaskIdVar(env) || IsMarathonVar(env) || IsChronosVar(env)
    ensures v != [] && '=' !in v
  {
    RecognisedHasValue(env);
    ParseEnv(env).value
  }

  /** What a Marathon app id writes: the framework, and the app when the pattern
      matches. */
  function MarathonUpdate(value: string): (u: TaskData)
    ensures Framework in u && u[Framework] == "marathon"
    ensures App in u <==> Marathon.MarathonApp(value).Some?
    ensures App in u ==> u[App] == Marathon.MarathonApp(value).value
    ensures u.Keys <= {Framework, App}
  {
    var app := Marathon.MarathonApp(value);
    if app.Some? then map[Framework := "marathon", App := app.value]
    else map[Framework := "marathon"]
  }

  /** What a Chronos job name writes: the framework, and the app and task type when the
      pattern matches. */
  function ChronosUpdate(value: string, chronos: ChronosMatcher): (u: TaskData)
    ensures Framework in u && u[Framework] == "chronos"
    ensures App in u <==> chronos(value).Some?
    ensures TaskType in u <==> chronos(value).Some?
    ensures App in u ==> u[App] == chronos(value).value.app && u[TaskType] == chronos(value).value.taskType
    ensures u.Keys <= {Framework, App, TaskType}
  {
    var m := chronos(value);
    if m.Some? then map[Framework := "chronos", App := m.value.app, TaskType := m.value.taskType]
    else map[Framework := "chronos"]
  }

  /** The keys one environment string writes into `task_data`, with their values: one
      step of the if/elsif chain. The task-id test comes first and shadows the two
      framework tests; a framework string always writes the framework and writes the
      app (and, for Chronos, the task type) only when its pattern matches. */
  function Update(env: string, chronos: ChronosMatcher): (u: TaskData)
    ensures TaskId in u ==> u.Keys == {TaskId}
    ensures App in u || TaskType in u ==> Framework in u
    ensures TaskType in u ==> App in u && u[Framework] == "chronos"
  {
    if IsTaskIdVar(env) then map[TaskId := EnvValue(env)]
    else if IsMarathonVar(env) then MarathonUpdate(EnvValue(env))
    else if IsChronosVar(env) then ChronosUpdate(EnvValue(env), chronos)
    else map[]
  }

  /** Which strings the chain recognises, and for which family. */
  lemma UpdateRecognises(env: string, chronos: ChronosMatcher)
    ensures TaskId in Update(env, chronos) <==> IsTaskIdVar(env)
    ensures Framework in Update(env, chronos) <==> !IsTaskIdVar(env) && (IsMarathonVar(env) || IsChronosVar(env))
  {
  }

  /** The app never appears without its framework, nor the task type without its app. */
  predicate Coherent(u: TaskData) {
    (TaskType in u ==> App in u) && (App in u ==> Framework in u)
  }

  /** Hashes laid over one another from first to last: later keys overwrite earlier ones. */
  function Overlay(us: seq<TaskData>): (r: TaskData)
    decreases |us|
  {
    if us == [] then map[] else Overlay(us[..|us| - 1]) + us[|us| - 1]
  }

  /** The update of every string, in order. */
  function Updates(envs: seq<string>, chronos: ChronosMatcher): seq<TaskData> {
    seq(|envs|, i requires 0 <= i < |envs| => Update(envs[i], chronos))
  }

  /** `task_data` after the loop has processed `envs` in order: each string's update is
      laid over the hash built so far. */
  function Classify(envs: seq<string>, chronos: ChronosMatcher): (r: TaskData)
    ensures Coherent(r)
  {
    var us := Updates(envs, chronos);
    OverlayCoherent(us);
    Overlay(us)
  }

  /** The result of `get_container_metadata`: `{}` when the container is missing, the
      classified environment otherwise. */
  function ContainerMetadata(container: Option<seq<string>>, chronos: ChronosMatcher): (r: TaskData)
    ensures Coherent(r)
    ensures container.None? ==> r == map[]
  {
    match container
    case None => map[]
    case Some(envs) => Classify(envs, chronos)
  }

  // ---------------------------------------------------------------------------
  // Overlaying
  // ---------------------------------------------------------------------------

  /** Overlaying hashes that are each coherent gives a coherent hash. */
  lemma {:induction false} OverlayCoherent(us: seq<TaskData>)
    requires forall i | 0 <= i < |us| :: Coherent(us[i])
    ensures Coherent(Overlay(us))
    decreases |us|
  {
    if us != [] {
      var init := us[..|us| - 1];
      assert forall i | 0 <= i < |init| :: init[i] == us[i];
      OverlayCoherent(init);
      assert Coherent(us[|us| - 1]);
    }
  }

  /** A key of any overlaid hash is in the result. */
  lemma {:induction false} OverlayKeepsKey(us: seq<TaskData>, k: MetaKey, j: nat)
    requires j < |us| && k in us[j]
    ensures k in Overlay(us)
    decreases |us|
  {
    var n := |us| - 1;
    if j < n {
      var init := us[..n];
      assert init[j] == us[j];
      OverlayKeepsKey(init, k, j);
    }
  }

  /** A key of the result comes from some overlaid hash. */
  lemma {:induction false} OverlayKeyWriter(us: seq<TaskData>, k: MetaKey) returns (j: nat)
    requires k in Overlay(us)
    ensures j < |us| && k in us[j]
    decreases |us|
  {
    var n := |us| - 1;
    if k in us[n] {
      j := n;
    } else {
      var init := us[..n];
      j := OverlayKeyWriter(init, k);
      assert init[j] == us[j];
    }
  }

  /** A key holds the value of the last hash that has it. */
  lemma {:induction false} OverlayLastWins(us: seq<TaskData>, k: MetaKey, j: nat)
    requires j < |us| && k in us[j]
    requires forall j' | j < j' < |us| :: k !in us[j']
    ensures k in Overlay(us) && Overlay(us)[k] == us[j][k]
    decreases |us|
  {
    var n := |us| - 1;
    if j < n {
      var init := us[..n];
      assert init[j] == us[j];
      assert forall j' | j < j' < |init| :: init[j'] == us[j'];
      OverlayLastWins(init, k, j);
    }
  }

  // ---------------------------------------------------------------------------
  // Last match wins
  // ---------------------------------------------------------------------------

  /** Processing one more string lays its update over the hash built so far: the step
      of the loop in `get_container_metadata`. */
  lemma ClassifySnoc(envs: seq<string>, env: string, chronos: ChronosMatcher)
    ensures Classify(envs + [env], chronos) == Classify(envs, chronos) + Update(env, chronos)
  {
    var us := Updates(envs + [env], chronos);
    assert us[..|us| - 1] == Updates(envs, chronos);
  }

  /** A key is present exactly when some string of the environment writes it. */
  lemma ClassifyHasKey(envs: seq<string>, chronos: ChronosMatcher, k: MetaKey)
    ensures k in Classify(envs, chronos) <==> exists j | 0 <= j < |envs| :: k in Update(envs[j], chronos)
  {
    var us := Updates(envs, chronos);
    if k in Classify(envs, chronos) {
      var j := OverlayKeyWriter(us, k);
      assert k in Update(envs[j], chronos);
    }
    if exists j | 0 <= j < |envs| :: k in Update(envs[j], chronos) {
      var j :| 0 <= j < |envs| && k in Update(envs[j], chronos);
      OverlayKeepsKey(us, k, j);
    }
  }

  /** A key holds the value written by the LAST string that writes it: strings are
      processed in the order the runtime lists them and later ones overwrite. */
  lemma ClassifyLastMatchWins(envs: seq<string>, chronos: ChronosMatcher, k: MetaKey, j: nat)
    requires j < |envs| && k in Update(envs[j], chronos)
    requires forall j' | j < j' < |envs| :: k !in Update(envs[j'], chronos)
    ensures k in Classify(envs, chronos)
    ensures Classify(envs, chronos)[k] == Update(envs[j], chronos)[k]
  {
    OverlayLastWins(Updates(envs, chronos), k, j);
  }

  /** A string that writes the task id leaves everything else as it was. */
  lemma TaskIdShadowsFrameworks(envs: seq<string>, env: string, chronos: ChronosMatcher)
    requires IsTaskIdVar(env)
    ensures Classify(envs + [env], chronos) == Classify(envs, chronos)[TaskId := EnvValue(env)]
  {
    ClassifySnoc(envs, env, chronos);
  }

  /** Order matters: a Marathon string followed by a Chronos one gives `chronos`, and
      the reverse order gives `marathon`. */
  lemma OrderDecidesFramework(m: string, c: string, chronos: ChronosMatcher)
    requires !IsTaskIdVar(m) && IsMarathonVar(m)
    requires !IsTaskIdVar(c) && IsChronosVar(c) && !IsMarathonVar(c)
    ensures Framework in Classify([m, c], chronos) && Classify([m, c], chronos)[Framework] == "chronos"
    ensures Framework in Classify([c, m], chronos) && Classify([c, m], chronos)[Framework] == "marathon"
  {
    ClassifyLastMatchWins([m, c], chronos, Framework, 1);
    ClassifyLastMatchWins([c, m], chronos, Framework, 1);
  }

  /** The framework and the app can come from different strings: a Chronos match
      followed by a Marathon id the app pattern rejects leaves the Chronos app and task
      type under the `marathon` framework. */
  lemma MixedFrameworks(c: string, m: string, chronos: ChronosMatcher)
    requires !IsTaskIdVar(c) && IsChronosVar(c) && !IsMarathonVar(c)
    requires chronos(EnvValue(c)).Some?
    requires !IsTaskIdVar(m) && IsMarathonVar(m)
    requires Marathon.MarathonApp(EnvValue(m)).None?
    ensures Framework in Classify([c, m], chronos) && Classify([c, m], chronos)[Framework] == "marathon"
    ensures App in Classify([c, m], chronos) && Classify([c, m], chronos)[App] == chronos(EnvValue(c)).value.app
    ensures TaskType in Classify([c, m], chronos) && Classify([c, m], chronos)[TaskType] == chronos(EnvValue(c)).value.taskType
  {
    ClassifyLastMatchWins([c, m], chronos, Framework, 1);
    ClassifyLastMatchWins([c, m], chronos, App, 0);
    ClassifyLastMatchWins([c, m], chronos, TaskType, 0);
  }
}
