/** The earlier plugin, lib/fluent/plugin/mesosphere.rb. It takes the container id from
    the tag alone, looks the metadata up once per batch, keeps the Marathon app id as it
    stands, adds no timestamp and builds new record hashes instead of changing the
    stream's. A Chronos job name its pattern does not match makes `match_data['app']`
    raise, which ends the whole call: here that is a `Failure` carrying the job name. */
module Legacy {
  import opened Common
  import opened Metadata
  import opened Records
  import Marathon
  import Filter

  /** The outcome of a call that may raise. */
  datatype Result<T> = Success(value: T) | Failure(unmatched: string)

  /** `Docker::Container.get(container_id)` followed by `container.json['Config']['Env']`,
      where the id is the tag's last field and so may be nil (a tag of dots alone). */
  type LegacyDockerLookup = Option<string> -> Option<seq<string>>

  // ---------------------------------------------------------------------------
  // get_container_metadata
  // ---------------------------------------------------------------------------

  /** A string the chain hands to the Chronos branch whose job name the pattern does not
      match: the string that makes the legacy classifier raise. */
  predicate Unmatched(env: string, chronos: ChronosMatcher) {
    !IsTaskIdVar(env) && !IsMarathonVar(env) && IsChronosVar(env) && chronos(EnvValue(env)).None?
  }

  /** One step of the legacy if/elsif chain. It differs from the current one in two ways:
      the Marathon branch stores the whole app id as the app, and a Chronos job name
      without a match raises instead of recording the framework alone. On every key but
      the app the two chains agree. */
  function LegacyUpdate(env: string, chronos: ChronosMatcher): (r: Result<TaskData>)
    ensures r.Failure? <==> Unmatched(env, chronos)
    ensures r.Success? && !IsTaskIdVar(env) && IsMarathonVar(env) ==>
      App in r.value && r.value[App] == EnvValue(env)
  {
    if IsTaskIdVar(env) then Success(map[TaskId := EnvValue(env)])
    else if IsMarathonVar(env) then Success(map[Framework := "marathon", App := EnvValue(env)])
    else if IsChronosVar(env) then
      var job := chronos(EnvValue(env));
      if job.None? then Failure(EnvValue(env))
      else Success(map[Framework := "chronos", App := job.value.app, TaskType := job.value.taskType])
    else Success(map[])
  }

  /** `task_data` after the legacy loop has processed `envs` in order, or the job name
      that made it raise first. */
  function LegacyClassify(envs: seq<string>, chronos: ChronosMatcher): (r: Result<TaskData>)
    ensures r.Success? ==> Coherent(r.value)
    decreases |envs|
  {
    if envs == [] then Success(map[])
    else
      match LegacyClassify(envs[..|envs| - 1], chronos)
      case Failure(e) => Failure(e)
      case Success(m) =>
        match LegacyUpdate(envs[|envs| - 1], chronos)
        case Failure(e) => Failure(e)
        case Success(u) => Success(m + u)
  }

  /** The legacy `get_container_metadata`: `{}` for a missing container, the classified
      environment otherwise. */
  function LegacyContainerMetadata(container: Option<seq<string>>, chronos: ChronosMatcher): (r: Result<TaskData>)
    ensures container.None? ==> r == Success(map[])
  {
    match container
    case None => Success(map[])
    case Some(envs) => LegacyClassify(envs, chronos)
  }

  /** The classifier raises exactly when some string is an unmatched Chronos job name. */
  lemma {:induction false} LegacyClassifyFailsIff(envs: seq<string>, chronos: ChronosMatcher)
    ensures LegacyClassify(envs, chronos).Success? <==> forall j | 0 <= j < |envs| :: !Unmatched(envs[j], chronos)
    decreases |envs|
  {
    if envs != [] {
      var n := |envs| - 1;
      var init := envs[..n];
      LegacyClassifyFailsIff(init, chronos);
      if LegacyClassify(init, chronos).Failure? {
        assert LegacyClassify(envs, chronos).Failure?;
        var j :| 0 <= j < n && Unmatched(init[j], chronos);
        assert Unmatched(envs[j], chronos) by { assert envs[j] == init[j]; }
      } else {
        var last := envs[n];
        assert init + [last] == envs;
        LegacyClassifySnoc(init, last, chronos, LegacyClassify(init, chronos).value);
        assert LegacyClassify(envs, chronos).Success? <==> !Unmatched(last, chronos);
        assert forall j | 0 <= j < n :: !Unmatched(envs[j], chronos) by {
          assert forall j | 0 <= j < n :: envs[j] == init[j];
        }
      }
    }
  }

  /** The error is the job name of the FIRST unmatched string: the loop stops there. */
  lemma {:induction false} LegacyFailureIsFirst(envs: seq<string>, chronos: ChronosMatcher, j: nat)
    requires j < |envs| && Unmatched(envs[j], chronos)
    requires forall j' | 0 <= j' < j :: !Unmatched(envs[j'], chronos)
    ensures LegacyClassify(envs, chronos) == Failure(EnvValue(envs[j]))
    decreases |envs|
  {
    var init := envs[..|envs| - 1];
    if j < |init| {
      assert forall j' | 0 <= j' <= j :: init[j'] == envs[j'];
      LegacyFailureIsFirst(init, chronos, j);
    } else {
      assert forall j' | 0 <= j' < |init| :: init[j'] == envs[j'];
      LegacyClassifyFailsIff(init, chronos);
    }
  }

  /** Once a prefix has raised, the whole environment raises with the same job name. */
  lemma {:induction false} LegacyFailureSticks(envs: seq<string>, chronos: ChronosMatcher, i: nat)
    requires i <= |envs| && LegacyClassify(envs[..i], chronos).Failure?
    ensures LegacyClassify(envs, chronos) == LegacyClassify(envs[..i], chronos)
    decreases |envs| - i
  {
    if i < |envs| {
      assert envs[..i + 1][..i] == envs[..i];
      LegacyFailureSticks(envs, chronos, i + 1);
    } else {
      assert envs[..i] == envs;
    }
  }

  /** Removing one key distributes over laying one hash over another. */
  lemma OverlayWithout(a: TaskData, b: TaskData, k: MetaKey)
    ensures (a + b) - {k} == (a - {k}) + (b - {k})
  {
  }

  /** A step that does not raise writes what the current chain writes, the app aside. */
  lemma LegacyUpdateAgreesOffApp(env: string, chronos: ChronosMatcher)
    requires LegacyUpdate(env, chronos).Success?
    ensures LegacyUpdate(env, chronos).value - {App} == Update(env, chronos) - {App}
  {
  }

  /** When the legacy classifier succeeds it agrees with the current one on the task id,
      the framework and the task type: only the app may differ. */
  lemma {:induction false} LegacyAgreesOffApp(envs: seq<string>, chronos: ChronosMatcher)
    requires LegacyClassify(envs, chronos).Success?
    ensures LegacyClassify(envs, chronos).value - {App} == Classify(envs, chronos) - {App}
    decreases |envs|
  {
    if envs != [] {
      var init := envs[..|envs| - 1];
      var env := envs[|envs| - 1];
      LegacyAgreesOffApp(init, chronos);
      ClassifySnoc(init, env, chronos);
      assert init + [env] == envs;
      var m := LegacyClassify(init, chronos).value;
      var u := LegacyUpdate(env, chronos).value;
      LegacyUpdateAgreesOffApp(env, chronos);
      OverlayWithout(m, u, App);
      OverlayWithout(Classify(init, chronos), Update(env, chronos), App);
    }
  }

  /** Processing one more string: the step of the legacy loop. */
  lemma LegacyClassifySnoc(envs: seq<string>, env: string, chronos: ChronosMatcher, m: TaskData)
    requires LegacyClassify(envs, chronos) == Success(m)
    ensures LegacyClassify(envs + [env], chronos) ==
      match LegacyUpdate(env, chronos)
      case Failure(e) => Failure(e)
      case Success(u) => Success(m + u)
  {
    assert (envs + [env])[..|envs|] == envs;
  }

  /** Laying a Chronos update over a hash writes its three keys one after another. */
  lemma OverlayChronosKeys(m: TaskData, app: string, taskType: string)
    ensures m + map[Framework := "chronos", App := app, TaskType := taskType] ==
            m[Framework := "chronos"][App := app][TaskType := taskType]
  {
  }

  /** A step of the legacy loop for a task id string. */
  lemma LegacyTaskIdStep(envs: seq<string>, env: string, chronos: ChronosMatcher, m: TaskData)
    requires LegacyClassify(envs, chronos) == Success(m) && IsTaskIdVar(env)
    ensures LegacyClassify(envs + [env], chronos) == Success(m[TaskId := EnvValue(env)])
  {
    LegacyClassifySnoc(envs, env, chronos, m);
    var u := map[TaskId := EnvValue(env)];
    assert LegacyUpdate(env, chronos) == Success(u);
    assert m + u == m[TaskId := EnvValue(env)];
  }

  /** A step of the legacy loop for a Marathon app id string. */
  lemma LegacyMarathonStep(envs: seq<string>, env: string, chronos: ChronosMatcher, m: TaskData)
    requires LegacyClassify(envs, chronos) == Success(m) && !IsTaskIdVar(env) && IsMarathonVar(env)
    ensures LegacyClassify(envs + [env], chronos) == Success(m[Framework := "marathon"][App := EnvValue(env)])
  {
    LegacyClassifySnoc(envs, env, chronos, m);
    var u := map[Framework := "marathon", App := EnvValue(env)];
    assert LegacyUpdate(env, chronos) == Success(u);
    assert m + u == m[Framework := "marathon"][App := EnvValue(env)];
  }

  /** A step of the legacy loop for a Chronos job name the pattern matches. */
  lemma LegacyChronosStep(envs: seq<string>, env: string, chronos: ChronosMatcher, m: TaskData)
    requires LegacyClassify(envs, chronos) == Success(m)
    requires !IsTaskIdVar(env) && !IsMarathonVar(env) && IsChronosVar(env) && chronos(EnvValue(env)).Some?
    ensures var job := chronos(EnvValue(env)).value;
      LegacyClassify(envs + [env], chronos) ==
        Success(m[Framework := "chronos"][App := job.app][TaskType := job.taskType])
  {
    LegacyClassifySnoc(envs, env, chronos, m);
    var job := chronos(EnvValue(env)).value;
    var u := map[Framework := "chronos", App := job.app, TaskType := job.taskType];
    assert LegacyUpdate(env, chronos) == Success(u);
    OverlayChronosKeys(m, job.app, job.taskType);
  }

  /** A step of the legacy loop for an unmatched Chronos job name: the loop raises. */
  lemma LegacyUnmatchedStep(envs: seq<string>, env: string, chronos: ChronosMatcher, m: TaskData)
    requires LegacyClassify(envs, chronos) == Success(m) && Unmatched(env, chronos)
    ensures LegacyClassify(envs + [env], chronos) == Failure(EnvValue(env))
  {
    LegacyClassifySnoc(envs, env, chronos, m);
  }

  /** A step of the legacy loop for any other string. */
  lemma LegacyOtherStep(envs: seq<string>, env: string, chronos: ChronosMatcher, m: TaskData)
    requires LegacyClassify(envs, chronos) == Success(m)
    requires !IsTaskIdVar(env) && !IsMarathonVar(env) && !IsChronosVar(env)
    ensures LegacyClassify(envs + [env], chronos) == Success(m)
  {
    LegacyClassifySnoc(envs, env, chronos, m);
    assert LegacyUpdate(env, chronos) == Success(map[]);
    assert m + map[] == m;
  }

  /** The two versions on the plugin's Marathon test: the legacy one stores the app id
      `/hello-world` with its slash, the current one the name `hello-world`. */
  lemma MarathonIdKeepsSlash(env: string, chronos: ChronosMatcher, a: string)
    requires !IsTaskIdVar(env) && IsMarathonVar(env) && EnvValue(env) == "/" + a
    requires a == "hello-world"
    ensures LegacyClassify([env], chronos) == Success(map[Framework := "marathon", App := "/" + a])
    ensures Classify([env], chronos) == map[Framework := "marathon", App := a]
  {
    LegacyMarathonStep([], env, chronos, map[]);
    assert [] + [env] == [env];
    Marathon.HelloWorldApp(a);
    ClassifySnoc([], env, chronos);
  }

  // ---------------------------------------------------------------------------
  // filter_stream
  // ---------------------------------------------------------------------------

  /** Every event of the batch with its record rebuilt by `record.merge(mesos_data)` and,
      when enabled, `merge_json_log`. */
  function Decorate(evs: seq<Event>, meta: TaskData, mergeJson: bool, parse: JsonParser): (r: seq<Event>)
    requires mergeJson ==> Filter.LogsAreText(evs)
    ensures |r| == |evs|
  {
    seq(|evs|, i requires 0 <= i < |evs| => Event(evs[i].time, ModifyRecord(evs[i].record, meta, mergeJson, parse)))
  }

  /** What a batch turns into: the lookup's failure, or every event decorated with the
      one metadata hash of the tag's container. */
  function LegacyFilterEvents(tag: string, evs: seq<Event>, metadata: Option<string> -> Result<TaskData>,
                              mergeJson: bool, parse: JsonParser): (r: Result<seq<Event>>)
    requires mergeJson ==> Filter.LogsAreText(evs)
    ensures r.Failure? <==> metadata(Filter.ContainerIdFromTag(tag)).Failure?
    ensures r.Success? ==> |r.value| == |evs|
  {
    match metadata(Filter.ContainerIdFromTag(tag))
    case Failure(e) => Failure(e)
    case Success(meta) => Success(Decorate(evs, meta, mergeJson, parse))
  }

  /** The output batch matches the input event for event: same times, same order, all
      of the metadata present, every field the metadata does not name kept with its
      value; the record gains the metadata names and, with JSON merging on, the parsed
      keys, and nothing else (in particular no timestamp). */
  lemma DecoratedEvents(evs: seq<Event>, meta: TaskData, mergeJson: bool, parse: JsonParser, i: nat)
    requires (mergeJson ==> Filter.LogsAreText(evs)) && i < |evs|
    ensures Decorate(evs, meta, mergeJson, parse)[i].time == evs[i].time
    ensures forall n | n in evs[i].record && n !in MetaFields(meta) ::
      Decorate(evs, meta, mergeJson, parse)[i].record[n] == evs[i].record[n]
    ensures forall k | k in meta ::
      Decorate(evs, meta, mergeJson, parse)[i].record[KeyName(k)] == Str(meta[k])
    ensures Decorate(evs, meta, mergeJson, parse)[i].record.Keys ==
      evs[i].record.Keys + MetaFields(meta).Keys + if mergeJson then JsonKeys(evs[i].record, parse) else {}
  {
    var rec := ModifyRecord(evs[i].record, meta, mergeJson, parse);
    assert Decorate(evs, meta, mergeJson, parse)[i] == Event(evs[i].time, rec);
  }

  /** A batch whose tag names a container with a task id in its environment comes back in
      full, with JSON merging off, and every record carries that task id. */
  lemma LegacyBatchCarriesTaskId(tag: string, evs: seq<Event>, env: string, chronos: ChronosMatcher,
                                 docker: LegacyDockerLookup, parse: JsonParser)
    requires docker(Filter.ContainerIdFromTag(tag)) == Some([env]) && IsTaskIdVar(env)
    ensures var r := LegacyFilterEvents(tag, evs, id => LegacyContainerMetadata(docker(id), chronos), false, parse);
      r.Success? && |r.value| == |evs| &&
      forall i | 0 <= i < |evs| ::
        KeyName(TaskId) in r.value[i].record && r.value[i].record[KeyName(TaskId)] == Str(EnvValue(env))
  {
    var meta := map[TaskId := EnvValue(env)];
    LegacyTaskIdStep([], env, chronos, map[]);
    assert [] + [env] == [env];
    assert map[][TaskId := EnvValue(env)] == meta;
    forall i | 0 <= i < |evs|
      ensures Decorate(evs, meta, false, parse)[i].record[KeyName(TaskId)] == Str(EnvValue(env))
    {
      DecoratedEvents(evs, meta, false, parse, i);
    }
  }

  // ---------------------------------------------------------------------------
  // The plugin object
  // ---------------------------------------------------------------------------

  /** The legacy filter with its configuration and its metadata memo. */
  class LegacyMesosphereFilter {
    const mergeJsonLog: bool
    const chronos: ChronosMatcher
    const docker: LegacyDockerLookup
    const parse: JsonParser

    /** `@cache`: container id (nil included) to metadata, without eviction or expiry. */
    var cache: map<Option<string>, TaskData>

    /** `get_container_metadata` as a function of the container id. */
    ghost const metadata: Option<string> -> Result<TaskData>

    /** `metadata` is the Docker lookup followed by the legacy classification, and every
        memo entry is a lookup that succeeded. */
    ghost predicate Valid()
      reads this
    {
      (forall id {:trigger LegacyContainerMetadata(docker(id), chronos)} ::
        metadata(id) == LegacyContainerMetadata(docker(id), chronos)) &&
      forall id | id in cache :: metadata(id) == Success(cache[id])
    }

    constructor(mergeJsonLog: bool, chronos: ChronosMatcher, docker: LegacyDockerLookup, parse: JsonParser)
      ensures this.mergeJsonLog == mergeJsonLog && this.chronos == chronos
      ensures this.docker == docker && this.parse == parse
      ensures cache == map[] && Valid()
    {
      this.mergeJsonLog := mergeJsonLog;
      this.chronos := chronos;
      this.docker := docker;
      this.parse := parse;
      metadata := id => LegacyContainerMetadata(docker(id), chronos);
      cache := map[];
    }

    /** `get_container_metadata(id)`: the environment classified string by string,
        stopping at the first unmatched Chronos job name. */
    method GetContainerMetadata(id: Option<string>) returns (r: Result<TaskData>)
      ensures r == LegacyContainerMetadata(docker(id), chronos)
    {
      var taskData: TaskData := map[];
      var container := docker(id);
      if container.None? {
        return Success(taskData);
      }
      var environment := container.value;
      for i := 0 to |environment|
        invariant LegacyClassify(environment[..i], chronos) == Success(taskData)
      {
        var env := environment[i];
        ghost var before := taskData;
        assert environment[..i + 1] == environment[..i] + [env];
        if IsTaskIdVar(env) {
          taskData := taskData[TaskId := EnvValue(env)];
          LegacyTaskIdStep(environment[..i], env, chronos, before);
        } else if IsMarathonVar(env) {
          taskData := taskData[Framework := "marathon"];
          taskData := taskData[App := EnvValue(env)];
          LegacyMarathonStep(environment[..i], env, chronos, before);
        } else if IsChronosVar(env) {
          var matchData := chronos(EnvValue(env));
          if matchData.None? {
            LegacyUnmatchedStep(environment[..i], env, chronos, before);
            LegacyFailureSticks(environment, chronos, i + 1);
            return Failure(EnvValue(env));
          }
          taskData := taskData[Framework := "chronos"];
          taskData := taskData[App := matchData.value.app];
          taskData := taskData[TaskType := matchData.value.taskType];
          LegacyChronosStep(environment[..i], env, chronos, before);
        } else {
          LegacyOtherStep(environment[..i], env, chronos, before);
        }
      }
      assert environment[..|environment|] == environment;
      r := Success(taskData);
    }

    /** `@cache.getset(container_id)`: the memoised metadata; a miss looks the container
        up and stores the result, unless the lookup raised. */
    method GetMesosData(id: Option<string>) returns (r: Result<TaskData>)
      requires Valid()
      modifies this
      ensures Valid()
      ensures r == metadata(id)
      ensures cache == if r.Success? then old(cache)[id := r.value] else old(cache)
    {
      if id in cache {
        r := Success(cache[id]);
      } else {
        r := GetContainerMetadata(id);
        if r.Success? {
          cache := cache[id := r.value];
        }
      }
    }

    /** The loop of `filter_stream`: every event with its record rebuilt, collected
        into a new batch in order. */
    method DecorateBatch(es: seq<Event>, meta: TaskData) returns (newEs: seq<Event>)
      requires mergeJsonLog ==> Filter.LogsAreText(es)
      ensures newEs == Decorate(es, meta, mergeJsonLog, parse)
    {
      newEs := [];
      for i := 0 to |es|
        invariant |newEs| == i
        invariant forall j | 0 <= j < i ::
          newEs[j] == Event(es[j].time, ModifyRecord(es[j].record, meta, mergeJsonLog, parse))
      {
        var record := ModifyRecord(es[i].record, meta, mergeJsonLog, parse);
        newEs := newEs + [Event(es[i].time, record)];
      }
    }

    /** `filter_stream(tag, es)`: the container id from the tag, its metadata looked up
        once, then every event decorated into a new batch. */
    method FilterStream(tag: string, es: seq<Event>) returns (r: Result<seq<Event>>)
      requires Valid() && (mergeJsonLog ==> Filter.LogsAreText(es))
      modifies this
      ensures Valid()
      ensures r == LegacyFilterEvents(tag, es, metadata, mergeJsonLog, parse)
      ensures var id := Filter.ContainerIdFromTag(tag);
        cache == if metadata(id).Success? then old(cache)[id := metadata(id).value] else old(cache)
    {
      var containerId := Filter.ContainerIdFromTag(tag);
      var mesosData := GetMesosData(containerId);
      if mesosData.Failure? {
        return Failure(mesosData.unmatched);
      }
      var newEs := DecorateBatch(es, mesosData.value);
      r := Success(newEs);
    }
  }
}
