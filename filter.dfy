/** The current plugin's stream filter (lib/fluent/plugin/filter_mesosphere_filter.rb):
    the container id taken from the tag or from the records, the metadata looked up
    through a per-container memo, the timestamp written into each record, and
    `modify_record` applied to it. The methods of `MesosphereFilter` are proved against
    the functions of this module. */
module Filter {
  import opened Common
  import opened Text
  import opened Metadata
  import opened Records
  import Timestamp
  import Marathon

  /** The plugin's configuration parameters that the filter reads. */
  datatype Config = Config(
    getContainerIdTag: bool,
    containerIdAttr: string,
    timestampKey: string,
    mergeJsonLog: bool)

  /** The defaults of `get_container_id_tag`, `container_id_attr`, `timestamp_key` and
      `merge_json_log`. */
  const DefaultConfig: Config := Config(true, "container_id", "@timestamp", true)

  /** `Docker::Container.get(id)` followed by `container.json['Config']['Env']`: the
      environment of the container, or `None` when there is no such container. */
  type DockerLookup = string -> Option<seq<string>>

  /** The metadata of the container with a given id: `get_mesos_data`, which the
      plugin object below ties to `ContainerMetadata`. */
  type MetadataLookup = string -> TaskData

  // ---------------------------------------------------------------------------
  // Container ids
  // ---------------------------------------------------------------------------

  /** `get_container_id_from_tag(tag)`: the last `.`-separated field of the tag. */
  function ContainerIdFromTag(tag: string): (r: Option<string>)
    ensures r.None? <==> forall i | 0 <= i < |tag| :: tag[i] == '.'
    ensures r.Some? ==> r.value != [] && '.' !in r.value
  {
    LastField(tag, '.')
  }

  /** A Docker log tag `<prefix>.<container id>` names the container. */
  lemma ContainerIdFromDockerTag(prefix: string, id: string)
    requires id != [] && '.' !in id
    ensures ContainerIdFromTag(prefix + "." + id) == Some(id)
  {
    LastFieldAfterSeparator(prefix, '.', id);
  }

  /** The container id field, when present, holds a string, JSON null (Ruby's nil) or
      `false`: the values the loop either keeps as an id or skips the record for. True,
      numbers, arrays and objects are outside the model. */
  predicate IdIsText(record: Record, attr: string) {
    attr in record ==> record[attr].Str? || record[attr].Null? || record[attr] == Bool(false)
  }

  /** `get_container_id_from_record(record)`: the string under `container_id_attr`, or
      `None` when the record lacks the field or holds JSON null or `false` there, the
      two values on which `next unless container_id` skips the record. */
  function ContainerIdFromRecord(record: Record, attr: string): (r: Option<string>)
    ensures r.Some? <==> attr in record && record[attr].Str?
    ensures r.Some? ==> record[attr] == Str(r.value)
    ensures IdIsText(record, attr) ==> (r.None? <==> attr !in record || record[attr] == Null || record[attr] == Bool(false))
  {
    if attr in record && record[attr].Str? then Some(record[attr].s) else None
  }

  /** The id the loop starts with: the tag's id in tag mode, the empty string otherwise. */
  function InitialId(config: Config, tag: string): (r: Option<string>)
    ensures config.getContainerIdTag ==> (r.None? <==> forall i | 0 <= i < |tag| :: tag[i] == '.')
    ensures !config.getContainerIdTag ==> r == Some("")
  {
    if config.getContainerIdTag then ContainerIdFromTag(tag) else Some("")
  }

  /** The id held after one record: an empty id is replaced by the record's own id; any
      other id is kept. A missing id (nil or `false` in Ruby) is never reached under
      `NeverNil` (Ruby would call `empty?` on it there). */
  function NextId(cur: Option<string>, record: Record, attr: string): (r: Option<string>)
    ensures cur.Some? && cur.value != "" ==> r == cur
    ensures cur == Some("") ==> (r.Some? <==> attr in record && record[attr].Str?)
    ensures cur == Some("") && r.Some? ==> record[attr] == Str(r.value)
    ensures cur.None? ==> r.None?
  {
    match cur
    case None => None
    case Some(c) => if c == "" then ContainerIdFromRecord(record, attr) else cur
  }

  /** Every record's `log` field, if any, is a string. */
  predicate LogsAreText(evs: seq<Event>) {
    forall i | 0 <= i < |evs| :: LogIsText(evs[i].record)
  }

  /** With `merge_json_log` on, the `log` field that `merge_json_log` strips is a string
      once the record has been stamped: a stamp written under `log` replaces whatever
      the field held, so only another timestamp key leaves the record's own value there. */
  predicate LogReadable(config: Config, record: Record) {
    config.mergeJsonLog && config.timestampKey != LogKey ==> LogIsText(record)
  }

  /** Every record's `log` field is readable in the sense of `LogReadable`. */
  predicate LogsReadable(config: Config, evs: seq<Event>) {
    forall i | 0 <= i < |evs| :: LogReadable(config, evs[i].record)
  }

  /** The id the loop holds after the first `n` records of `evs`, starting from `start`. */
  function IdAt(start: Option<string>, evs: seq<Event>, attr: string, n: nat): Option<string>
    requires n <= |evs|
    decreases n
  {
    if n == 0 then start else NextId(IdAt(start, evs, attr, n - 1), evs[n - 1].record, attr)
  }

  /** Every record whose id field the loop reads (one reached with the empty id) holds a
      string, JSON null, `false` or nothing there; no other record's id field matters. */
  predicate IdsReadable(start: Option<string>, evs: seq<Event>, attr: string) {
    forall i | 0 <= i < |evs| && IdAt(start, evs, attr, i) == Some("") :: IdIsText(evs[i].record, attr)
  }

  /** Every record is reached with a non-nil id; only the last record may end up with
      none (and is then skipped). */
  predicate NeverNil(start: Option<string>, evs: seq<Event>, attr: string)
  {
    forall i | 0 <= i < |evs| :: IdAt(start, evs, attr, i).Some?
  }

  // ---------------------------------------------------------------------------
  // The emitted events
  // ---------------------------------------------------------------------------

  /** The record after `record[@timestamp_key] = generate_time_stamp(time)`. */
  function Stamped(config: Config, record: Record, time: nat): (r: Record)
    ensures r.Keys == record.Keys + {config.timestampKey}
    ensures forall k | k in record && k != config.timestampKey :: r[k] == record[k]
    ensures r[config.timestampKey] == Str(Timestamp.Stamp(time))
    ensures LogIsText(record) ==> LogIsText(r)
    ensures config.mergeJsonLog ==> (LogIsText(r) <==> LogReadable(config, record))
  {
    record[config.timestampKey := Str(Timestamp.Stamp(time))]
  }

  /** The event emitted for a record with container metadata `meta`. */
  function Emit(config: Config, ev: Event, meta: TaskData, parse: JsonParser): (r: Event)
    requires LogReadable(config, ev.record)
    ensures r.time == ev.time
  {
    Event(ev.time, ModifyRecord(Stamped(config, ev.record, ev.time), meta, config.mergeJsonLog, parse))
  }

  /** The values of the present entries of `xs`, in order. */
  function Present<T>(xs: seq<Option<T>>): (r: seq<T>)
    ensures |r| <= |xs|
    decreases |xs|
  {
    if xs == [] then []
    else
      var last := xs[|xs| - 1];
      Present(xs[..|xs| - 1]) + if last.Some? then [last.value] else []
  }

  /** Appending an entry appends its value, if present. */
  lemma PresentSnoc<T>(xs: seq<Option<T>>, x: Option<T>)
    ensures Present(xs + [x]) == Present(xs) + if x.Some? then [x.value] else []
  {
    assert (xs + [x])[..|xs|] == xs;
  }

  /** When only the last entry may be missing, the present values are the entries
      themselves, in the same positions. */
  lemma {:induction false} PresentInOrder<T>(xs: seq<Option<T>>)
    requires forall i | 0 <= i < |xs| - 1 :: xs[i].Some?
    ensures |Present(xs)| == if xs != [] && xs[|xs| - 1].None? then |xs| - 1 else |xs|
    ensures forall i | 0 <= i < |Present(xs)| :: xs[i].Some? && Present(xs)[i] == xs[i].value
    decreases |xs|
  {
    if xs != [] {
      var init := xs[..|xs| - 1];
      assert forall i | 0 <= i < |init| :: init[i] == xs[i];
      PresentInOrder(init);
      assert |Present(init)| == |init|;
    }
  }

  /** What the loop emits for record `j`: the stamped record with the metadata of the
      id the loop holds for it, or nothing when it holds none. */
  function Candidate(config: Config, start: Option<string>, evs: seq<Event>, j: nat,
                     meta: MetadataLookup, parse: JsonParser): Option<Event>
    requires LogsReadable(config, evs) && j < |evs|
  {
    var id := IdAt(start, evs, config.containerIdAttr, j + 1);
    if id.Some? then Some(Emit(config, evs[j], meta(id.value), parse)) else None
  }

  /** The candidates of the first `n` records, one per record. */
  function Candidates(config: Config, start: Option<string>, evs: seq<Event>, n: nat,
                      meta: MetadataLookup, parse: JsonParser): (cs: seq<Option<Event>>)
    requires LogsReadable(config, evs) && n <= |evs|
    ensures |cs| == n
    decreases n
  {
    if n == 0 then []
    else Candidates(config, start, evs, n - 1, meta, parse) + [Candidate(config, start, evs, n - 1, meta, parse)]
  }

  /** Entry `i` of the candidates is the candidate of record `i`. */
  lemma {:induction false} CandidateAt(config: Config, start: Option<string>, evs: seq<Event>, n: nat,
                                      meta: MetadataLookup, parse: JsonParser, i: nat)
    requires LogsReadable(config, evs) && i < n <= |evs|
    ensures Candidates(config, start, evs, n, meta, parse)[i] == Candidate(config, start, evs, i, meta, parse)
    decreases n
  {
    var init := Candidates(config, start, evs, n - 1, meta, parse);
    assert Candidates(config, start, evs, n, meta, parse) == init + [Candidate(config, start, evs, n - 1, meta, parse)];
    if i < n - 1 {
      CandidateAt(config, start, evs, n - 1, meta, parse, i);
    }
  }

  /** What `filter_stream` emits for the first `n` events of `evs` when the loop starts
      with the id `start`: the candidates of those records, in order. */
  function FilterEvents(config: Config, start: Option<string>, evs: seq<Event>, n: nat,
                        meta: MetadataLookup, parse: JsonParser): (r: seq<Event>)
    requires LogsReadable(config, evs) && n <= |evs|
    ensures |r| <= n
    decreases n
  {
    if n == 0 then []
    else
      var c := Candidate(config, start, evs, n - 1, meta, parse);
      FilterEvents(config, start, evs, n - 1, meta, parse) + if c.Some? then [c.value] else []
  }

  /** The emitted events are the present candidates. */
  lemma {:induction false} FilterEventsArePresent(config: Config, start: Option<string>, evs: seq<Event>, n: nat,
                                                 meta: MetadataLookup, parse: JsonParser)
    requires LogsReadable(config, evs) && n <= |evs|
    ensures FilterEvents(config, start, evs, n, meta, parse) == Present(Candidates(config, start, evs, n, meta, parse))
    decreases n
  {
    if n > 0 {
      FilterEventsArePresent(config, start, evs, n - 1, meta, parse);
      var cs := Candidates(config, start, evs, n - 1, meta, parse);
      var c := Candidate(config, start, evs, n - 1, meta, parse);
      PresentSnoc(cs, c);
    }
  }

  // ---------------------------------------------------------------------------
  // Properties of the filter
  // ---------------------------------------------------------------------------

  /** Output event `i` is input event `i` with its timestamp and the metadata of the
      container whose id the loop holds for it. */
  predicate EmittedFrom(config: Config, start: Option<string>, evs: seq<Event>, out: seq<Event>,
                        meta: MetadataLookup, parse: JsonParser, i: nat)
    requires LogsReadable(config, evs) && i < |out|
  {
    i < |evs| && IdAt(start, evs, config.containerIdAttr, i + 1).Some? &&
    out[i] == Emit(config, evs[i], meta(IdAt(start, evs, config.containerIdAttr, i + 1).value), parse)
  }

  /** Every output event is the event of the input event at the same position. */
  predicate InInputOrder(config: Config, start: Option<string>, evs: seq<Event>, out: seq<Event>,
                         meta: MetadataLookup, parse: JsonParser)
    requires LogsReadable(config, evs)
  {
    forall i | 0 <= i < |out| :: EmittedFrom(config, start, evs, out, meta, parse, i)
  }

  /** Under `NeverNil` every record but the last has an event. */
  lemma CandidatesBeforeLast(config: Config, start: Option<string>, evs: seq<Event>, n: nat,
                             meta: MetadataLookup, parse: JsonParser)
    requires LogsReadable(config, evs) && n <= |evs|
    requires NeverNil(start, evs, config.containerIdAttr)
    ensures forall i | 0 <= i < n - 1 :: Candidates(config, start, evs, n, meta, parse)[i].Some?
  {
    var cs := Candidates(config, start, evs, n, meta, parse);
    forall i | 0 <= i < |cs| - 1 ensures cs[i].Some? {
      CandidateAt(config, start, evs, n, meta, parse, i);
      assert IdAt(start, evs, config.containerIdAttr, i + 1).Some?;
    }
  }

  /** Only the last record can be dropped, when the loop holds no id for it. */
  lemma FilterEventsLength(config: Config, start: Option<string>, evs: seq<Event>, n: nat,
                           meta: MetadataLookup, parse: JsonParser)
    requires LogsReadable(config, evs) && n <= |evs|
    requires NeverNil(start, evs, config.containerIdAttr)
    ensures |FilterEvents(config, start, evs, n, meta, parse)| ==
            if n > 0 && IdAt(start, evs, config.containerIdAttr, n).None? then n - 1 else n
    ensures n < |evs| ==> |FilterEvents(config, start, evs, n, meta, parse)| == n
  {
    var cs := Candidates(config, start, evs, n, meta, parse);
    CandidatesBeforeLast(config, start, evs, n, meta, parse);
    PresentInOrder(cs);
    FilterEventsArePresent(config, start, evs, n, meta, parse);
  }

  /** Nothing is reordered: output event `i` comes from input event `i`. */
  lemma FilterEventsInOrder(config: Config, start: Option<string>, evs: seq<Event>, n: nat,
                            meta: MetadataLookup, parse: JsonParser)
    requires LogsReadable(config, evs) && n <= |evs|
    requires NeverNil(start, evs, config.containerIdAttr)
    ensures InInputOrder(config, start, evs, FilterEvents(config, start, evs, n, meta, parse), meta, parse)
  {
    var out := FilterEvents(config, start, evs, n, meta, parse);
    forall i | 0 <= i < |out|
      ensures EmittedFrom(config, start, evs, out, meta, parse, i)
    {
      OutputEvent(config, start, evs, n, meta, parse, i);
    }
  }

  /** Output event `i` is the event emitted for input event `i`. */
  lemma OutputEvent(config: Config, start: Option<string>, evs: seq<Event>, n: nat,
                    meta: MetadataLookup, parse: JsonParser, i: nat)
    requires LogsReadable(config, evs) && n <= |evs|
    requires NeverNil(start, evs, config.containerIdAttr)
    requires i < |FilterEvents(config, start, evs, n, meta, parse)|
    ensures EmittedFrom(config, start, evs, FilterEvents(config, start, evs, n, meta, parse), meta, parse, i)
  {
    var cs := Candidates(config, start, evs, n, meta, parse);
    PresentCandidates(config, start, evs, n, meta, parse);
    CandidateAt(config, start, evs, n, meta, parse, i);
    assert LogReadable(config, evs[i].record);
  }

  /** Under `NeverNil` output event `i` is candidate `i`. */
  lemma PresentCandidates(config: Config, start: Option<string>, evs: seq<Event>, n: nat,
                          meta: MetadataLookup, parse: JsonParser)
    requires LogsReadable(config, evs) && n <= |evs|
    requires NeverNil(start, evs, config.containerIdAttr)
    ensures var cs := Candidates(config, start, evs, n, meta, parse);
      var out := FilterEvents(config, start, evs, n, meta, parse);
      |out| <= |cs| && forall i | 0 <= i < |out| :: cs[i].Some? && out[i] == cs[i].value
  {
    var cs := Candidates(config, start, evs, n, meta, parse);
    CandidatesBeforeLast(config, start, evs, n, meta, parse);
    PresentInOrder(cs);
    FilterEventsArePresent(config, start, evs, n, meta, parse);
  }

  /** In tag mode with a tag that names a container, the loop holds the tag's id
      throughout, whatever the records' id fields say. */
  lemma {:induction false} TagIdForEveryRecord(config: Config, tag: string, evs: seq<Event>, n: nat)
    requires config.getContainerIdTag && ContainerIdFromTag(tag).Some?
    requires n <= |evs|
    ensures IdAt(InitialId(config, tag), evs, config.containerIdAttr, n) == ContainerIdFromTag(tag)
    decreases n
  {
    if n > 0 {
      TagIdForEveryRecord(config, tag, evs, n - 1);
    }
  }

  /** In tag mode no record is skipped when the tag names a container: `NeverNil` holds,
      no record's id field is read, and every record is emitted. */
  lemma TagModeEmitsAll(config: Config, tag: string, evs: seq<Event>,
                        meta: MetadataLookup, parse: JsonParser)
    requires config.getContainerIdTag && ContainerIdFromTag(tag).Some?
    requires LogsReadable(config, evs)
    ensures NeverNil(InitialId(config, tag), evs, config.containerIdAttr)
    ensures IdsReadable(InitialId(config, tag), evs, config.containerIdAttr)
    ensures |FilterEvents(config, InitialId(config, tag), evs, |evs|, meta, parse)| == |evs|
  {
    forall i | 0 <= i <= |evs|
      ensures IdAt(InitialId(config, tag), evs, config.containerIdAttr, i) == ContainerIdFromTag(tag)
    {
      TagIdForEveryRecord(config, tag, evs, i);
    }
    FilterEventsLength(config, InitialId(config, tag), evs, |evs|, meta, parse);
  }

  /** Once a non-empty id is found it sticks: every later record uses it, whatever its
      own id field says. */
  lemma {:induction false} IdSticks(start: Option<string>, evs: seq<Event>, attr: string, i: nat, j: nat)
    requires i <= j <= |evs|
    requires IdAt(start, evs, attr, i).Some? && IdAt(start, evs, attr, i).value != ""
    ensures IdAt(start, evs, attr, j) == IdAt(start, evs, attr, i)
    decreases j - i
  {
    if i < j {
      IdSticks(start, evs, attr, i, j - 1);
    }
  }

  /** While the id is empty, each record's own id field is read. */
  lemma EmptyIdRereads(start: Option<string>, evs: seq<Event>, attr: string, i: nat)
    requires i < |evs|
    requires IdAt(start, evs, attr, i) == Some("")
    ensures IdAt(start, evs, attr, i + 1) == ContainerIdFromRecord(evs[i].record, attr)
  {
  }

  /** Without tag mode the first record's id field gives the id. */
  lemma FirstRecordGivesId(config: Config, tag: string, evs: seq<Event>)
    requires !config.getContainerIdTag && |evs| > 0
    ensures IdAt(InitialId(config, tag), evs, config.containerIdAttr, 1) ==
            ContainerIdFromRecord(evs[0].record, config.containerIdAttr)
  {
  }

  /** Every emitted record keeps every field it had, gains the timestamp field and the
      metadata names, and carries the timestamp unless the metadata names the timestamp
      key itself (the metadata wins there). Every other field keeps its value; with
      `merge_json_log` off nothing else is added. */
  lemma EmitStampsRecord(config: Config, ev: Event, meta: TaskData, parse: JsonParser)
    requires LogReadable(config, ev.record)
    ensures Emit(config, ev, meta, parse).time == ev.time
    ensures ev.record.Keys + {config.timestampKey} + MetaFields(meta).Keys <= Emit(config, ev, meta, parse).record.Keys
    ensures config.timestampKey !in MetaFields(meta) ==>
      Emit(config, ev, meta, parse).record[config.timestampKey] == Str(Timestamp.Stamp(ev.time))
    ensures forall k | k in ev.record && k != config.timestampKey && k !in MetaFields(meta) ::
      Emit(config, ev, meta, parse).record[k] == ev.record[k]
    ensures !config.mergeJsonLog ==>
      Emit(config, ev, meta, parse).record.Keys == ev.record.Keys + {config.timestampKey} + MetaFields(meta).Keys
  {
  }

  /** A step of `get_container_metadata`'s loop for a task id string. */
  lemma TaskIdStep(m: TaskData, env: string, chronos: ChronosMatcher)
    requires IsTaskIdVar(env)
    ensures m + Update(env, chronos) == m[TaskId := EnvValue(env)]
  {
  }

  /** A step of `get_container_metadata`'s loop for a Marathon app id string. */
  lemma MarathonStep(m: TaskData, env: string, chronos: ChronosMatcher)
    requires !IsTaskIdVar(env) && IsMarathonVar(env)
    ensures var app := Marathon.MarathonApp(EnvValue(env));
      m + Update(env, chronos) ==
        if app.Some? then m[Framework := "marathon"][App := app.value] else m[Framework := "marathon"]
  {
  }

  /** A step of `get_container_metadata`'s loop for a Chronos job name string. */
  lemma ChronosStep(m: TaskData, env: string, chronos: ChronosMatcher)
    requires !IsTaskIdVar(env) && !IsMarathonVar(env) && IsChronosVar(env)
    ensures var job := chronos(EnvValue(env));
      m + Update(env, chronos) ==
        if job.Some? then m[Framework := "chronos"][App := job.value.app][TaskType := job.value.taskType]
        else m[Framework := "chronos"]
  {
  }

  /** A step of `get_container_metadata`'s loop for any other string. */
  lemma OtherStep(m: TaskData, env: string, chronos: ChronosMatcher)
    requires !IsTaskIdVar(env) && !IsMarathonVar(env) && !IsChronosVar(env)
    ensures m + Update(env, chronos) == m
  {
  }

  /** A record hash after the loop: stamped when the loop held an id for it, as it was
      otherwise. */
  function RecordAfter(config: Config, start: Option<string>, evs: seq<Event>, j: nat): Record
    requires j < |evs|
  {
    if IdAt(start, evs, config.containerIdAttr, j + 1).Some? then Stamped(config, evs[j].record, evs[j].time)
    else evs[j].record
  }

  /** The events of `evs` once the loop has passed the first `n` of them: the record
      hashes it stamped, and the others as they were. */
  function EventsAfter(config: Config, start: Option<string>, evs: seq<Event>, n: nat): (r: seq<Event>)
    requires n <= |evs|
    ensures |r| == |evs|
  {
    seq(|evs|, j requires 0 <= j < |evs| =>
      if j < n then Event(evs[j].time, RecordAfter(config, start, evs, j)) else evs[j])
  }

  /** Passing one more record updates that record alone. */
  lemma EventsAfterStep(config: Config, start: Option<string>, evs: seq<Event>, n: nat)
    requires n < |evs|
    ensures EventsAfter(config, start, evs, n + 1) ==
            EventsAfter(config, start, evs, n)[n := Event(evs[n].time, RecordAfter(config, start, evs, n))]
  {
  }

  /** What the caller's stream holds afterwards: every event keeps its time and every
      record its fields; a record the loop held an id for also carries the time stamp
      under `timestamp_key`, and a skipped record is untouched. */
  lemma StreamAfterFilter(config: Config, start: Option<string>, evs: seq<Event>, j: nat)
    requires j < |evs|
    ensures var after := EventsAfter(config, start, evs, |evs|)[j];
      after.time == evs[j].time &&
      evs[j].record.Keys <= after.record.Keys &&
      (forall k | k in evs[j].record && k != config.timestampKey :: after.record[k] == evs[j].record[k]) &&
      (IdAt(start, evs, config.containerIdAttr, j + 1).Some? ==>
         after.record[config.timestampKey] == Str(Timestamp.Stamp(evs[j].time))) &&
      (IdAt(start, evs, config.containerIdAttr, j + 1).None? ==> after == evs[j])
  {
    assert EventsAfter(config, start, evs, |evs|)[j] == Event(evs[j].time, RecordAfter(config, start, evs, j));
  }

  // ---------------------------------------------------------------------------
  // The plugin object
  // ---------------------------------------------------------------------------

  /** The filter with its configuration and its metadata memo. The Docker lookup, the
      JSON parser and the compiled Chronos pattern are fixed when it is configured. */
  class MesosphereFilter {
    const config: Config
    const chronos: ChronosMatcher
    const docker: DockerLookup
    const parse: JsonParser

    /** `@cache`: container id to metadata, without eviction or expiry. */
    var cache: map<string, TaskData>

    /** `get_container_metadata` as a function of the container id. */
    ghost const metadata: MetadataLookup

    /** `metadata` is the Docker lookup followed by the classification, and every memo
        entry is what a fresh lookup would give. */
    ghost predicate Valid()
      reads this
    {
      (forall id {:trigger ContainerMetadata(docker(id), chronos)} :: metadata(id) == ContainerMetadata(docker(id), chronos)) &&
      forall id | id in cache :: cache[id] == metadata(id)
    }

    constructor(config: Config, chronos: ChronosMatcher, docker: DockerLookup, parse: JsonParser)
      ensures this.config == config && this.chronos == chronos
      ensures this.docker == docker && this.parse == parse
      ensures cache == map[] && Valid()
    {
      this.config := config;
      this.chronos := chronos;
      this.docker := docker;
      this.parse := parse;
      metadata := id => ContainerMetadata(docker(id), chronos);
      cache := map[];
    }

    /** `get_container_metadata(id)`: the environment classified string by string. */
    method GetContainerMetadata(id: string) returns (taskData: TaskData)
      ensures taskData == ContainerMetadata(docker(id), chronos)
    {
      taskData := map[];
      var container := docker(id);
      if container.Some? {
        var environment := container.value;
        for i := 0 to |environment|
          invariant taskData == Classify(environment[..i], chronos)
        {
          var env := environment[i];
          ghost var before := taskData;
          assert environment[..i + 1] == environment[..i] + [env];
          if IsTaskIdVar(env) {
            taskData := taskData[TaskId := EnvValue(env)];
            TaskIdStep(before, env, chronos);
          } else if IsMarathonVar(env) {
            var matchData := Marathon.MarathonApp(EnvValue(env));
            taskData := taskData[Framework := "marathon"];
            if matchData.Some? {
              taskData := taskData[App := matchData.value];
            }
            MarathonStep(before, env, chronos);
          } else if IsChronosVar(env) {
            var matchData := chronos(EnvValue(env));
            taskData := taskData[Framework := "chronos"];
            if matchData.Some? {
              taskData := taskData[App := matchData.value.app];
              taskData := taskData[TaskType := matchData.value.taskType];
            }
            ChronosStep(before, env, chronos);
          } else {
            OtherStep(before, env, chronos);
          }
          ClassifySnoc(environment[..i], env, chronos);
        }
        assert environment[..|environment|] == environment;
      }
    }

    /** `get_mesos_data(id)`: the memoised metadata; a miss looks the container up and
        stores the result. */
    method GetMesosData(id: string) returns (data: TaskData)
      requires Valid()
      modifies this
      ensures Valid()
      ensures data == metadata(id)
      ensures cache == old(cache)[id := data]
    {
      if id in cache {
        data := cache[id];
      } else {
        data := GetContainerMetadata(id);
        cache := cache[id := data];
      }
    }

    /** One pass of `filter_stream`'s loop, over event `i` of the stream: the id is
        re-read from the record while it is empty; a record with an id gets its
        timestamp written into the stream's hash and yields its event; a record
        without one is skipped. */
    method FilterRecord(ghost start: Option<string>, ghost evs: seq<Event>, es: array<Event>, i: nat,
                        containerId: Option<string>)
      returns (nextId: Option<string>, emitted: Option<Event>)
      requires Valid() && es.Length == |evs|
      requires LogsReadable(config, evs) && i < |evs|
      requires es[..] == EventsAfter(config, start, evs, i)
      requires containerId == IdAt(start, evs, config.containerIdAttr, i) && containerId.Some?
      modifies this, es
      ensures Valid() && old(cache).Keys <= cache.Keys
      ensures es[..] == EventsAfter(config, start, evs, i + 1)
      ensures nextId == IdAt(start, evs, config.containerIdAttr, i + 1)
      ensures emitted == Candidate(config, start, evs, i, metadata, parse)
    {
      var time := es[i].time;
      var record := es[i].record;
      assert es[i] == evs[i];
      EventsAfterStep(config, start, evs, i);
      nextId := containerId;
      if nextId.value == "" {
        nextId := ContainerIdFromRecord(record, config.containerIdAttr);
      }
      if nextId.Some? {
        record := record[config.timestampKey := Str(Timestamp.Stamp(time))];
        es[i] := Event(time, record);
        var data := GetMesosData(nextId.value);
        emitted := Some(Event(time, ModifyRecord(record, data, config.mergeJsonLog, parse)));
      } else {
        emitted := None;
      }
    }

    /** `filter_stream(tag, es)`. Each processed record gets its timestamp written into
        the stream's own hash; the emitted events are `FilterEvents` of the stream as it
        was on entry; the memo keeps every entry it had. */
    method FilterStream(tag: string, es: array<Event>) returns (out: seq<Event>)
      requires Valid()
      requires IdsReadable(InitialId(config, tag), es[..], config.containerIdAttr)
      requires LogsReadable(config, es[..])
      requires NeverNil(InitialId(config, tag), es[..], config.containerIdAttr)
      modifies this, es
      ensures Valid()
      ensures old(cache).Keys <= cache.Keys
      ensures out == FilterEvents(config, InitialId(config, tag), old(es[..]), es.Length, metadata, parse)
      ensures es[..] == EventsAfter(config, InitialId(config, tag), old(es[..]), es.Length)
    {
      ghost var start := InitialId(config, tag);
      ghost var evs := es[..];
      assert es[..] == EventsAfter(config, start, evs, 0);
      var containerId := if config.getContainerIdTag then ContainerIdFromTag(tag) else Some("");
      out := [];
      for i := 0 to es.Length
        invariant Valid() && old(cache).Keys <= cache.Keys
        invariant containerId == IdAt(start, evs, config.containerIdAttr, i)
        invariant out == FilterEvents(config, start, evs, i, metadata, parse)
        invariant es[..] == EventsAfter(config, start, evs, i)
      {
        var emitted;
        containerId, emitted := FilterRecord(start, evs, es, i, containerId);
        if emitted.Some? {
          out := out + [emitted.value];
        }
      }
    }
  }

  /** The plugin's record test: with `get_container_id_tag false`, a record naming its
      container is emitted with that container's metadata. */
  lemma RecordIdScenario(config: Config, tag: string, ev: Event, id: string,
                         meta: MetadataLookup, parse: JsonParser)
    requires !config.getContainerIdTag
    requires config.containerIdAttr in ev.record && ev.record[config.containerIdAttr] == Str(id)
    requires LogReadable(config, ev.record)
    ensures IdsReadable(InitialId(config, tag), [ev], config.containerIdAttr)
    ensures LogsReadable(config, [ev])
    ensures FilterEvents(config, InitialId(config, tag), [ev], 1, meta, parse) ==
            [Emit(config, ev, meta(id), parse)]
  {
    assert IdAt(InitialId(config, tag), [ev], config.containerIdAttr, 1) == Some(id);
  }
}
