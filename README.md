# fluent-plugin-mesosphere-filter, modelled in Dafny

The plugin is a Fluentd filter. For each batch of log events (a tag and a stream of
`(time, record)` pairs), it works out the Docker container that produced the lines.
It reads that container's environment through the Docker API and recognises the variables Mesos,
Marathon and Chronos set (`MESOS_TASK_ID`, `MARATHON_APP_ID`, `CHRONOS_JOB_NAME`). It
then adds the resulting metadata (`mesos_task_id`, `mesos_framework`, `app`,
`chronos_task_type`) to every record. Optionally it merges in the fields of a JSON object
found in the record's `log` line. The current plugin also writes a time stamp into each
record. Lookups are memoised per container id.

The project models both plugin versions in the repository:

- `lib/fluent/plugin/filter_mesosphere_filter.rb` is the current filter. It is modelled as
  the class `Filter.MesosphereFilter`, whose methods are proved against the functions of
  the modules below. The container id comes from the tag's last `.` field or from a record
  field. The id sticks once found. The event stream is an `array<Event>` whose record
  hashes the loop overwrites with their stamped versions, as the Ruby code does to the
  caller's hashes. The memo is a `map` field.
- `lib/fluent/plugin/mesosphere.rb` is the earlier filter, modelled as the class
  `Legacy.LegacyMesosphereFilter`. It looks the tag's container up once per batch and
  builds new records. Its Chronos branch raises on a job name the pattern does not match;
  that is modelled as `Legacy.Result.Failure`.

Behaviour worth knowing:

- `parse_env` returns the last non-empty `=`-separated field of the string. A value that
  itself holds `=` is cut to its last field. See `Metadata.ParseEnvKeepsLastSegment`.
- The Marathon pattern is unanchored, so the leftmost slash followed by a valid app name
  wins. For a nested id such as `/group/web` that is the first segment, `group`; for
  `/a/web` it is `web`, because `a` alone is too short to be an app name. See
  `Marathon.NestedIdYieldsFirstSegment` and `Marathon.ShortSegmentSkipped`.
- The current filter writes the time stamp into the caller's record hash in place before
  merging. Only `modify_record` builds a new hash.
- A record for which no container id is found is skipped. However, the next record then
  calls `empty?` on `nil` and raises, so only the last record of a batch can be skipped.
  The model makes this a precondition (`Filter.NeverNil`).
- The earlier plugin raises on an unmatched Chronos job name instead of leaving the app
  unset.
- The current plugin reads the options `cache_size`, `cache_ttl`, `get_container_id_tag`,
  `container_id_attr`, `timestamp_key`, `merge_json_log` and `cronos_task_regex`. The
  earlier plugin reads `cache_size`, `cache_ttl`, `merge_json_log` and
  `cronos_task_regex`.

## Modules

Leaf first:

- `Common`: the `Option` type, the JSON-like `Value` and the `Record` and `Event` types.
- `Text`: Ruby's `split(sep).last`, `include?`, `=~ /.../i`, `strip` and ASCII case folding.
- `Marathon`: the fixed Marathon app pattern.
- `Chronos`: the default Chronos job-name pattern.
- `Metadata`: `parse_env` and the classifier.
- `Records`: `modify_record` and `merge_json_log`.
- `Timestamp`: `generate_time_stamp`.
- `Filter`: the current plugin.
- `Legacy`: the earlier plugin.

## Model

| member | source | states |
|---|---|---|
| Text.LastField | lib/fluent/plugin/filter_mesosphere_filter.rb:176-178 | `split(sep).last` is nil exactly when the string is all separators; otherwise it is a non-empty field with no separator |
| Text.LastFieldIff | lib/fluent/plugin/filter_mesosphere_filter.rb:176-178 | both directions: `LastField` returns `v` exactly when `v` follows the last separator run and only separators come after it |
| Text.LastFieldAfterSeparator | lib/fluent/plugin/filter_mesosphere_filter.rb:176-178 | a separator-free tail after a separator is the result |
| Text.ContainsIff | lib/fluent/plugin/filter_mesosphere_filter.rb:129 | `include?` holds exactly when the pattern occurs at some index |
| Text.ContainsGivesLastField | lib/fluent/plugin/filter_mesosphere_filter.rb:127-134 | a string containing a marker that does not start with `=` has a last `=` field, so `parse_env` is never nil there |
| Text.Strip | lib/fluent/plugin/filter_mesosphere_filter.rb:192 | the result is the input with only white space cut from its two ends, and it neither starts nor ends with white space |
| Text.StripCutsSpace | lib/fluent/plugin/filter_mesosphere_filter.rb:192 | stripping the start and then the end cuts white space alone |
| Text.ContainsIgnoringCaseIff | lib/fluent/plugin/filter_mesosphere_filter.rb:127 | `=~ /p/i` with a pattern free of capitals holds exactly when, at some index, every pattern character is matched by itself or, for a letter, by its capital |
| Metadata.ParseEnv | lib/fluent/plugin/filter_mesosphere_filter.rb:176-178 | nil only for a string of `=` signs; otherwise a non-empty value with no `=` |
| Metadata.ParseEnvKeyValue | lib/fluent/plugin/filter_mesosphere_filter.rb:172-177 | `KEY=value` yields `value` |
| Metadata.ParseEnvKeepsLastSegment | lib/fluent/plugin/filter_mesosphere_filter.rb:176-178 | a value that itself holds `=` is cut to its last field |
| Metadata.ParseEnvEmptyValue | lib/fluent/plugin/filter_mesosphere_filter.rb:176-178 | `KEY=` yields the key itself |
| Metadata.ParseEnvNoSeparator | lib/fluent/plugin/filter_mesosphere_filter.rb:176-178 | a string without `=` comes back unchanged |
| Metadata.RecognisedHasValue | lib/fluent/plugin/filter_mesosphere_filter.rb:127-134 | every string a branch recognises has a value |
| Metadata.TaskIdVarIff | lib/fluent/plugin/filter_mesosphere_filter.rb:127 | a string is a task-id string exactly when `MESOS_TASK_ID` occurs in it in any mix of cases |
| Metadata.MarathonVarIff | lib/fluent/plugin/filter_mesosphere_filter.rb:129 | a string is a Marathon string exactly when `MARATHON_APP_ID` occurs in it, case-sensitively |
| Metadata.ChronosVarIff | lib/fluent/plugin/filter_mesosphere_filter.rb:133 | a string is a Chronos string exactly when `CHRONOS_JOB_NAME` occurs in it, case-sensitively |
| Metadata.KeyNameInjective | lib/fluent/plugin/filter_mesosphere_filter.rb:128-137 | the four metadata names are distinct |
| Metadata.MarathonUpdate | lib/fluent/plugin/filter_mesosphere_filter.rb:129-132 | the framework is always `marathon`; the app is present exactly when the pattern matches, and equals the capture |
| Metadata.ChronosUpdate | lib/fluent/plugin/filter_mesosphere_filter.rb:133-137 | the framework is always `chronos`; the app and task type are present exactly when the pattern matches, with its groups |
| Metadata.Update | lib/fluent/plugin/filter_mesosphere_filter.rb:127-138 | a task-id string writes the task id alone; the app or task type never appears without the framework |
| Metadata.UpdateRecognises | lib/fluent/plugin/filter_mesosphere_filter.rb:127-138 | the task id is written exactly for `/MESOS_TASK_ID/i` strings; the framework exactly for the other Marathon or Chronos strings |
| Metadata.Classify | lib/fluent/plugin/filter_mesosphere_filter.rb:120-141 | the hash after the loop is coherent: a task type implies an app, and an app implies a framework |
| Metadata.ContainerMetadata | lib/fluent/plugin/filter_mesosphere_filter.rb:119-142 | a missing container gives `{}` |
| Metadata.ClassifySnoc | lib/fluent/plugin/filter_mesosphere_filter.rb:124-139 | one more string lays its update over the hash built so far |
| Metadata.ClassifyHasKey | lib/fluent/plugin/filter_mesosphere_filter.rb:124-139 | a key is present exactly when some string writes it |
| Metadata.ClassifyLastMatchWins | lib/fluent/plugin/filter_mesosphere_filter.rb:124-139 | a key holds the value of the last string that writes it |
| Metadata.TaskIdShadowsFrameworks | lib/fluent/plugin/filter_mesosphere_filter.rb:127-129 | a task-id string changes the task id and nothing else, even if it also names a framework |
| Metadata.OrderDecidesFramework | lib/fluent/plugin/filter_mesosphere_filter.rb:124-139 | Marathon then Chronos gives `chronos`; the reverse order gives `marathon` |
| Metadata.MixedFrameworks | lib/fluent/plugin/filter_mesosphere_filter.rb:129-137 | a Chronos match followed by an unmatched Marathon id leaves the Chronos app and task type under framework `marathon` |
| Metadata.OverlayLastWins | lib/fluent/plugin/filter_mesosphere_filter.rb:124-139 | in overlaid hashes the last writer of a key wins |
| Marathon.MarathonApp | lib/fluent/plugin/filter_mesosphere_filter.rb:50-51 | the app is a valid capture at the leftmost matching position; nil exactly when no position matches |
| Marathon.MatchAt | lib/fluent/plugin/filter_mesosphere_filter.rb:50 | a match at a position starts with a slash and returns the text right after it: at least two characters, opening with an app start character and not ending with a dash |
| Marathon.ScanFrom | lib/fluent/plugin/filter_mesosphere_filter.rb:130 | the result is the match at the leftmost position from the start at which the matcher succeeds; nothing when it succeeds at no such position |
| Marathon.MatchAtIff | lib/fluent/plugin/filter_mesosphere_filter.rb:50 | the matcher at one position returns exactly the capture the pattern describes |
| Marathon.CaptureUnique | lib/fluent/plugin/filter_mesosphere_filter.rb:50 | the greedy capture at a position is unique |
| Marathon.MarathonAppRoundTrip | lib/fluent/plugin/filter_mesosphere_filter.rb:50 | a valid app after the first slash, followed by a non-app character or the end, is captured |
| Marathon.HelloWorldApp | test/plugin/test_mesosphere.rb:50-65 | `/hello-world` yields `hello-world` |
| Marathon.NestedIdYieldsFirstSegment | lib/fluent/plugin/filter_mesosphere_filter.rb:50 | `/group/web` yields `group` |
| Marathon.ShortSegmentSkipped | lib/fluent/plugin/filter_mesosphere_filter.rb:50 | `/a/web` yields `web`: a first segment too short to be an app is passed over |
| Chronos.SplitAtLastDash | lib/fluent/plugin/filter_mesosphere_filter.rb:33 | the cut at the last dash: no dash in the tail, and the string is reassembled from the two parts |
| Chronos.DefaultMatch | lib/fluent/plugin/filter_mesosphere_filter.rb:33 | the `app` and `task_type` groups of a match have the syntax the pattern demands |
| Chronos.DefaultMatchIff | lib/fluent/plugin/filter_mesosphere_filter.rb:31-33 | the default pattern matches with groups `app` and `task_type` exactly when the name splits into valid pieces |
| Chronos.DefaultMatchRoundTrip | lib/fluent/plugin/filter_mesosphere_filter.rb:33 | a job name assembled from valid pieces gives back its app and task type |
| Chronos.DeployTasksExample | test/plugin/test_mesosphere.rb:104-119 | a job name consistent with the test's expected groups (app `some-task-app2`, task type `deployTasks`; the test's job name itself lives in a container fixture that is not part of this model) gives exactly those groups |
| Chronos.TooFewFieldsExample | test/plugin/test_mesosphere.rb:122-137 | a job name consistent with the bad-match test (`recurring-transaction3`, reconstructed from the task id the test expects; its fixture is not part of this model) does not match, so no app or task type is recorded |
| Records.MergeJsonLog | lib/fluent/plugin/filter_mesosphere_filter.rb:190-201 | every record field survives; parsed keys are only added; without a parse the record is unchanged |
| Records.JsonFields | lib/fluent/plugin/filter_mesosphere_filter.rb:191-195 | a hash is parsed only from a `log` field whose stripped text starts with `{` and ends with `}`; such a text always goes to the parser, and its result is the hash |
| Records.MergeJsonLogIdempotent | lib/fluent/plugin/filter_mesosphere_filter.rb:190-201 | merging twice is merging once |
| Records.LogIsNotMetadata | lib/fluent/plugin/filter_mesosphere_filter.rb:93-94 | the metadata never overwrites the `log` field |
| Records.MetaFields | lib/fluent/plugin/filter_mesosphere_filter.rb:93 | each metadata key appears under its name with its value, and nothing else |
| Records.ModifyRecord | lib/fluent/plugin/filter_mesosphere_filter.rb:92-96 | the output has exactly the record's keys, the metadata names and, with JSON merging, the parsed keys; the metadata wins; every field the metadata does not name keeps its value; the `log` field must be a string only when merging |
| Records.JsonFieldsIgnoreMetadata | lib/fluent/plugin/filter_mesosphere_filter.rb:93-94 | merging the metadata first does not change which JSON is parsed |
| Records.ModifyRecordAddsJson | lib/fluent/plugin/filter_mesosphere_filter.rb:190-201 | a parsed key that is neither a record field nor a metadata field present in the container's metadata reaches the output with its parsed value |
| Timestamp.ToDateTime | lib/fluent/plugin/filter_mesosphere_filter.rb:80 | `Time.at(t).utc` is a valid date and time whose epoch seconds are `t` |
| Timestamp.ToDateTimeOfEpoch | lib/fluent/plugin/filter_mesosphere_filter.rb:80 | the inverse: every valid date and time is recovered from its epoch seconds |
| Timestamp.Decimal | lib/fluent/plugin/filter_mesosphere_filter.rb:80 | the digits of a number have no leading zero; only zero starts with `0`, and it is the single digit |
| Timestamp.DecimalWidth | lib/fluent/plugin/filter_mesosphere_filter.rb:80 | a number has at most k digits exactly when it is below 10^k |
| Timestamp.Field | lib/fluent/plugin/filter_mesosphere_filter.rb:80 | `%0Nd` is exactly as long as the larger of N and the digit count: the number's digits, padded on the left with zeros |
| Timestamp.FieldValue | lib/fluent/plugin/filter_mesosphere_filter.rb:80 | a field reads back as its number |
| Timestamp.Format | lib/fluent/plugin/filter_mesosphere_filter.rb:80 | the text is 24 characters exactly when the year is below 10000; a longer year is printed in full, without a leading zero |
| Timestamp.Stamp | lib/fluent/plugin/filter_mesosphere_filter.rb:79-81 | a stamp has at least 24 characters |
| Timestamp.ParseStampRoundTrip | lib/fluent/plugin/filter_mesosphere_filter.rb:79-81 | the stamp reads back as the time it was made from |
| Timestamp.StampLayout | lib/fluent/plugin/filter_mesosphere_filter.rb:80 | the layout `%Y-%m-%dT%H:%M:%S+0000`: a four-digit year, or a longer one without a leading zero, then two-digit fields in their ranges; 24 characters for years below 10000 |
| Timestamp.StampInjective | lib/fluent/plugin/filter_mesosphere_filter.rb:79-81 | distinct times give distinct stamps |
| Timestamp.EpochIsMidnight | lib/fluent/plugin/filter_mesosphere_filter.rb:80 | time 0 is 1970-01-01 00:00:00 |
| Timestamp.LeapDay1972 | lib/fluent/plugin/filter_mesosphere_filter.rb:80 | day 789 is 1972-02-29 |
| Filter.ContainerIdFromTag | lib/fluent/plugin/filter_mesosphere_filter.rb:152-154 | nil exactly when the tag is all dots; otherwise a non-empty dot-free field |
| Filter.ContainerIdFromDockerTag | lib/fluent/plugin/filter_mesosphere_filter.rb:144-154 | `prefix.<id>` names container `id` |
| Filter.ContainerIdFromRecord | lib/fluent/plugin/filter_mesosphere_filter.rb:164-166 | present exactly when the field holds a string, and then that string; none when the field is absent, JSON null or `false` (the values `next unless container_id` skips) |
| Filter.InitialId | lib/fluent/plugin/filter_mesosphere_filter.rb:58-60 | in tag mode the tag's id, nil exactly for a tag of dots; otherwise the empty string |
| Filter.NextId | lib/fluent/plugin/filter_mesosphere_filter.rb:63-64 | a non-empty id is kept; an empty id is replaced by the record's field, present exactly when the field holds a string; nil stays nil |
| Filter.Stamped | lib/fluent/plugin/filter_mesosphere_filter.rb:66 | the record gains the timestamp key with the stamp; other fields keep their values; with merging on, the stamped `log` is a string exactly when `LogReadable` holds of the unstamped record |
| Filter.Emit | lib/fluent/plugin/filter_mesosphere_filter.rb:66-67 | the emitted event keeps the record's time (its fields: `Filter.EmitStampsRecord`); it accepts any `log` value that the stamp overwrites (`timestamp_key 'log'`) |
| Filter.Present | lib/fluent/plugin/filter_mesosphere_filter.rb:65-67 | skipping entries never lengthens the sequence |
| Filter.PresentInOrder | lib/fluent/plugin/filter_mesosphere_filter.rb:62-68 | when only the last entry may be missing, the present values keep their positions |
| Filter.CandidateAt | lib/fluent/plugin/filter_mesosphere_filter.rb:62-68 | the loop's i-th record yields the i-th candidate: the stamped, decorated event when it holds an id, nothing otherwise |
| Filter.FilterEvents | lib/fluent/plugin/filter_mesosphere_filter.rb:56-70 | never more events than records |
| Filter.FilterEventsArePresent | lib/fluent/plugin/filter_mesosphere_filter.rb:56-70 | the emitted events are the present candidates, in order |
| Filter.CandidatesBeforeLast | lib/fluent/plugin/filter_mesosphere_filter.rb:63-65 | when no id is ever nil, every record except the last has an event |
| Filter.FilterEventsLength | lib/fluent/plugin/filter_mesosphere_filter.rb:56-70 | only the last record can be dropped, and only when no id is found for it |
| Filter.PresentCandidates | lib/fluent/plugin/filter_mesosphere_filter.rb:62-68 | when no id is ever nil, output event i is candidate i |
| Filter.OutputEvent | lib/fluent/plugin/filter_mesosphere_filter.rb:62-68 | output event i comes from input event i, which the loop held an id for |
| Filter.FilterEventsInOrder | lib/fluent/plugin/filter_mesosphere_filter.rb:56-70 | output event i is input event i, stamped and modified with its container's metadata |
| Filter.TagIdForEveryRecord | lib/fluent/plugin/filter_mesosphere_filter.rb:58-64 | in tag mode every record uses the tag's id |
| Filter.TagModeEmitsAll | lib/fluent/plugin/filter_mesosphere_filter.rb:58-68 | in tag mode with a container in the tag, no record is dropped and no record's id field is read |
| Filter.IdSticks | lib/fluent/plugin/filter_mesosphere_filter.rb:63-64 | once a non-empty id is found, every later record uses it |
| Filter.EmptyIdRereads | lib/fluent/plugin/filter_mesosphere_filter.rb:63-64 | while the id is empty, each record's own field is read |
| Filter.FirstRecordGivesId | lib/fluent/plugin/filter_mesosphere_filter.rb:58-64 | without tag mode, the first record's field gives the id |
| Filter.EmitStampsRecord | lib/fluent/plugin/filter_mesosphere_filter.rb:66-67 | an emitted record keeps its time and keys and gains the stamp key and the metadata names; it carries the stamp unless the metadata names that key; every field the metadata does not name keeps its value; without JSON merging nothing else is added |
| Filter.TaskIdStep | lib/fluent/plugin/filter_mesosphere_filter.rb:127-128 | the task-id branch's writes are the task-id update |
| Filter.MarathonStep | lib/fluent/plugin/filter_mesosphere_filter.rb:129-132 | the Marathon branch's writes are the Marathon update |
| Filter.ChronosStep | lib/fluent/plugin/filter_mesosphere_filter.rb:133-137 | the Chronos branch's writes are the Chronos update |
| Filter.OtherStep | lib/fluent/plugin/filter_mesosphere_filter.rb:124-139 | any other string writes nothing |
| Filter.EventsAfter | lib/fluent/plugin/filter_mesosphere_filter.rb:62-66 | the stream keeps its length |
| Filter.EventsAfterStep | lib/fluent/plugin/filter_mesosphere_filter.rb:62-66 | one more pass changes that record alone |
| Filter.StreamAfterFilter | lib/fluent/plugin/filter_mesosphere_filter.rb:62-66 | the caller's records keep their fields and times; those processed carry the stamp; skipped ones are untouched |
| Filter.RecordIdScenario | test/plugin/test_mesosphere.rb:184-198 | a record naming its container is emitted with that container's metadata |
| Filter.MesosphereFilter.constructor | lib/fluent/plugin/filter_mesosphere_filter.rb:36-52 | an empty memo and the configured lookups |
| Filter.MesosphereFilter.GetContainerMetadata | lib/fluent/plugin/filter_mesosphere_filter.rb:119-142 | the loop computes the classified environment, or `{}` for a missing container |
| Filter.MesosphereFilter.GetMesosData | lib/fluent/plugin/filter_mesosphere_filter.rb:105-109 | returns what a fresh lookup gives, and the memo gains that entry |
| Filter.MesosphereFilter.FilterRecord | lib/fluent/plugin/filter_mesosphere_filter.rb:62-68 | one pass: the next id, the record stamped in the stream, and the emitted event |
| Filter.MesosphereFilter.FilterStream | lib/fluent/plugin/filter_mesosphere_filter.rb:56-70 | the emitted batch is `FilterEvents`; the caller's stream is `EventsAfter`; the memo only grows; only the id fields the loop reads must be strings, null or `false`, and `log` fields must be strings only when merging under a timestamp key other than `log` |
| Legacy.LegacyUpdate | lib/fluent/plugin/mesosphere.rb:84-94 | raises exactly on an unmatched Chronos job name; the Marathon branch stores the raw app id |
| Legacy.LegacyClassify | lib/fluent/plugin/mesosphere.rb:76-98 | a classification that does not raise is coherent: a task type implies an app, and an app implies a framework |
| Legacy.LegacyContainerMetadata | lib/fluent/plugin/mesosphere.rb:76-98 | a missing container gives `{}` |
| Legacy.LegacyClassifyFailsIff | lib/fluent/plugin/mesosphere.rb:81-95 | the classifier succeeds exactly when no string is an unmatched Chronos job name |
| Legacy.LegacyFailureIsFirst | lib/fluent/plugin/mesosphere.rb:89-93 | the error names the first unmatched job name |
| Legacy.LegacyFailureSticks | lib/fluent/plugin/mesosphere.rb:81-95 | once a prefix has raised, the whole loop raises with the same error |
| Legacy.LegacyUpdateAgreesOffApp | lib/fluent/plugin/mesosphere.rb:84-94 | a step that succeeds writes what the current chain writes, except the app |
| Legacy.LegacyAgreesOffApp | lib/fluent/plugin/mesosphere.rb:76-98 | when it succeeds, the legacy hash equals the current one except for the app |
| Legacy.LegacyClassifySnoc | lib/fluent/plugin/mesosphere.rb:81-95 | one more string either raises or lays its update over the hash |
| Legacy.LegacyTaskIdStep | lib/fluent/plugin/mesosphere.rb:84-85 | the task-id branch's writes |
| Legacy.LegacyMarathonStep | lib/fluent/plugin/mesosphere.rb:86-88 | the Marathon branch's writes |
| Legacy.LegacyChronosStep | lib/fluent/plugin/mesosphere.rb:89-93 | the Chronos branch's writes on a match |
| Legacy.LegacyUnmatchedStep | lib/fluent/plugin/mesosphere.rb:89-93 | the Chronos branch raises on a non-match |
| Legacy.LegacyOtherStep | lib/fluent/plugin/mesosphere.rb:81-95 | any other string writes nothing |
| Legacy.MarathonIdKeepsSlash | lib/fluent/plugin/mesosphere.rb:86-88 | the legacy app is `/hello-world`; the current one is `hello-world` |
| Legacy.Decorate | lib/fluent/plugin/mesosphere.rb:61-65 | one output event per input event |
| Legacy.LegacyFilterEvents | lib/fluent/plugin/mesosphere.rb:53-68 | the batch fails exactly when the lookup for the tag's id (nil for a tag of dots) raises; otherwise it has one event per input event |
| Legacy.DecoratedEvents | lib/fluent/plugin/mesosphere.rb:61-65 | same times and order; all metadata present; every field the metadata does not name keeps its value; the keys are exactly the record's, the metadata names and, with JSON merging, the parsed keys, so there is no timestamp |
| Legacy.LegacyBatchCarriesTaskId | lib/fluent/plugin/mesosphere.rb:53-68 | a container whose environment holds a task id yields every record, each carrying that id |
| Legacy.LegacyMesosphereFilter.constructor | lib/fluent/plugin/mesosphere.rb:37-49 | an empty memo and the configured lookups |
| Legacy.LegacyMesosphereFilter.GetContainerMetadata | lib/fluent/plugin/mesosphere.rb:76-98 | the loop computes the legacy classification and stops at the first unmatched job name |
| Legacy.LegacyMesosphereFilter.GetMesosData | lib/fluent/plugin/mesosphere.rb:57-59 | returns the fresh lookup's outcome; only a success is memoised |
| Legacy.LegacyMesosphereFilter.DecorateBatch | lib/fluent/plugin/mesosphere.rb:61-65 | the loop builds exactly `Decorate` |
| Legacy.LegacyMesosphereFilter.FilterStream | lib/fluent/plugin/mesosphere.rb:53-68 | the result is `LegacyFilterEvents`; the memo gains the tag's entry, nil included, unless the lookup raised |

## Left out

- The Docker API call `Docker::Container.get(id)` and `container.json['Config']['Env']`
  are a function parameter (`Filter.DockerLookup`): a fixed snapshot of every container's
  environment. Network errors and containers changing between lookups are not modelled.
- The cache (`LruRedux::TTL::ThreadSafeCache`, `cache_size`, `cache_ttl`) is a plain
  `map` memo with no eviction, expiry or locking, because time and concurrency are
  outside the model. Its entries always equal a fresh lookup.
- `Oj.load` is a parameter (`Records.JsonParser`) that returns `None` where Ruby raises
  `Oj::ParseError`. JSON text syntax is not modelled.
- The compiled `cronos_task_regex` is a parameter (`Metadata.ChronosMatcher`). Only the
  current default pattern is modelled (`Chronos.DefaultMatch`). The earlier plugin's
  default pattern, with six groups, stays abstract.
- Ruby's `^`/`$` are line anchors. Job names that contain a newline are not modelled.
- Case-insensitive matching of `MESOS_TASK_ID` folds ASCII letters only.
- Event times are whole seconds (`nat`). Fluentd `EventTime` with nanoseconds, and times
  before 1970, are not modelled.
- Filter.MesosphereFilter.FilterStream: a batch that would make Ruby call `nil.empty?`
  (no id found for a record that is not the last) is excluded by the `NeverNil`
  precondition rather than modelled as an exception.
- Filter.MesosphereFilter.FilterStream: an id field that the loop reads (while it holds
  the empty id) and that holds `true`, a number, an array or an object is excluded by
  the `Filter.IdsReadable` precondition. Ruby would keep such a value as the container
  id and pass it to the memo and to Docker, and the model's lookups take strings only.
  `Filter.ContainerIdFromRecord` reads such a value as no id. JSON null and `false` are
  modelled: the record is skipped, as `next unless container_id` does.
- Records.ModifyRecord: with `merge_json_log` on, a `log` field that is not a string is
  excluded by the `LogIsText` precondition, because Ruby raises `NoMethodError` at
  `strip` there. With merging off any `log` value is accepted. The filter stamps the
  record before `modify_record`, so with `timestamp_key 'log'` the stamp replaces any
  `log` value and `Filter.Emit` accepts it (`Filter.LogReadable`).
- Legacy.LegacyMesosphereFilter.FilterStream: for a tag of dots alone the container id is
  nil. What `Docker::Container.get(nil)` returns is whatever the `LegacyDockerLookup`
  parameter gives for `None`; docker-api's own handling of nil is not modelled.
- JSON numbers are integers only (`Common.Value.Num` holds an `int`). Fractional and
  exponent numbers, which `Oj.load` returns as `Float`, are not represented. The model
  never inspects a number.
- The stream is an array of `Event` values, so one record hash appearing twice in a
  stream (aliasing) is not modelled. Ruby hash key order is not modelled either.
- Plugin registration, `configure`'s `require`s and Fluentd's `MultiEventStream` are
  plumbing and are not modelled.
