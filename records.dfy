/** How a log record gains the Mesos metadata and, optionally, the fields of a JSON log
    line: `modify_record` and `merge_json_log`. Both plugin versions use the same merge
    rules, so both are modelled by the functions here. */
module Records {
  import opened Common
  import opened Text
  import opened Metadata

  /** The field Docker writes a container's output line to. */
  const LogKey: string := "log"

  /** `Oj.load`: the hash a JSON text parses to, or `None` where it raises
      `Oj::ParseError`. */
  type JsonParser = string -> Option<Record>

  /** `record['log'].strip` is only defined when the field, if present, is a string. */
  predicate LogIsText(record: Record) {
    LogKey in record ==> record[LogKey].Str?
  }

  /** `log[0].eql?('{') && log[-1].eql?('}')`. */
  predicate LooksLikeObject(log: string) {
    |log| > 0 && log[0] == '{' && log[|log| - 1] == '}'
  }

  /** The hash `merge_json_log` parses out of the record: present when the record has a
      `log` field whose stripped text starts with `{`, ends with `}` and parses. */
  function JsonFields(record: Record, parse: JsonParser): (r: Option<Record>)
    requires LogIsText(record)
    ensures r.Some? ==> LogKey in record && LooksLikeObject(Strip(record[LogKey].s))
    ensures r.Some? ==> r == parse(Strip(record[LogKey].s))
    ensures LogKey in record && LooksLikeObject(Strip(record[LogKey].s)) ==> r == parse(Strip(record[LogKey].s))
  {
    if LogKey in record && LooksLikeObject(Strip(record[LogKey].s)) then parse(Strip(record[LogKey].s))
    else None
  }

  /** `merge_json_log(record)`: the parsed hash, if any, with the record laid over it.
      Every field of the record survives with its value (the `log` field included);
      the parsed hash only adds the keys the record lacks; without a parsed hash the
      record comes back unchanged. */
  function MergeJsonLog(record: Record, parse: JsonParser): (r: Record)
    requires LogIsText(record)
    ensures forall k | k in record :: k in r && r[k] == record[k]
    ensures JsonFields(record, parse).None? ==> r == record
    ensures JsonFields(record, parse).Some? ==>
      r.Keys == record.Keys + JsonFields(record, parse).value.Keys &&
      forall k | k in r && k !in record :: r[k] == JsonFields(record, parse).value[k]
    ensures LogIsText(r)
  {
    match JsonFields(record, parse)
    case None => record
    case Some(parsed) => parsed + record
  }

  /** Merging twice is merging once: the `log` field is kept, so the second pass parses
      the same hash and every key it offers is already present. */
  lemma MergeJsonLogIdempotent(record: Record, parse: JsonParser)
    requires LogIsText(record)
    ensures MergeJsonLog(MergeJsonLog(record, parse), parse) == MergeJsonLog(record, parse)
  {
    var once := MergeJsonLog(record, parse);
    assert LogKey in record ==> once[LogKey] == record[LogKey];
    assert JsonFields(once, parse) == JsonFields(record, parse);
  }

  // ---------------------------------------------------------------------------
  // modify_record
  // ---------------------------------------------------------------------------

  /** The names the metadata can occupy in a record. */
  function MetadataNames(): set<string> {
    {KeyName(TaskId), KeyName(Framework), KeyName(App), KeyName(TaskType)}
  }

  /** `log` is not a metadata name, so the metadata never replaces the log line. */
  lemma LogIsNotMetadata()
    ensures LogKey !in MetadataNames()
  {
    assert LogKey != KeyName(App) by { assert LogKey[0] != KeyName(App)[0]; }
    assert |LogKey| != |KeyName(TaskId)| && |LogKey| != |KeyName(Framework)|;
    assert |LogKey| != |KeyName(TaskType)|;
  }

  /** The metadata hash as record fields: each key under its name, as a string value. */
  function MetaFields(meta: TaskData): (r: Record)
    ensures forall k: MetaKey :: KeyName(k) in r <==> k in meta
    ensures forall k | k in meta :: r[KeyName(k)] == Str(meta[k])
    ensures r.Keys <= MetadataNames()
  {
    KeyNamesDistinct();
    map k | k in meta :: KeyName(k) := Str(meta[k])
  }

  /** All four names differ. */
  lemma KeyNamesDistinct()
    ensures forall k: MetaKey, k': MetaKey | k != k' :: KeyName(k) != KeyName(k')
  {
    forall k: MetaKey, k': MetaKey | k != k' ensures KeyName(k) != KeyName(k') {
      KeyNameInjective(k, k');
    }
  }

  /** The keys of the hash parsed out of the record's `log` field; none when there is
      no such hash. */
  function JsonKeys(record: Record, parse: JsonParser): set<string>
    requires LogIsText(record)
  {
    if JsonFields(record, parse).Some? then JsonFields(record, parse).value.Keys else {}
  }

  /** `modify_record(record, mesos_data)`: the metadata laid over the record, then, when
      `merge_json_log` is on, the JSON log line merged in (only then is the `log` field
      stripped, so only then must it be a string). The output has exactly the record's
      keys, the metadata's names and, when merging, the parsed keys; the metadata wins
      over the record; every field the metadata does not name keeps its value. */
  function ModifyRecord(record: Record, meta: TaskData, mergeJson: bool, parse: JsonParser): (r: Record)
    requires mergeJson ==> LogIsText(record)
    ensures record.Keys <= r.Keys
    ensures forall k | k in meta :: KeyName(k) in r && r[KeyName(k)] == Str(meta[k])
    ensures forall n | n in record && n !in MetaFields(meta) :: r[n] == record[n]
    ensures r.Keys == record.Keys + MetaFields(meta).Keys + if mergeJson then JsonKeys(record, parse) else {}
  {
    var merged := record + MetaFields(meta);
    if mergeJson then
      JsonFieldsIgnoreMetadata(record, meta, parse);
      MergeJsonLog(merged, parse)
    else merged
  }

  /** The metadata does not change which JSON hash is parsed. */
  lemma JsonFieldsIgnoreMetadata(record: Record, meta: TaskData, parse: JsonParser)
    requires LogIsText(record)
    ensures LogIsText(record + MetaFields(meta))
    ensures JsonFields(record + MetaFields(meta), parse) == JsonFields(record, parse)
  {
    LogIsNotMetadata();
  }

  /** With `merge_json_log` on, a parsed key that is neither a record field nor a
      metadata field present in `meta` reaches the output with its parsed value. */
  lemma ModifyRecordAddsJson(record: Record, meta: TaskData, parse: JsonParser, k: string)
    requires LogIsText(record) && JsonFields(record, parse).Some?
    requires k in JsonFields(record, parse).value && k !in record && k !in MetaFields(meta)
    ensures k in ModifyRecord(record, meta, true, parse)
    ensures ModifyRecord(record, meta, true, parse)[k] == JsonFields(record, parse).value[k]
  {
    JsonFieldsIgnoreMetadata(record, meta, parse);
  }
}
