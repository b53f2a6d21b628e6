/** The default Chronos job-name pattern of the current plugin,
    `^(?<app>[a-z0-9]([-a-z0-9.]*[a-z0-9]))-(?<task_type>[^-]+)-(?<run>[^-]+)-(?<epoc>[^-]+)$`.
    The three trailing groups hold no dash, so a match splits the name at its last
    three dashes; the pattern matches exactly when the pieces have the required form. */
module Chronos {
  import opened Common

  /** The two named groups the filter reads from a Chronos match. */
  datatype ChronosMatch = ChronosMatch(app: string, taskType: string)

  /** `[a-z0-9]` */
  predicate IsNameEdge(c: char) {
    'a' <= c <= 'z' || '0' <= c <= '9'
  }

  /** `[-a-z0-9.]` */
  predicate IsNameChar(c: char) {
    IsNameEdge(c) || c == '-' || c == '.'
  }

  /** `[a-z0-9]([-a-z0-9.]*[a-z0-9])`: the `app` group. */
  predicate ValidJobApp(a: string) {
    |a| >= 2 && IsNameEdge(a[0]) && IsNameEdge(a[|a| - 1]) &&
    forall i | 0 <= i < |a| :: IsNameChar(a[i])
  }

  /** `[^-]+`: the `task_type`, `run` and `epoc` groups. */
  predicate ValidField(f: string) {
    f != [] && '-' !in f
  }

  /** `v` is `app-taskType-run-epoch` with every piece of the form the pattern demands. */
  predicate Decomposes(v: string, app: string, taskType: string, run: string, epoch: string) {
    v == app + "-" + taskType + "-" + run + "-" + epoch &&
    ValidJobApp(app) && ValidField(taskType) && ValidField(run) && ValidField(epoch)
  }

  /** The pattern matches `v` with groups `app` and `task_type` as in `m`. */
  ghost predicate MatchesDefault(v: string, m: ChronosMatch) {
    exists run: string, epoch: string :: Decomposes(v, m.app, m.taskType, run, epoch)
  }

  /** `s` cut at its last dash: everything before it and everything after it. */
  function SplitAtLastDash(s: string): (r: Option<(string, string)>)
    ensures r.None? <==> '-' !in s
    ensures r.Some? ==> s == r.value.0 + "-" + r.value.1 && '-' !in r.value.1
    decreases |s|
  {
    if s == [] then None
    else if s[|s| - 1] == '-' then Some((s[..|s| - 1], ""))
    else
      match SplitAtLastDash(s[..|s| - 1])
      case None => None
      case Some((x, y)) =>
        assert s == s[..|s| - 1] + [s[|s| - 1]];
        Some((x, y + [s[|s| - 1]]))
  }

  /** Any cut before a dash-free tail is the cut at the last dash. */
  lemma SplitAtLastDashUnique(s: string, x: string, y: string)
    requires s == x + "-" + y && '-' !in y
    ensures SplitAtLastDash(s) == Some((x, y))
  {
    assert s[|x|] == '-';
    var r := SplitAtLastDash(s);
    var (x', y') := r.value;
    assert forall i | |s| - |y| <= i < |s| :: s[i] == y[i - (|s| - |y|)] != '-';
    assert forall i | |s| - |y'| <= i < |s| :: s[i] == y'[i - (|s| - |y'|)] != '-';
    assert s[|s| - |y| - 1] == '-' && s[|s| - |y'| - 1] == '-';
    assert |y| == |y'|;
    assert y == s[|s| - |y|..] == y';
    assert x == s[..|x|] == x';
  }

  /** `value.match(chronos_task_regex)` with the default pattern, as the pair of groups
      the filter reads. */
  function DefaultMatch(v: string): (r: Option<ChronosMatch>)
    ensures r.Some? ==> ValidJobApp(r.value.app) && ValidField(r.value.taskType)
  {
    match SplitAtLastDash(v)
    case None => None
    case Some((rest, epoch)) =>
      match SplitAtLastDash(rest)
      case None => None
      case Some((rest', run)) =>
        match SplitAtLastDash(rest')
        case None => None
        case Some((app, taskType)) =>
          if ValidJobApp(app) && ValidField(taskType) && ValidField(run) && ValidField(epoch)
          then Some(ChronosMatch(app, taskType))
          else None
  }

  /** Both directions: DefaultMatch returns `m` exactly when the pattern matches with
      those groups. In particular a match, when it exists, is unique. */
  lemma DefaultMatchIff(v: string, m: ChronosMatch)
    ensures DefaultMatch(v) == Some(m) <==> MatchesDefault(v, m)
  {
    if DefaultMatch(v) == Some(m) {
      var (rest, epoch) := SplitAtLastDash(v).value;
      var (rest', run) := SplitAtLastDash(rest).value;
      assert v == m.app + "-" + m.taskType + "-" + run + "-" + epoch;
      assert Decomposes(v, m.app, m.taskType, run, epoch);
    }
    if MatchesDefault(v, m) {
      var run, epoch :| Decomposes(v, m.app, m.taskType, run, epoch);
      var rest := m.app + "-" + m.taskType + "-" + run;
      var rest' := m.app + "-" + m.taskType;
      assert v == rest + "-" + epoch;
      assert rest == rest' + "-" + run;
      SplitAtLastDashUnique(v, rest, epoch);
      SplitAtLastDashUnique(rest, rest', run);
      SplitAtLastDashUnique(rest', m.app, m.taskType);
    }
  }

  /** The round trip: a job name assembled from valid pieces gives back its app and
      task type. */
  lemma DefaultMatchRoundTrip(app: string, taskType: string, run: string, epoch: string)
    requires ValidJobApp(app) && ValidField(taskType) && ValidField(run) && ValidField(epoch)
    ensures DefaultMatch(app + "-" + taskType + "-" + run + "-" + epoch) == Some(ChronosMatch(app, taskType))
  {
    var v := app + "-" + taskType + "-" + run + "-" + epoch;
    assert Decomposes(v, app, taskType, run, epoch);
    DefaultMatchIff(v, ChronosMatch(app, taskType));
  }

  /** A job name consistent with the groups the plugin's Chronos test expects: the app
      keeps its own dashes and the task type is the third field from the end. */
  lemma DeployTasksExample(app: string, taskType: string, run: string, epoch: string)
    requires app == "some-task-app2" && taskType == "deployTasks"
    requires run == "1448508194000" && epoch == "1"
    ensures DefaultMatch(app + "-" + taskType + "-" + run + "-" + epoch)
         == Some(ChronosMatch("some-task-app2", "deployTasks"))
  {
    assert ValidJobApp(app);
    assert ValidField(taskType) && ValidField(run) && ValidField(epoch);
    DefaultMatchRoundTrip(app, taskType, run, epoch);
  }

  /** A job name with too few dash-separated fields, consistent with the task id the
      bad-match test expects, does not match: the filter then records the framework
      alone. */
  lemma TooFewFieldsExample(v: string)
    requires v == "recurring-transaction3"
    ensures DefaultMatch(v) == None
  {
    assert v == "recurring" + "-" + "transaction3";
    SplitAtLastDashUnique(v, "recurring", "transaction3");
    assert '-' !in "recurring";
  }
}
