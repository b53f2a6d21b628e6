/** The fixed Marathon app pattern `\/(?<app>[a-z0-9]([-a-z0-9_.]*[a-z0-9_.]))`,
    matched unanchored (Ruby's `String#match`): the regex engine tries each start
    position from the left, and at a start position the greedy star first takes the
    whole run of app characters and then gives characters back until the final
    character class is satisfied. */
module Marathon {
  import opened Common
  import opened Text

  /** `[a-z0-9]` */
  predicate IsAppStart(c: char) {
    'a' <= c <= 'z' || '0' <= c <= '9'
  }

  /** `[-a-z0-9_.]` */
  predicate IsAppChar(c: char) {
    IsAppStart(c) || c == '-' || c == '_' || c == '.'
  }

  /** `[a-z0-9_.]`, that is, an app character other than a dash. */
  predicate IsAppEnd(c: char) {
    IsAppChar(c) && c != '-'
  }

  /** The strings the `app` group can capture: `[a-z0-9][-a-z0-9_.]*[a-z0-9_.]`. */
  predicate ValidApp(a: string) {
    |a| >= 2 && IsAppStart(a[0]) && IsAppEnd(a[|a| - 1]) &&
    forall i | 0 <= i < |a| :: IsAppChar(a[i])
  }

  /** The first index at or after `i` that does not hold an app character. */
  function RunEnd(s: string, i: nat): (e: nat)
    requires i <= |s|
    ensures i <= e <= |s|
    ensures forall j | i <= j < e :: IsAppChar(s[j])
    ensures e == |s| || !IsAppChar(s[e])
    decreases |s| - i
  {
    if i == |s| || !IsAppChar(s[i]) then i else RunEnd(s, i + 1)
  }

  /** The match semantics, stated without the search: the pattern matches at `p` with
      capture `a` when `s[p]` is the slash, `a` follows it and is a valid app name,
      and the app characters that follow `a` (which the greedy star took and then
      gave back) are all dashes. */
  ghost predicate CaptureAt(s: string, p: nat, a: string) {
    p < |s| && s[p] == '/' && OccursAt(s, a, p + 1) && ValidApp(a) &&
    forall j | p + 1 + |a| <= j < RunEnd(s, p + 1 + |a|) :: s[j] == '-'
  }

  /** The largest `k` in `[lo, hi)` whose character is not a dash: how far back the
      greedy star must give back before the final character class matches. */
  function LastNonDash(s: string, lo: nat, hi: nat): (r: Option<nat>)
    requires lo <= hi <= |s|
    ensures r.Some? ==> lo <= r.value < hi && s[r.value] != '-'
    ensures r.Some? ==> forall j | r.value < j < hi :: s[j] == '-'
    ensures r.None? ==> forall j | lo <= j < hi :: s[j] == '-'
    decreases hi - lo
  {
    if hi == lo then None
    else if s[hi - 1] != '-' then Some(hi - 1)
    else LastNonDash(s, lo, hi - 1)
  }

  /** Ruby's regex engine at one start position `p`. */
  function MatchAt(s: string, p: nat): (r: Option<string>)
    ensures r.Some? ==> p + 1 + |r.value| <= |s| && s[p] == '/' && s[p + 1..p + 1 + |r.value|] == r.value
    ensures r.Some? ==> |r.value| >= 2 && IsAppStart(r.value[0]) && r.value[|r.value| - 1] != '-'
  {
    if p + 1 < |s| && s[p] == '/' && IsAppStart(s[p + 1]) then
      match LastNonDash(s, p + 2, RunEnd(s, p + 2))
      case Some(k) => Some(s[p + 1..k + 1])
      case None => None
    else None
  }

  /** The run that starts inside a run ends where the outer run ends. */
  lemma {:induction false} RunEndFrom(s: string, i: nat, j: nat)
    requires i <= |s| && i <= j <= RunEnd(s, i)
    ensures RunEnd(s, j) == RunEnd(s, i)
    decreases j - i
  {
    if i < j {
      assert IsAppChar(s[i]);
      RunEndFrom(s, i + 1, j);
    }
  }

  /** What MatchAt returns is a capture at `p`. */
  lemma MatchAtSound(s: string, p: nat)
    requires MatchAt(s, p).Some?
    ensures CaptureAt(s, p, MatchAt(s, p).value)
  {
    var a := MatchAt(s, p).value;
    var k := LastNonDash(s, p + 2, RunEnd(s, p + 2)).value;
    assert a == s[p + 1..k + 1];
    assert a[|a| - 1] == s[k];
    assert forall i | 0 <= i < |a| :: a[i] == s[p + 1 + i];
    RunEndFrom(s, p + 2, k + 1);
  }

  /** A capture at `p` is what MatchAt returns. */
  lemma MatchAtComplete(s: string, p: nat, a: string)
    requires CaptureAt(s, p, a)
    ensures MatchAt(s, p) == Some(a)
  {
    var e := p + 1 + |a|;
    assert forall i | 0 <= i < |a| :: s[p + 1 + i] == a[i];
    assert forall j | p + 2 <= j < e :: IsAppChar(s[j]);
    RunEndLower(s, p + 2, e);
    RunEndFrom(s, p + 2, e);
    var r := LastNonDash(s, p + 2, RunEnd(s, p + 2));
    assert s[e - 1] == a[|a| - 1] != '-';
    assert r.Some? && r.value == e - 1;
  }

  /** MatchAt returns exactly the capture that CaptureAt describes, and nothing when
      no capture exists at `p`. */
  lemma MatchAtIff(s: string, p: nat, a: string)
    ensures MatchAt(s, p) == Some(a) <==> CaptureAt(s, p, a)
  {
    if MatchAt(s, p) == Some(a) {
      MatchAtSound(s, p);
    }
    if CaptureAt(s, p, a) {
      MatchAtComplete(s, p, a);
    }
  }

  /** Characters that are all app characters lie inside the run. */
  lemma {:induction false} RunEndLower(s: string, i: nat, e: nat)
    requires i <= e <= |s|
    requires forall j | i <= j < e :: IsAppChar(s[j])
    ensures e <= RunEnd(s, i)
    decreases e - i
  {
    if i < e {
      RunEndLower(s, i + 1, e);
    }
  }

  /** The capture at a start position is unique. */
  lemma CaptureUnique(s: string, p: nat, a: string, b: string)
    requires CaptureAt(s, p, a) && CaptureAt(s, p, b)
    ensures a == b
  {
    MatchAtIff(s, p, a);
    MatchAtIff(s, p, b);
  }

  /** The leftmost start position at or after `p` where the pattern matches. */
  function ScanFrom(s: string, p: nat): (r: Option<string>)
    ensures r.Some? ==> exists q: nat :: p <= q && MatchAt(s, q) == r && forall q' | p <= q' < q :: MatchAt(s, q').None?
    ensures r.None? ==> forall q: nat | p <= q :: MatchAt(s, q).None?
    decreases |s| - p
  {
    if p >= |s| then None
    else if MatchAt(s, p).Some? then MatchAt(s, p)
    else ScanFrom(s, p + 1)
  }

  /** `value.match(marathon_app_regex)` followed by `match_data['app']`: the app group
      of the leftmost match, or `None` when the pattern matches nowhere. */
  function MarathonApp(value: string): (r: Option<string>)
    ensures r.Some? ==> ValidApp(r.value)
    ensures r.Some? ==> exists p: nat :: LeftmostCapture(value, p, r.value)
    ensures r.None? <==> forall p: nat, a: string :: !CaptureAt(value, p, a)
  {
    ScanFacts(value);
    ScanFrom(value, 0)
  }

  /** The pattern matches at `p` with capture `a`, and at no earlier position. */
  ghost predicate LeftmostCapture(s: string, p: nat, a: string) {
    CaptureAt(s, p, a) && forall q: nat, b: string | q < p :: !CaptureAt(s, q, b)
  }

  lemma ScanFacts(value: string)
    ensures ScanFrom(value, 0).Some? ==> exists p: nat :: LeftmostCapture(value, p, ScanFrom(value, 0).value)
    ensures ScanFrom(value, 0).None? <==> forall p: nat, a: string :: !CaptureAt(value, p, a)
  {
    var r := ScanFrom(value, 0);
    if r.Some? {
      var p: nat :| MatchAt(value, p) == r && forall q' | 0 <= q' < p :: MatchAt(value, q').None?;
      MatchAtIff(value, p, r.value);
      forall q: nat, b: string | q < p ensures !CaptureAt(value, q, b) {
        MatchAtIff(value, q, b);
      }
      assert LeftmostCapture(value, p, r.value);
    } else {
      forall p: nat, a: string ensures !CaptureAt(value, p, a) {
        MatchAtIff(value, p, a);
      }
    }
  }

  /** An app name after a slash, preceded by no other slash and followed by a character
      outside the app class (or by nothing), is what the pattern captures. */
  lemma MarathonAppRoundTrip(pre: string, a: string, post: string)
    requires '/' !in pre && ValidApp(a)
    requires post == [] || !IsAppChar(post[0])
    ensures MarathonApp(pre + "/" + a + post) == Some(a)
  {
    var s := pre + "/" + a + post;
    var p := |pre|;
    var e := p + 1 + |a|;
    assert s[p] == '/';
    assert s[p + 1..e] == a;
    assert e == |s| || s[e] == post[0];
    assert RunEnd(s, e) == e;
    assert CaptureAt(s, p, a);
    assert forall q | 0 <= q < p :: s[q] == pre[q] && pre[q] != '/';
    var r := MarathonApp(s);
    var p': nat :| LeftmostCapture(s, p', r.value);
    assert p' == p;
    CaptureUnique(s, p, a, r.value);
  }

  /** The plugin's own test: `/hello-world` yields the app `hello-world`. */
  lemma HelloWorldApp(a: string)
    requires a == "hello-world"
    ensures MarathonApp("/" + a) == Some(a)
  {
    assert |a| == 11 && a[0] == 'h' && a[10] == 'd';
    assert forall i | 0 <= i < |a| :: IsAppChar(a[i]);
    assert ValidApp(a);
    assert "" + "/" + a + "" == "/" + a;
  }

  /** A nested Marathon id yields its FIRST path segment: the pattern is unanchored and
      the leftmost slash wins. */
  lemma NestedIdYieldsFirstSegment(group: string, service: string)
    requires group == "group" && service == "web"
    ensures MarathonApp("/" + group + "/" + service) == Some(group)
  {
    assert ValidApp(group);
    MarathonAppRoundTrip("", group, "/" + service);
    assert "" + "/" + group + ("/" + service) == "/" + group + "/" + service;
  }

  /** A first segment too short to be an app is passed over: the leftmost slash followed
      by a valid app name wins. */
  lemma ShortSegmentSkipped(s: string)
    requires s == "/a/web"
    ensures MarathonApp(s) == Some("web")
  {
    assert RunEnd(s, 2) == 2;
    assert MatchAt(s, 0).None?;
    assert MatchAt(s, 1).None?;
    assert RunEnd(s, 4) == 6;
    assert MatchAt(s, 2) == Some(s[3..6]);
    assert s[3..6] == "web";
  }
}
