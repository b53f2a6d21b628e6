/** String helpers with Ruby's semantics: `split(sep).last`, `include?`, ASCII case
    folding for a `/.../i` literal, and `strip`. */
module Text {
  import opened Common

  // ---------------------------------------------------------------------------
  // `s.split(sep).last`
  // ---------------------------------------------------------------------------

  /** The longest suffix of `s` that holds no `sep`. */
  function TrailingRun(s: string, sep: char): (r: string)
    ensures |r| <= |s| && r == s[|s| - |r|..]
    ensures sep !in r
    ensures |r| == |s| || s[|s| - |r| - 1] == sep
    decreases |s|
  {
    if s == [] || s[|s| - 1] == sep then []
    else TrailingRun(s[..|s| - 1], sep) + [s[|s| - 1]]
  }

  /** Ruby's `s.split(sep).last` for a one-character separator. `split` drops the
      trailing empty fields, so the result is the last NON-EMPTY field; a string made
      only of separators (the empty string included) splits into `[]`, whose `last`
      is `nil`. */
  function LastField(s: string, sep: char): (r: Option<string>)
    ensures r.None? <==> forall i | 0 <= i < |s| :: s[i] == sep
    ensures r.Some? ==> r.value != [] && sep !in r.value
    decreases |s|
  {
    if s == [] then None
    else if s[|s| - 1] == sep then LastField(s[..|s| - 1], sep)
    else Some(TrailingRun(s, sep))
  }

  /** `v` is the last field of `s`: it is preceded by a separator (or the start of
      `s`), holds no separator, is non-empty and only separators follow it. */
  ghost predicate IsLastField(s: string, sep: char, v: string) {
    v != [] && sep !in v && exists p: string, q: string :: SplitsAround(s, sep, p, v, q)
  }

  /** `s` is `p + v + q` where `p` is empty or ends in `sep` and `q` is only separators. */
  predicate SplitsAround(s: string, sep: char, p: string, v: string, q: string) {
    s == p + v + q && (p == [] || p[|p| - 1] == sep) && forall i | 0 <= i < |q| :: q[i] == sep
  }

  /** LastField finds exactly the field IsLastField describes. */
  lemma {:induction false} LastFieldSound(s: string, sep: char)
    ensures LastField(s, sep).Some? ==> IsLastField(s, sep, LastField(s, sep).value)
    decreases |s|
  {
    if s == [] {
    } else if s[|s| - 1] == sep {
      var s' := s[..|s| - 1];
      assert s == s' + [sep];
      LastFieldSound(s', sep);
      if LastField(s', sep).Some? {
        var v := LastField(s', sep).value;
        var p, q :| SplitsAround(s', sep, p, v, q);
        SplitsAroundExtend(s', sep, p, v, q);
      }
    } else {
      var v := TrailingRun(s, sep);
      var p := s[..|s| - |v|];
      assert s == p + v;
      assert SplitsAround(s, sep, p, v, []);
    }
  }

  /** Appending a separator keeps the field. */
  lemma SplitsAroundExtend(s: string, sep: char, p: string, v: string, q: string)
    requires SplitsAround(s, sep, p, v, q)
    ensures SplitsAround(s + [sep], sep, p, v, q + [sep])
  {
    assert s + [sep] == p + v + (q + [sep]);
  }

  /** Any decomposition that IsLastField accepts is the one LastField returns. */
  lemma {:induction false} LastFieldComplete(s: string, sep: char, v: string)
    requires IsLastField(s, sep, v)
    ensures LastField(s, sep) == Some(v)
    decreases |s|
  {
    var p, q :| SplitsAround(s, sep, p, v, q);
    if q != [] {
      var s' := s[..|s| - 1];
      assert s[|s| - 1] == q[|q| - 1];
      assert s' == p + v + q[..|q| - 1];
      assert SplitsAround(s', sep, p, v, q[..|q| - 1]);
      LastFieldComplete(s', sep, v);
    } else {
      assert s == p + v;
      assert s[|s| - 1] == v[|v| - 1];
      TrailingRunOfField(s, sep, p, v);
    }
  }

  /** A non-empty separator-free tail that follows a separator (or the start) is the
      trailing run. */
  lemma {:induction false} TrailingRunOfField(s: string, sep: char, p: string, v: string)
    requires s == p + v && v != [] && sep !in v
    requires p == [] || p[|p| - 1] == sep
    ensures TrailingRun(s, sep) == v
    decreases |v|
  {
    var last := v[|v| - 1];
    var v' := v[..|v| - 1];
    var s' := s[..|s| - 1];
    assert v == v' + [last];
    assert s == s' + [last];
    assert s' == p + v';
    assert last != sep by { assert last in v; }
    assert TrailingRun(s, sep) == TrailingRun(s', sep) + [last];
    if v' == [] {
      assert s' == p;
    } else {
      assert sep !in v' by { assert forall c | c in v' :: c in v; }
      TrailingRunOfField(s', sep, p, v');
    }
  }

  /** Both directions together: `LastField(s, sep)` is `Some(v)` exactly when `v` is the
      last field of `s`. */
  lemma LastFieldIff(s: string, sep: char, v: string)
    ensures LastField(s, sep) == Some(v) <==> IsLastField(s, sep, v)
  {
    LastFieldSound(s, sep);
    if IsLastField(s, sep, v) {
      LastFieldComplete(s, sep, v);
    }
  }

  /** A non-empty separator-free string after the last separator is the last field. */
  lemma LastFieldAfterSeparator(front: string, sep: char, v: string)
    requires v != [] && sep !in v
    ensures LastField(front + [sep] + v, sep) == Some(v)
  {
    assert SplitsAround(front + [sep] + v, sep, front + [sep], v, []);
    LastFieldComplete(front + [sep] + v, sep, v);
  }

  // ---------------------------------------------------------------------------
  // `s.include?(p)` and `s =~ /p/i`
  // ---------------------------------------------------------------------------

  predicate OccursAt(s: string, p: string, i: nat) {
    i + |p| <= |s| && s[i..i + |p|] == p
  }

  /** Whether `p` occurs in `s` at an index at or after `i` (a left-to-right scan). */
  predicate OccursFrom(s: string, p: string, i: nat)
    decreases |s| - i
  {
    i + |p| <= |s| && (OccursAt(s, p, i) || OccursFrom(s, p, i + 1))
  }

  /** Ruby's `s.include?(p)`. */
  predicate Contains(s: string, p: string) {
    OccursFrom(s, p, 0)
  }

  lemma {:induction false} OccursFromIff(s: string, p: string, i: nat)
    ensures OccursFrom(s, p, i) <==> exists j: nat :: i <= j && OccursAt(s, p, j)
    decreases |s| - i
  {
    if i + |p| <= |s| {
      OccursFromIff(s, p, i + 1);
      if exists j: nat :: i <= j && OccursAt(s, p, j) {
        var j: nat :| i <= j && OccursAt(s, p, j);
        if j != i {
          assert i + 1 <= j;
        }
      }
    }
  }

  /** `Contains` is the existence of an occurrence. */
  lemma ContainsIff(s: string, p: string)
    ensures Contains(s, p) <==> exists j: nat :: OccursAt(s, p, j)
  {
    OccursFromIff(s, p, 0);
  }

  /** ASCII lower-casing, the case folding of a case-insensitive pattern literal. */
  function ToLower(c: char): char {
    if 'A' <= c <= 'Z' then (c as int + 32) as char else c
  }

  /** `s` with every character lower-cased. */
  function Lower(s: string): string {
    seq(|s|, i requires 0 <= i < |s| => ToLower(s[i]))
  }

  /** `s =~ /p/i` for a lower-case pattern `p` of ASCII characters. */
  predicate ContainsIgnoringCase(s: string, p: string) {
    Contains(Lower(s), p)
  }

  /** Character `c` of the subject matches character `d` of a case-insensitive pattern:
      it is `d` itself, or `d` is a lower-case ASCII letter and `c` its capital. */
  predicate MatchesIgnoringCase(c: char, d: char) {
    c == d || ('a' <= d <= 'z' && c as int + 32 == d as int)
  }

  /** The pattern `p` matches `s` at index `j`, ignoring case. */
  predicate OccursIgnoringCaseAt(s: string, p: string, j: nat) {
    j + |p| <= |s| && forall k | 0 <= k < |p| :: MatchesIgnoringCase(s[j + k], p[k])
  }

  /** A pattern with no capital ASCII letters. */
  predicate NoCapitals(p: string) {
    forall k | 0 <= k < |p| :: !('A' <= p[k] <= 'Z')
  }

  /** `ContainsIgnoringCase` is a case-insensitive match somewhere in `s`: each pattern
      character is matched by itself or, for a letter, by its capital. */
  lemma ContainsIgnoringCaseIff(s: string, p: string)
    requires NoCapitals(p)
    ensures ContainsIgnoringCase(s, p) <==> exists j: nat :: OccursIgnoringCaseAt(s, p, j)
  {
    var t := Lower(s);
    ContainsIff(t, p);
    forall j: nat
      ensures OccursAt(t, p, j) <==> OccursIgnoringCaseAt(s, p, j)
    {
      if j + |p| <= |s| {
        forall k | 0 <= k < |p|
          ensures t[j + k] == p[k] <==> MatchesIgnoringCase(s[j + k], p[k])
        {
        }
        if OccursAt(t, p, j) {
          forall k | 0 <= k < |p| ensures t[j + k] == p[k] {
            assert t[j..j + |p|][k] == t[j + k];
          }
        }
        if OccursIgnoringCaseAt(s, p, j) {
          assert t[j..j + |p|] == p;
        }
      }
    }
  }

  /** A character outside the separator witnesses that `LastField` is defined. */
  lemma LastFieldDefined(s: string, sep: char, i: nat)
    requires i < |s| && s[i] != sep
    ensures LastField(s, sep).Some?
  {
  }

  /** A string that contains (in any case) a pattern not starting with `sep` has a last
      field. */
  lemma ContainsGivesLastField(s: string, p: string, sep: char, caseless: bool)
    requires p != [] && p[0] != sep && ToLower(sep) == sep
    requires if caseless then ContainsIgnoringCase(s, p) else Contains(s, p)
    ensures LastField(s, sep).Some?
  {
    var t := if caseless then Lower(s) else s;
    ContainsIff(t, p);
    var j: nat :| OccursAt(t, p, j);
    assert t[j] == p[0];
    LastFieldDefined(s, sep, j);
  }

  // ---------------------------------------------------------------------------
  // `s.strip`
  // ---------------------------------------------------------------------------

  /** The characters Ruby's `strip` removes: NUL, tab, line feed, vertical tab, form
      feed, carriage return and space. */
  predicate IsSpace(c: char) {
    c == ' ' || 9 <= c as int <= 13 || c as int == 0
  }

  function StripStart(s: string): (r: string)
    ensures |r| <= |s| && r == s[|s| - |r|..]
    ensures forall i | 0 <= i < |s| - |r| :: IsSpace(s[i])
    ensures r == [] || !IsSpace(r[0])
    decreases |s|
  {
    if s != [] && IsSpace(s[0]) then StripStart(s[1..]) else s
  }

  function StripEnd(s: string): (r: string)
    ensures |r| <= |s| && r == s[..|r|]
    ensures forall i | |r| <= i < |s| :: IsSpace(s[i])
    ensures r == [] || !IsSpace(r[|r| - 1])
    decreases |s|
  {
    if s != [] && IsSpace(s[|s| - 1]) then StripEnd(s[..|s| - 1]) else s
  }

  /** Every character of `s` is white space. */
  predicate AllSpace(s: string) {
    forall i | 0 <= i < |s| :: IsSpace(s[i])
  }

  /** `StripStart` cuts a prefix of white space. */
  lemma {:induction false} StripStartCut(s: string)
    ensures var a := s[..|s| - |StripStart(s)|]; s == a + StripStart(s) && AllSpace(a)
  {
    var a := s[..|s| - |StripStart(s)|];
    forall i | 0 <= i < |a| ensures IsSpace(a[i]) {
      assert a[i] == s[i];
    }
  }

  /** `StripEnd` cuts a suffix of white space. */
  lemma {:induction false} StripEndCut(t: string)
    ensures var b := t[|StripEnd(t)|..]; t == StripEnd(t) + b && AllSpace(b)
  {
    var b := t[|StripEnd(t)|..];
    forall i | 0 <= i < |b| ensures IsSpace(b[i]) {
      assert b[i] == t[|StripEnd(t)| + i];
    }
  }

  /** `r` is `s` with white space alone cut from its two ends. */
  ghost predicate TrimmedOf(s: string, r: string) {
    exists a, b :: s == a + r + b && AllSpace(a) && AllSpace(b)
  }

  /** Parts `a` and `b` of white space around `r` witness `TrimmedOf`. */
  lemma TrimmedOfWitness(s: string, a: string, r: string, b: string)
    requires s == a + (r + b) && AllSpace(a) && AllSpace(b)
    ensures TrimmedOf(s, r)
  {
    assert a + (r + b) == a + r + b;
  }

  /** Stripping the start and then the end of `s` cuts only white space from it. */
  lemma StripCutsSpace(s: string)
    ensures TrimmedOf(s, StripEnd(StripStart(s)))
  {
    var t := StripStart(s);
    var r := StripEnd(t);
    StripStartCut(s);
    StripEndCut(t);
    TrimmedOfWitness(s, s[..|s| - |t|], r, t[|r|..]);
  }

  /** Ruby's `s.strip`: `s` without its leading and trailing white space. The result is
      `s` with only white space cut from either end, and it neither starts nor ends with
      white space. */
  function Strip(s: string): (r: string)
    ensures r == [] || (!IsSpace(r[0]) && !IsSpace(r[|r| - 1]))
    ensures TrimmedOf(s, r)
  {
    StripCutsSpace(s);
    StripEnd(StripStart(s))
  }
}
