/** Redaction of sensitive values from error text: a left-to-right fold of replacements by a marker. */
module Redaction {
  import opened Wrappers
  import opened Ordering
  import opened Utf8

  const MARK: string := "[REDACTED]"

  /** Rust's `str::replace` with the marker: leftmost matches, not overlapping. */
  function Replace(t: string, s: string): string
    requires s != ""
    decreases |t|
  {
    if s <= t then MARK + Replace(t[|s|..], s)
    else if t == "" then ""
    else [t[0]] + Replace(t[1..], s)
  }

  predicate AllNonempty(values: seq<string>) {
    forall i :: 0 <= i < |values| ==> values[i] != ""
  }

  function Redact(values: seq<string>, t: string): string
    requires AllNonempty(values)
  {
    if values == [] then t
    else
      var n := |values| - 1;
      Replace(Redact(values[..n], t), values[n])
  }

  predicate OccursAt(t: string, s: string, i: nat) {
    i + |s| <= |t| && t[i..i + |s|] == s
  }

  predicate Contains(t: string, s: string) {
    exists i :: 0 <= i <= |t| && OccursAt(t, s, i)
  }

  // ---- alignments with the marker ----

  /** Laid over the marker at offset `k`, negative when it sticks out to the left, `s` agrees with it
      wherever the two overlap. */
  predicate Agrees(s: string, k: int) {
    forall p :: 0 <= p < |MARK| && k <= p < k + |s| ==> MARK[p] == s[p - k]
  }

  /** `s` disagrees with the marker at every offset at which the two overlap. */
  predicate Apart(s: string) {
    forall k :: -|s| < k < |MARK| ==> !Agrees(s, k)
  }

  // ---- what a replacement is ----

  /** A value that first occurs between `a` and `b` is replaced there, and the rest is `b` redacted. */
  lemma {:induction false} ReplacesFirst(a: string, s: string, b: string)
    requires s != "" && forall i :: 0 <= i < |a| ==> !OccursAt(a + s + b, s, i)
    ensures Replace(a + s + b, s) == a + "[REDACTED]" + Replace(b, s)
  {
    var t := a + s + b;
    if a == "" {
      assert t[..|s|] == s && t[|s|..] == b;
    } else {
      var rest := a[1..] + s + b;
      assert t[1..] == rest && t[0] == a[0];
      forall i | 0 <= i < |a| - 1 ensures !OccursAt(rest, s, i) {
        assert !OccursAt(t, s, i + 1);
        assert t[i + 1..][..|s|] == rest[i..][..|s|] || i + |s| > |rest|;
      }
      assert !OccursAt(t, s, 0);
      ReplacesFirst(a[1..], s, b);
      assert a == [a[0]] + a[1..];
    }
  }

  // ---- unfolding ----

  lemma ReplaceMatch(t: string, s: string)
    requires s != "" && s <= t
    ensures Replace(t, s) == MARK + Replace(t[|s|..], s)
  {
  }

  lemma ReplaceCopy(t: string, s: string)
    requires s != "" && !(s <= t) && t != ""
    ensures Replace(t, s) == [t[0]] + Replace(t[1..], s)
  {
  }

  lemma ReplaceNothing(s: string)
    requires s != ""
    ensures Replace("", s) == ""
  {
  }

  lemma OccursShift(a: string, b: string, s: string, i: nat)
    ensures OccursAt(a + b, s, |a| + i) <==> OccursAt(b, s, i)
  {
    if i + |s| <= |b| {
      assert (a + b)[|a| + i..|a| + i + |s|] == b[i..i + |s|];
    }
  }

  lemma OccursFirst(t: string, s: string)
    ensures OccursAt(t, s, 0) <==> s <= t
  {
    if |s| <= |t| {
      assert t[0..|s|] == t[..|s|];
    }
  }

  lemma OccursChars(t: string, s: string, i: nat, p: nat)
    requires OccursAt(t, s, i) && p < |s|
    ensures t[i + p] == s[p]
  {
    assert t[i..i + |s|][p] == t[i + p];
  }

  lemma OnMarkerAgrees(rest: string, s: string, i: nat)
    requires OccursAt(MARK + rest, s, i)
    ensures Agrees(s, i)
  {
    var out := MARK + rest;
    forall p | 0 <= p < |MARK| && i <= p < i + |s| ensures MARK[p] == s[p - i] {
      OccursChars(out, s, i, p - i);
    }
  }

  lemma TailOnMarkerAgrees(rest: string, s: string, m: nat)
    requires m <= |s| && s[m..] <= MARK + rest
    ensures Agrees(s, 0 - m)
  {
    var out, tail := MARK + rest, s[m..];
    forall p | 0 <= p < |MARK| && 0 - m <= p < 0 - m + |s| ensures MARK[p] == s[p - (0 - m)] {
      assert tail[p] == out[p];
    }
  }

  // ---- nothing sensitive is left ----

  lemma ConsTail(s: string, m: nat, t: string)
    requires m < |s| && t != ""
    ensures s[m..] <= t <==> s[m] == t[0] && s[m + 1..] <= t[1..]
  {
    assert s[m..] == [s[m]] + s[m + 1..];
    assert t == [t[0]] + t[1..];
    if s[m..] <= t {
      assert s[m + 1..] == s[m..][1..] == t[..|s| - m][1..] == t[1..][..|s| - m - 1];
    }
  }

  /** A tail of `s` found at the front of a replaced text was at the front of the text. */
  lemma {:induction false} PrefixLifts(t: string, r: string, s: string, m: nat)
    requires r != "" && Apart(s) && m <= |s| && s[m..] <= Replace(t, r)
    ensures s[m..] <= t
    decreases |t|
  {
    hide Replace, Agrees;
    if m < |s| {
      if r <= t {
        ReplaceMatch(t, r);
        TailOnMarkerAgrees(Replace(t[|r|..], r), s, m);
      } else if t != "" {
        ReplaceCopy(t, r);
        var out := Replace(t, r);
        assert out[1..] == Replace(t[1..], r) && out[0] == t[0];
        ConsTail(s, m, out);
        PrefixLifts(t[1..], r, s, m + 1);
        ConsTail(s, m, t);
      } else {
        ReplaceNothing(r);
      }
    }
  }

  lemma BeyondMarker(rest: string, s: string, i: nat)
    requires s != "" && Apart(s) && OccursAt(MARK + rest, s, i)
    ensures i >= |MARK| && OccursAt(rest, s, i - |MARK|)
  {
    hide OccursAt, Agrees;
    if i < |MARK| {
      OnMarkerAgrees(rest, s, i);
    } else {
      OccursShift(MARK, rest, s, i - |MARK|);
    }
  }

  /** Where a value kept apart from the marker occurs in a replaced text, it occurred in the text, at a place
      where no match of the replaced value starts. */
  lemma {:induction false} OccurrenceLifts(t: string, r: string, s: string, i: nat) returns (j: nat)
    requires r != "" && s != "" && Apart(s) && OccursAt(Replace(t, r), s, i)
    ensures j <= |t| && OccursAt(t, s, j) && !(r <= t[j..])
    decreases |t|
  {
    hide Replace, OccursAt, Apart;
    if r <= t {
      ReplaceMatch(t, r);
      var rest := t[|r|..];
      BeyondMarker(Replace(rest, r), s, i);
      j := OccurrenceLifts(rest, r, s, i - |MARK|);
      assert t == r + rest;
      OccursShift(r, rest, s, j);
      assert t[|r| + j..] == rest[j..];
      j := |r| + j;
    } else if i == 0 {
      OccursFirst(Replace(t, r), s);
      assert s[0..] == s && t[0..] == t;
      PrefixLifts(t, r, s, 0);
      OccursFirst(t, s);
      j := 0;
    } else {
      OccursInside(Replace(t, r), s, i);
      assert t != "" by {
        if t == "" { ReplaceNothing(r); }
      }
      ReplaceCopy(t, r);
      OccursShift([t[0]], Replace(t[1..], r), s, i - 1);
      j := OccurrenceLifts(t[1..], r, s, i - 1);
      assert t == [t[0]] + t[1..];
      OccursShift([t[0]], t[1..], s, j);
      assert t[1 + j..] == t[1..][j..];
      j := 1 + j;
    }
  }

  lemma OccursInside(t: string, s: string, i: nat)
    requires OccursAt(t, s, i)
    ensures i + |s| <= |t|
  {
  }

  lemma ReplaceKeepsOut(t: string, r: string, s: string)
    requires r != "" && s != "" && Apart(s) && (s == r || !Contains(t, s))
    ensures !Contains(Replace(t, r), s)
  {
    hide Replace, OccursAt, Apart;
    var out := Replace(t, r);
    if i :| 0 <= i <= |out| && OccursAt(out, s, i) {
      var j := OccurrenceLifts(t, r, s, i);
      OccursSlice(t, s, j);
    }
  }

  lemma OccursSlice(t: string, s: string, j: nat)
    requires j <= |t|
    ensures OccursAt(t, s, j) <==> s <= t[j..]
  {
    if j + |s| <= |t| {
      assert t[j..j + |s|] == t[j..][..|s|];
    }
  }

  /** For every text and every list of values, whatever their order and overlap with one another: a value that
      is apart from the marker is not in the redacted text. */
  lemma {:induction false} RedactedIsClean(values: seq<string>, t: string, s: string)
    requires AllNonempty(values) && s in values && s != "" && Apart(s)
    ensures !Contains(Redact(values, t), s)
  {
    hide Contains, Apart, Replace;
    var n := |values| - 1;
    var before := Redact(values[..n], t);
    if s != values[n] {
      assert s in values[..n];
      RedactedIsClean(values[..n], t, s);
    }
    ReplaceKeepsOut(before, values[n], s);
  }

  /** Values without brackets that are not part of the word in the marker are apart from it. */
  lemma PlainValuesAreApart(s: string)
    requires s != "" && '[' !in s && ']' !in s && !Contains("REDACTED", s)
    ensures Apart(s)
  {
    forall k | -|s| < k < |MARK| ensures !Agrees(s, k) {
      if k <= 0 {
        assert MARK[0] == '[' && s[0 - k] in s;
      } else if k + |s| > 9 {
        assert MARK[9] == ']' && s[9 - k] in s;
      } else if Agrees(s, k) {
        var word := "REDACTED";
        assert word == MARK[1..9];
        forall p | 0 <= p < |s| ensures word[k - 1..k - 1 + |s|][p] == s[p] {
          assert MARK[p + k] == s[p + k - k];
        }
        assert OccursAt(word, s, k - 1);
      }
    }
  }

  // ---- exactly when a single value can survive its own redaction ----

  /** In `u` followed by `t`, no match of `s` starts within `u`. */
  predicate NoMatchWithin(u: string, t: string, s: string) {
    forall j :: 0 <= j < |u| ==> !OccursAt(u + t, s, j)
  }

  predicate FirstMatchAtEnd(u: string, s: string) {
    NoMatchWithin(u, s, s)
  }

  /** `s` can be reassembled around a marker: it agrees with the marker at some offset, and when it sticks out
      to the left, that left part followed by `s` is first matched at the end of the left part. */
  predicate ReassemblesAt(s: string, k: int) {
    && -|s| < k < |MARK|
    && Agrees(s, k)
    && (k < 0 ==> FirstMatchAtEnd(s[..-k], s))
  }

  predicate Reassembles(s: string) {
    exists k :: -|s| < k < |MARK| && ReassemblesAt(s, k)
  }

  lemma {:induction false} ShortTextUnchanged(t: string, s: string)
    requires |t| < |s|
    ensures Replace(t, s) == t
  {
    if t != "" {
      ShortTextUnchanged(t[1..], s);
    }
  }

  lemma NoMatchStep(u: string, t: string, s: string)
    requires u != "" && NoMatchWithin(u, t, s)
    ensures !(s <= u + t) && NoMatchWithin(u[1..], t, s) && (u + t)[1..] == u[1..] + t
  {
    hide OccursAt;
    OccursFirst(u + t, s);
    assert u + t == [u[0]] + (u[1..] + t);
    forall j | 0 <= j < |u[1..]| ensures !OccursAt(u[1..] + t, s, j) {
      OccursShift([u[0]], u[1..] + t, s, j);
    }
  }

  /** Text before the first match is copied. */
  lemma {:induction false} CopiedUntilMatch(u: string, t: string, s: string)
    requires s != "" && NoMatchWithin(u, t, s)
    ensures Replace(u + t, s) == u + Replace(t, s)
    decreases |u|
  {
    hide Replace, NoMatchWithin;
    if u == "" {
      assert u + t == t;
    } else {
      NoMatchStep(u, t, s);
      ReplaceCopy(u + t, s);
      CopiedUntilMatch(u[1..], t, s);
      assert u == [u[0]] + u[1..];
    }
  }

  /** A text that leaks a value that reassembles. */
  function LeakingText(s: string, k: int): string
    requires -|s| < k < |MARK|
  {
    var u := if k < 0 then s[..-k] else "";
    var v := if k + |s| > |MARK| then s[|MARK| - k..] else "";
    u + (s + v)
  }

  lemma NoMatchLonger(u: string, s: string, v: string)
    requires NoMatchWithin(u, s, s)
    ensures NoMatchWithin(u, s + v, s)
  {
    hide OccursAt;
    forall j | 0 <= j < |u| ensures !OccursAt(u + (s + v), s, j) {
      assert u + (s + v) == (u + s) + v;
      OccursPrefix(u + s, v, s, j);
    }
  }

  lemma OccursPrefix(a: string, b: string, s: string, j: nat)
    requires j + |s| <= |a|
    ensures OccursAt(a + b, s, j) <==> OccursAt(a, s, j)
  {
    assert (a + b)[j..j + |s|] == a[j..j + |s|];
  }

  /** What the leaking text is turned into. */
  lemma LeakingTextReplaced(s: string, k: int)
    requires s != "" && ReassemblesAt(s, k)
    ensures Replace(LeakingText(s, k), s) == (if k < 0 then s[..-k] else "") + (MARK + if k + |s| > |MARK| then s[|MARK| - k..] else "")
  {
    hide Replace, Agrees, NoMatchWithin;
    var u := if k < 0 then s[..-k] else "";
    var v := if k + |s| > |MARK| then s[|MARK| - k..] else "";
    if k < 0 {
      NoMatchLonger(u, s, v);
    } else {
      NoMatchInNothing(s + v, s);
    }
    CopiedUntilMatch(u, s + v, s);
    ReplaceMatch(s + v, s);
    assert (s + v)[|s|..] == v;
    ShortTextUnchanged(v, s);
  }

  lemma NoMatchInNothing(t: string, s: string)
    ensures NoMatchWithin("", t, s)
  {
  }

  lemma ReassemblyLeaks(s: string, k: int)
    requires s != "" && ReassemblesAt(s, k)
    ensures Contains(Replace(LeakingText(s, k), s), s)
  {
    hide Replace, FirstMatchAtEnd, LeakingText;
    LeakingTextReplaced(s, k);
    var u := if k < 0 then s[..-k] else "";
    var v := if k + |s| > |MARK| then s[|MARK| - k..] else "";
    var out := u + (MARK + v);
    var at := if k < 0 then 0 else k;
    Reassembled(s, k, u, v, at);
    assert OccursAt(out, s, at);
  }

  lemma Reassembled(s: string, k: int, u: string, v: string, at: nat)
    requires s != "" && -|s| < k < |MARK| && Agrees(s, k)
    requires u == (if k < 0 then s[..-k] else "") && v == (if k + |s| > |MARK| then s[|MARK| - k..] else "")
    requires at == if k < 0 then 0 else k
    ensures OccursAt(u + (MARK + v), s, at)
  {
    var out := u + (MARK + v);
    assert |out| >= at + |s|;
    forall p | 0 <= p < |s| ensures out[at + p] == s[p] {
      var q := p + k;
      if 0 <= q < |MARK| {
        assert MARK[q] == s[q - k];
      }
    }
    assert out[at..at + |s|] == s;
  }

  /** No match of `s` starts before position `n`. */
  predicate NoMatchBefore(t: string, s: string, n: nat)
    requires n <= |t|
  {
    forall j :: 0 <= j < n ==> !(s <= t[j..])
  }

  lemma NoMatchBeforeStep(t: string, s: string, n: nat)
    requires t != "" && !(s <= t) && n <= |t[1..]| && NoMatchBefore(t[1..], s, n)
    ensures NoMatchBefore(t, s, n + 1) && t[n + 1..] == t[1..][n..]
  {
    forall j | 0 <= j < n + 1 ensures !(s <= t[j..]) {
      if j > 0 {
        assert t[j..] == t[1..][j - 1..];
      } else {
        assert t[0..] == t;
      }
    }
  }

  lemma SharedStep(s: string, m: nat, t: string, n: nat)
    requires t != "" && n <= |t[1..]| && m + 1 + n <= |s| && s[m] == t[0] && s[m + 1..m + 1 + n] == t[1..][..n]
    ensures s[m..m + (n + 1)] == t[..n + 1]
  {
    assert s[m..m + (n + 1)] == [s[m]] + s[m + 1..m + 1 + n];
    assert t[..n + 1] == [t[0]] + t[1..][..n];
  }

  /** `n` copied characters of `t` match `s` from `m` on, and then the first match of `s` in `t` begins, whose
      marker the rest of `s` agrees with. */
  predicate Meets(t: string, s: string, m: nat, n: nat) {
    && m + n < |s| && n <= |t| && s[m..m + n] == t[..n] && s <= t[n..]
    && NoMatchBefore(t, s, n) && Agrees(s, 0 - (m + n))
  }

  lemma MeetsAtOnce(t: string, s: string, m: nat)
    requires m < |s| && s <= t && Agrees(s, 0 - m)
    ensures Meets(t, s, m, 0)
  {
    NoneBeforeStart(t, s);
    assert t[0..] == t && s[m..m] == t[..0];
  }

  lemma MeetsLater(t: string, s: string, m: nat, n: nat)
    requires t != "" && !(s <= t) && m < |s| && s[m] == t[0] && Meets(t[1..], s, m + 1, n)
    ensures Meets(t, s, m, n + 1)
  {
    NoMatchBeforeStep(t, s, n);
    SharedStep(s, m, t, n);
  }

  /** A tail of `s` at the front of the replaced text but not of the text runs through copied text into the
      first marker. */
  lemma {:induction false} FirstMarker(t: string, s: string, m: nat) returns (n: nat)
    requires s != "" && m < |s| && s[m..] <= Replace(t, s) && !(s[m..] <= t)
    ensures Meets(t, s, m, n)
    decreases |t|
  {
    hide Replace, Meets, Agrees;
    if s <= t {
      ReplaceMatch(t, s);
      TailOnMarkerAgrees(Replace(t[|s|..], s), s, m);
      MeetsAtOnce(t, s, m);
      n := 0;
    } else {
      assert t != "" by {
        if t == "" { ReplaceNothing(s); }
      }
      CopiedTail(t, s, m);
      n := FirstMarker(t[1..], s, m + 1);
      MeetsLater(t, s, m, n);
      n := n + 1;
    }
  }

  lemma CopiedTail(t: string, s: string, m: nat)
    requires s != "" && m < |s| && t != "" && !(s <= t)
    requires s[m..] <= Replace(t, s) && !(s[m..] <= t)
    ensures m + 1 < |s| && s[m] == t[0] && s[m + 1..] <= Replace(t[1..], s) && !(s[m + 1..] <= t[1..])
  {
    hide Replace;
    ReplaceCopy(t, s);
    var out := Replace(t, s);
    assert out[1..] == Replace(t[1..], s) && out[0] == t[0];
    ConsTail(s, m, out);
    ConsTail(s, m, t);
    assert s[|s|..] <= t[1..];
  }

  lemma NoneBeforeStart(t: string, s: string)
    ensures NoMatchBefore(t, s, 0)
  {
  }

  lemma FirstMatchFollows(t: string, s: string, n: nat)
    requires n < |s| && n <= |t| && s[..n] == t[..n] && s <= t[n..] && NoMatchBefore(t, s, n)
    ensures FirstMatchAtEnd(s[..n], s)
  {
    hide OccursAt;
    var u := s[..n];
    assert t == u + t[n..];
    assert t[n..] == s + t[n + |s|..];
    assert t == (u + s) + t[n + |s|..];
    forall j | 0 <= j < n ensures !OccursAt(u + s, s, j) {
      OccursPrefix(u + s, t[n + |s|..], s, j);
      OccursSlice(t, s, j);
    }
  }

  lemma {:induction false} LeakReassembles(t: string, s: string, i: nat)
    requires s != "" && OccursAt(Replace(t, s), s, i)
    ensures Reassembles(s)
    decreases |t|
  {
    hide Replace, OccursAt, Agrees, FirstMatchAtEnd, NoMatchBefore;
    if s <= t {
      ReplaceMatch(t, s);
      var rest := Replace(t[|s|..], s);
      if i < |MARK| {
        OnMarkerAgrees(rest, s, i);
        assert ReassemblesAt(s, i);
      } else {
        OccursShift(MARK, rest, s, i - |MARK|);
        LeakReassembles(t[|s|..], s, i - |MARK|);
      }
    } else if i == 0 {
      OccursFirst(Replace(t, s), s);
      assert s[0..] == s && t[0..] == t;
      var n := FirstMarker(t, s, 0);
      assert s[0..0 + n] == s[..n];
      FirstMatchFollows(t, s, n);
      assert ReassemblesAt(s, 0 - (n as int));
    } else {
      OccursInside(Replace(t, s), s, i);
      assert t != "" by {
        if t == "" { ReplaceNothing(s); }
      }
      ReplaceCopy(t, s);
      OccursShift([t[0]], Replace(t[1..], s), s, i - 1);
      LeakReassembles(t[1..], s, i - 1);
    }
  }

  /** A single value can be found in some text redacted of it if and only if it reassembles. */
  lemma SingleValueLeaksIff(s: string)
    requires s != ""
    ensures (exists t :: Contains(Replace(t, s), s)) <==> Reassembles(s)
  {
    hide Replace, OccursAt, ReassemblesAt;
    if t :| Contains(Replace(t, s), s) {
      var i :| 0 <= i <= |Replace(t, s)| && OccursAt(Replace(t, s), s, i);
      LeakReassembles(t, s, i);
    }
    if k :| -|s| < k < |MARK| && ReassemblesAt(s, k) {
      ReassemblyLeaks(s, k);
    }
  }

  // ---- the list of values ----

  /** The bytes of a code point in UTF-8. */
  function Utf8Size(c: char): nat {
    |Encode(c as int)|
  }

  function ByteLength(s: string): (n: nat)
    ensures n >= |s|
  {
    if s == "" then 0 else Utf8Size(s[0]) + ByteLength(s[1..])
  }

  /** Longest first, as Rust measures strings. */
  predicate Longer(a: string, b: string) {
    ByteLength(a) > ByteLength(b)
  }

  /** Drop each value equal to the one before it. */
  function Dedup(values: seq<string>): seq<string> {
    if |values| <= 1 then values
    else
      var n := |values| - 1;
      var init := Dedup(values[..n]);
      if values[n] == values[n - 1] then init else init + [values[n]]
  }

  function Retain(values: seq<string>): seq<string> {
    if values == [] then []
    else
      var n := |values| - 1;
      Retain(values[..n]) + if values[n] != "" then [values[n]] else []
  }

  lemma {:induction false} DedupKeeps(values: seq<string>, s: string)
    ensures s in Dedup(values) <==> s in values
    ensures values != [] ==> Dedup(values) != [] && Dedup(values)[|Dedup(values)| - 1] == values[|values| - 1]
  {
    if |values| > 1 {
      var n := |values| - 1;
      DedupKeeps(values[..n], s);
      DedupKeeps(values[..n], values[n]);
      assert s in values <==> s in values[..n] || s == values[n];
      assert values[..n][n - 1] == values[n - 1];
      assert values[n - 1] in values[..n];
    }
  }

  lemma {:induction false} DedupSorted(values: seq<string>)
    requires SortedBy(Longer, values)
    ensures SortedBy(Longer, Dedup(values))
  {
    if |values| > 1 {
      var n := |values| - 1;
      var init := Dedup(values[..n]);
      DedupSorted(values[..n]);
      forall i | 0 <= i < |init| ensures !Longer(values[n], init[i]) {
        DedupKeeps(values[..n], init[i]);
        var j :| 0 <= j < n && values[..n][j] == init[i];
        assert values[j] == init[i];
      }
    }
  }

  lemma LongerIsWeak()
    ensures StrictWeak(Longer)
  {
  }

  lemma {:induction false} RetainKeeps(values: seq<string>, s: string)
    ensures s in Retain(values) <==> s in values && s != ""
  {
    if values != [] {
      var n := |values| - 1;
      RetainKeeps(values[..n], s);
      assert s in values <==> s in values[..n] || s == values[n];
    }
  }

  /** Sort longest first, then drop adjacent repeats. */
  function Arrange(values: seq<string>): seq<string> {
    Dedup(Sort(Longer, values))
  }

  lemma ArrangeKeeps(values: seq<string>)
    ensures SortedBy(Longer, Arrange(values))
    ensures forall s :: s in Arrange(values) <==> s in values
  {
    hide Sort, Dedup;
    LongerIsWeak();
    SortSorted(Longer, values);
    SortMembers(Longer, values);
    DedupSorted(Sort(Longer, values));
    forall s ensures s in Arrange(values) <==> s in values {
      DedupKeeps(Sort(Longer, values), s);
    }
  }

  predicate NeighboursDiffer(values: seq<string>) {
    forall i :: 0 < i < |values| ==> values[i - 1] != values[i]
  }

  lemma {:induction false} DedupSeparates(values: seq<string>)
    ensures NeighboursDiffer(Dedup(values))
  {
    if |values| > 1 {
      DedupSeparates(values[..|values| - 1]);
      DedupKeeps(values[..|values| - 1], "");
    }
  }

  /** Of two values the longer is redacted first, and so it is redacted whole though the other occurs in it. */
  lemma LongerRedactedWhole(a: string, b: string)
    requires b != "" && ByteLength(a) > ByteLength(b) && !Contains("[REDACTED]", b)
    ensures Arrange([a, b]) == Arrange([b, a]) == [a, b]
    ensures Redact(Arrange([b, a]), a) == "[REDACTED]"
  {
    hide ByteLength, Replace, OccursAt;
    PairSorted(a, b);
    assert [a, b][..1] == [a] && [a][..0] == [];
    assert a != b && a != "" by { NothingIsShort(); }
    assert Dedup([a]) == [a] && Dedup([a, b]) == [a, b];
    assert a + "" == a && "" + a + "" == a;
    ReplacesFirst("", a, "");
    ReplaceNothing(a);
    assert Redact([a], a) == Replace(a, a);
    assert Replace(a, a) == "[REDACTED]";
    ReplaceAbsent("[REDACTED]", b);
  }

  lemma NothingIsShort()
    ensures ByteLength("") == 0
  {
  }

  lemma PairSorted(a: string, b: string)
    requires Longer(a, b)
    ensures Sort(Longer, [a, b]) == [a, b] == Sort(Longer, [b, a])
  {
    hide ByteLength;
    assert [a, b][1..] == [b] && [b, a][1..] == [a] && [a][1..] == [] && [b][1..] == [];
    assert Sort(Longer, [a]) == [a] && Sort(Longer, [b]) == [b];
  }

  // ---- exactly which values are safe in every list ----

  /** Longest first and without repeats. */
  predicate Arranged(values: seq<string>) {
    && AllNonempty(values) && SortedBy(Longer, values)
    && forall i, j :: 0 <= i < j < |values| ==> values[i] != values[j]
  }

  /** No text redacted of any list with `s` in it contains `s`. */
  ghost predicate SafeInEveryList(s: string) {
    forall values, t :: AllNonempty(values) && s in values ==> !Contains(Redact(values, t), s)
  }

  /** The same of the lists that are sorted and free of repeats. */
  ghost predicate SafeInEveryArrangedList(s: string) {
    forall values, t :: Arranged(values) && s in values ==> !Contains(Redact(values, t), s)
  }

  function Run(c: char, n: nat): (r: string)
    ensures |r| == n && forall i :: 0 <= i < n ==> r[i] == c
  {
    seq(n, i requires 0 <= i < n => c)
  }

  /** A letter that is none of the three. */
  function Fresh(x: char, y: char, z: char): (c: char)
    ensures c != x && c != y && c != z && c as int < 0x80
  {
    if 'a' !in {x, y, z} then 'a' else if 'b' !in {x, y, z} then 'b' else if 'c' !in {x, y, z} then 'c' else 'd'
  }

  lemma {:induction false} RunLength(c: char, n: nat)
    requires c as int < 0x80
    ensures ByteLength(Run(c, n)) == n
  {
    if n > 0 {
      assert Run(c, n)[1..] == Run(c, n - 1);
      RunLength(c, n - 1);
    }
  }

  /** The parts of `s` that stick out of the marker, left and right. */
  function Before(s: string, k: int): (u: string)
    requires -|s| < k < |MARK|
    ensures |u| < |s| || s == ""
  {
    if k < 0 then s[..-k] else ""
  }

  function After(s: string, k: int): (v: string)
    requires -|s| < k < |MARK|
    ensures |v| < |s| || s == ""
  {
    if k + |s| > |MARK| then s[|MARK| - k..] else ""
  }

  /** As long as `s`, of a letter that neither ends `s` nor stands before the run. */
  function Filler(s: string, k: int): string
    requires s != "" && -|s| < k < |MARK|
  {
    var u := Before(s, k);
    Run(Fresh(s[0], s[|s| - 1], if u == "" then s[0] else u[|u| - 1]), |s|)
  }

  lemma DiffersSomewhere(t: string, s: string, j: nat, p: nat)
    requires p < |s| && j + p < |t| && t[j + p] != s[p]
    ensures !OccursAt(t, s, j)
  {
    if OccursAt(t, s, j) {
      OccursChars(t, s, j, p);
    }
  }

  /** A window as long as the run starts or ends in it. */
  lemma FillerBlocks(s: string, k: int, j: nat)
    requires s != "" && -|s| < k < |MARK|
    ensures !OccursAt(Before(s, k) + (Filler(s, k) + After(s, k)), s, j)
  {
    var u, r, v := Before(s, k), Filler(s, k), After(s, k);
    var t := u + (r + v);
    if j + |s| <= |t| {
      if j < |u| {
        assert t[j + (|s| - 1)] == r[j + (|s| - 1) - |u|];
        DiffersSomewhere(t, s, j, |s| - 1);
      } else {
        assert t[j] == r[j - |u|];
        DiffersSomewhere(t, s, j, 0);
      }
    }
  }

  lemma NoRunBefore(s: string, k: int, j: nat)
    requires s != "" && -|s| < k < |MARK| && j < |Before(s, k)|
    ensures !OccursAt(Before(s, k) + (Filler(s, k) + After(s, k)), Filler(s, k), j)
  {
    var u, r, v := Before(s, k), Filler(s, k), After(s, k);
    var t := u + (r + v);
    assert t[|u| - 1] == u[|u| - 1];
    DiffersSomewhere(t, r, j, |u| - 1 - j);
  }

  /** Text in which a value does not occur is left alone. */
  lemma ReplaceAbsent(t: string, s: string)
    requires s != "" && forall j :: 0 <= j <= |t| ==> !OccursAt(t, s, j)
    ensures Replace(t, s) == t
  {
    hide OccursAt, Replace;
    assert t + "" == t;
    CopiedUntilMatch(t, "", s);
    ReplaceNothing(s);
  }

  lemma FillerRedacted(s: string, k: int)
    requires s != "" && -|s| < k < |MARK|
    ensures var u, r, v := Before(s, k), Filler(s, k), After(s, k);
            r != "" && Replace(Replace(u + (r + v), s), r) == u + (MARK + v)
  {
    hide OccursAt, Replace, Fresh;
    var u, r, v := Before(s, k), Filler(s, k), After(s, k);
    var t := u + (r + v);
    forall j | 0 <= j <= |t| ensures !OccursAt(t, s, j) {
      FillerBlocks(s, k, j);
    }
    ReplaceAbsent(t, s);
    forall j | 0 <= j < |u| ensures !OccursAt(t, r, j) {
      NoRunBefore(s, k, j);
    }
    CopiedUntilMatch(u, r + v, r);
    ReplaceMatch(r + v, r);
    assert (r + v)[|r|..] == v;
    ShortTextUnchanged(v, r);
  }

  lemma FillerShape(s: string, k: int)
    requires s != "" && -|s| < k < |MARK|
    ensures Filler(s, k) != "" && Filler(s, k) != s && !Longer(Filler(s, k), s)
  {
    hide ByteLength, Fresh, Before;
    var u := Before(s, k);
    var c := Fresh(s[0], s[|s| - 1], if u == "" then s[0] else u[|u| - 1]);
    RunLength(c, |s|);
    assert Filler(s, k)[0] == c != s[0];
  }

  lemma PairArranged(s: string, r: string)
    requires s != "" && r != "" && r != s && !Longer(r, s)
    ensures Arranged([s, r])
  {
    hide Longer;
  }

  lemma FillerPair(s: string, k: int)
    requires s != "" && -|s| < k < |MARK|
    ensures Arranged([s, Filler(s, k)])
    ensures forall t :: Redact([s, Filler(s, k)], t) == Replace(Replace(t, s), Filler(s, k))
  {
    hide Replace, Redact, Filler, Arranged, Longer;
    FillerShape(s, k);
    PairArranged(s, Filler(s, k));
    forall t ensures Redact([s, Filler(s, k)], t) == Replace(Replace(t, s), Filler(s, k)) {
      PairRedacts(s, Filler(s, k), t);
    }
  }

  lemma PairRedacts(s: string, r: string, t: string)
    requires s != "" && r != ""
    ensures Redact([s, r], t) == Replace(Replace(t, s), r)
  {
    hide Replace;
    assert [s, r][..1] == [s] && [s][..0] == [];
    assert Redact([s], t) == Replace(t, s);
  }

  /** A value that agrees with the marker somewhere comes back when another value is as long and harmless. */
  lemma AgreementLeaks(s: string, k: int)
    requires s != "" && -|s| < k < |MARK| && Agrees(s, k)
    ensures Contains(Redact([s, Filler(s, k)], Before(s, k) + (Filler(s, k) + After(s, k))), s)
  {
    hide Replace, Agrees, Arranged, OccursAt, Filler;
    var u, r, v := Before(s, k), Filler(s, k), After(s, k);
    FillerPair(s, k);
    FillerRedacted(s, k);
    Reassembled(s, k, u, v, if k < 0 then 0 else k);
    var out := u + (MARK + v);
    assert OccursAt(out, s, if k < 0 then 0 else k);
  }

  /** Disagreeing with the marker wherever they overlap is exactly what keeps a value out of every text redacted of
      every list that holds it, and the lists that occur do not change that. */
  lemma SafeIffApart(s: string)
    requires s != ""
    ensures SafeInEveryList(s) <==> Apart(s)
    ensures SafeInEveryArrangedList(s) <==> Apart(s)
  {
    hide Redact, Contains, Agrees, Before, After, Filler;
    if Apart(s) {
      forall values, t | AllNonempty(values) && s in values ensures !Contains(Redact(values, t), s) {
        hide Apart;
        RedactedIsClean(values, t, s);
      }
    } else {
      var k :| -|s| < k < |MARK| && Agrees(s, k);
      FillerPair(s, k);
      AgreementLeaks(s, k);
      assert s in [s, Filler(s, k)];
    }
  }

  class SensitiveValues {
    var values: seq<string>

    ghost predicate Valid()
      reads this
    {
      SortedBy(Longer, values) && NeighboursDiffer(values) && AllNonempty(values)
    }

    /** The locator and the paths of the bundle, receipt, key and signature, less the empty ones. */
    constructor (given: seq<string>)
      ensures Valid()
      ensures forall s :: s in values <==> s in given && s != ""
    {
      values := Arrange(Retain(given));
      new;
      ArrangeKeeps(Retain(given));
      DedupSeparates(Sort(Longer, Retain(given)));
      forall s ensures s in values <==> s in given && s != "" {
        RetainKeeps(given, s);
      }
      assert forall i :: 0 <= i < |values| ==> values[i] in values;
    }

    method AddPath(value: string)
      requires Valid()
      modifies this
      ensures Valid()
      ensures forall s :: s in values <==> s in old(values) || (s == value && value != "")
    {
      if value != "" {
        values := Arrange(values + [value]);
        ArrangeKeeps(old(values) + [value]);
        DedupSeparates(Sort(Longer, old(values) + [value]));
        assert forall i :: 0 <= i < |values| ==> values[i] in values;
        assert forall i :: 0 <= i < |old(values)| ==> old(values)[i] in old(values);
      }
    }

    /** Whatever was ever added and is apart from the marker is gone from the text. */
    method RedactText(t: string) returns (r: string)
      requires Valid()
      ensures r == Redact(values, t)
      ensures forall s :: s in values && Apart(s) ==> !Contains(r, s)
    {
      r := t;
      for i := 0 to |values|
        invariant AllNonempty(values[..i]) && r == Redact(values[..i], t)
      {
        assert values[..i + 1][..i] == values[..i];
        r := Replace(r, values[i]);
      }
      assert values[..|values|] == values;
      forall s | s in values && Apart(s) ensures !Contains(r, s) {
        RedactedIsClean(values, t, s);
      }
    }
  }
}
