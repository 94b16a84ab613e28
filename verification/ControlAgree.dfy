/** The loose control reader of the identity check, and its agreement with the strict parser. */
module ControlAgree {
  import opened Wrappers
  import opened Text
  import opened ControlFiles

  // ---- the loose reader ----

  datatype Identity = Identity(name: string, version: string, release: Option<string>, arch: string)

  datatype LooseError = DuplicateKey | Missing | Malformed | NoRelease

  predicate HasKey(line: string, key: string) {
    SplitOnce(line, ':').Some? && SplitOnce(line, ':').value.0 == key
  }

  function TrimmedRest(line: string): string {
    match SplitOnce(line, ':')
    case None => ""
    case Some((_, rest)) => Trim(rest)
  }

  /** No two lines with a colon have the same text before it. */
  predicate DistinctKeys(lines: seq<string>) {
    forall i, j :: 0 <= i < j < |lines| && SplitOnce(lines[i], ':').Some? ==>
      !HasKey(lines[j], SplitOnce(lines[i], ':').value.0)
  }

  /** Some line gives `key` this value. */
  predicate Gives(lines: seq<string>, key: string, value: string) {
    exists i :: 0 <= i < |lines| && HasKey(lines[i], key) && TrimmedRest(lines[i]) == value
  }

  predicate Sound(value: string) {
    value != "" && Trim(value) == value && value[0] != '-' && All(value, c => !IsControl(c))
  }

  predicate SoundField(lines: seq<string>, key: string, value: string) {
    Gives(lines, key, value) && Sound(value)
  }

  /** What the loose reader promises about a body. */
  predicate IsLoose(body: string, id: Identity) {
    var lines := LinesOf(body);
    && DistinctKeys(lines)
    && SoundField(lines, "Package", id.name)
    && SoundField(lines, "Architecture", id.arch)
    && id.release.Some? && '-' !in id.release.value
    && SoundField(lines, "Version", id.version + ['-'] + id.release.value)
  }

  /** Rust's `rsplit_once`: cut at the last separator. */
  function RSplitOnce(s: string, c: char): (r: Option<(string, string)>)
    ensures r.None? <==> c !in s
    ensures r.Some? ==> s == r.value.0 + [c] + r.value.1 && c !in r.value.1
  {
    if s == "" then None
    else
      var n := |s| - 1;
      if s[n] == c then
        assert s == s[..n] + [c] + "";
        Some((s[..n], ""))
      else
        match RSplitOnce(s[..n], c)
        case None => None
        case Some((a, b)) =>
          assert s == s[..n] + [s[n]];
          Some((a, b + [s[n]]))
  }

  lemma RSplitUnique(a: string, b: string, x: string, y: string, c: char)
    requires a + [c] + b == x + [c] + y && c !in b && c !in y
    ensures a == x && b == y
  {
    var s := a + [c] + b;
    assert s[|a|] == c && s[|x|] == c;
    assert forall i :: |a| < i < |s| ==> s[i] == b[i - |a| - 1];
    assert forall i :: |x| < i < |s| ==> s[i] == y[i - |x| - 1];
    assert |a| == |x|;
    assert a == s[..|a|] && x == s[..|x|];
    assert b == s[|a| + 1..] && y == s[|x| + 1..];
  }

  lemma GivesOnce(lines: seq<string>, key: string, a: string, b: string)
    requires DistinctKeys(lines) && Gives(lines, key, a) && Gives(lines, key, b)
    ensures a == b
  {
    hide SplitOnce, Trim;
    var i :| 0 <= i < |lines| && HasKey(lines[i], key) && TrimmedRest(lines[i]) == a;
    var j :| 0 <= j < |lines| && HasKey(lines[j], key) && TrimmedRest(lines[j]) == b;
  }

  lemma LooseUnique(body: string, a: Identity, b: Identity)
    requires IsLoose(body, a) && IsLoose(body, b)
    ensures a == b
  {
    hide LinesOf, DistinctKeys, Gives, Sound;
    var lines := LinesOf(body);
    GivesOnce(lines, "Package", a.name, b.name);
    GivesOnce(lines, "Architecture", a.arch, b.arch);
    GivesOnce(lines, "Version", a.version + ['-'] + a.release.value, b.version + ['-'] + b.release.value);
    RSplitUnique(a.version, a.release.value, b.version, b.release.value, '-');
  }

  /** The map holds exactly what the lines give. */
  ghost predicate Holds(lines: seq<string>, m: map<string, string>) {
    && DistinctKeys(lines)
    && forall key, value :: (key in m && m[key] == value) <==> Gives(lines, key, value)
  }

  lemma HoldsSkip(lines: seq<string>, line: string, m: map<string, string>)
    requires Holds(lines, m) && SplitOnce(line, ':').None?
    ensures Holds(lines + [line], m)
  {
    hide SplitOnce, Trim;
    forall key, value ensures Gives(lines + [line], key, value) <==> Gives(lines, key, value) {
      GivesSnoc(lines, line, key, value);
    }
  }

  lemma GivesSnoc(lines: seq<string>, line: string, key: string, value: string)
    ensures Gives(lines + [line], key, value) <==>
      (Gives(lines, key, value) || (HasKey(line, key) && TrimmedRest(line) == value))
  {
    hide HasKey, TrimmedRest;
    var longer := lines + [line];
    assert longer[|lines|] == line;
    assert forall i :: 0 <= i < |lines| ==> longer[i] == lines[i];
  }

  lemma HoldsInsert(lines: seq<string>, line: string, m: map<string, string>, key: string)
    requires Holds(lines, m) && HasKey(line, key)
    ensures key in m ==> !DistinctKeys(lines + [line])
    ensures key !in m ==> Holds(lines + [line], m[key := TrimmedRest(line)])
  {
    hide SplitOnce, Trim;
    var longer := lines + [line];
    if key in m {
      assert Gives(lines, key, m[key]);
      var i :| 0 <= i < |lines| && HasKey(lines[i], key);
      assert longer[i] == lines[i] && longer[|lines|] == line;
    } else {
      NewKey(lines, line, key);
      var wider := m[key := TrimmedRest(line)];
      forall k, v ensures (k in wider && wider[k] == v) <==> Gives(longer, k, v) {
        GivesSnoc(lines, line, k, v);
      }
    }
  }

  lemma NewKey(lines: seq<string>, line: string, key: string)
    requires DistinctKeys(lines) && HasKey(line, key)
    requires forall value :: !Gives(lines, key, value)
    ensures DistinctKeys(lines + [line])
  {
    hide SplitOnce, Trim, TrimmedRest;
    var longer := lines + [line];
    forall i, j | 0 <= i < j < |longer| && SplitOnce(longer[i], ':').Some?
      ensures !HasKey(longer[j], SplitOnce(longer[i], ':').value.0)
    {
      if j == |lines| {
        assert longer[i] == lines[i];
        assert !Gives(lines, key, TrimmedRest(lines[i]));
      } else {
        assert longer[i] == lines[i] && longer[j] == lines[j];
      }
    }
  }

  lemma DistinctPrefix(lines: seq<string>, k: nat)
    requires k <= |lines|
    ensures DistinctKeys(lines) ==> DistinctKeys(lines[..k])
  {
    hide HasKey, SplitOnce;
    assert forall i :: 0 <= i < k ==> lines[..k][i] == lines[i];
  }

  method ReadField(fields: map<string, string>, key: string) returns (r: Result<string, LooseError>)
    ensures r.Success? ==> key in fields && r.value == fields[key] && Sound(r.value)
    ensures r.Failure? ==> r.error == if key in fields then Malformed else Missing
    ensures r.Failure? ==> key !in fields || !Sound(fields[key])
  {
    hide Trim, IsControl;
    if key !in fields {
      return Failure(Missing);
    }
    var value := fields[key];
    if value == "" || Trim(value) != value || value[0] == '-' || exists i :: 0 <= i < |value| && IsControl(value[i]) {
      return Failure(Malformed);
    }
    return Success(value);
  }

  /** Some value is sound for this key. */
  ghost predicate HasSound(lines: seq<string>, key: string) {
    exists value :: SoundField(lines, key, value)
  }

  lemma FieldKnown(lines: seq<string>, m: map<string, string>, key: string)
    requires Holds(lines, m)
    ensures HasSound(lines, key) <==> key in m && Sound(m[key])
    ensures key in m && Sound(m[key]) ==> SoundField(lines, key, m[key])
  {
    hide Sound, DistinctKeys, Gives;
    forall value | SoundField(lines, key, value) ensures key in m && Sound(m[key]) {
      assert Gives(lines, key, value);
    }
    if key in m {
      assert Gives(lines, key, m[key]);
      assert Sound(m[key]) ==> SoundField(lines, key, m[key]);
    }
  }

  lemma NotLoose(body: string)
    requires !(DistinctKeys(LinesOf(body)) && HasSound(LinesOf(body), "Package")
               && HasSound(LinesOf(body), "Architecture") && HasSound(LinesOf(body), "Version"))
    ensures !exists id :: IsLoose(body, id)
  {
    hide LinesOf, SoundField, DistinctKeys;
  }

  lemma VersionHasDash(body: string, m: map<string, string>, id: Identity)
    requires Holds(LinesOf(body), m) && IsLoose(body, id)
    ensures "Version" in m && '-' in m["Version"]
  {
    hide LinesOf, Sound, Gives, DistinctKeys;
    var full := id.version + ['-'] + id.release.value;
    assert full[|id.version|] == '-';
    assert Gives(LinesOf(body), "Version", full);
  }

  lemma NoDash(body: string, m: map<string, string>)
    requires Holds(LinesOf(body), m) && "Version" in m && '-' !in m["Version"]
    ensures !exists id :: IsLoose(body, id)
  {
    hide Holds, IsLoose;
    forall id ensures !IsLoose(body, id) {
      if IsLoose(body, id) {
        VersionHasDash(body, m, id);
      }
    }
  }

  /** Succeeds exactly when the body has distinct keys and three sound fields, the version with a release. */
  method ParseLoose(body: string) returns (r: Result<Identity, LooseError>)
    ensures r.Success? ==> IsLoose(body, r.value)
    ensures r.Failure? ==> !exists id :: IsLoose(body, id)
    ensures r == Failure(DuplicateKey) <==> !DistinctKeys(LinesOf(body))
    ensures r == Failure(NoRelease) ==> HasSound(LinesOf(body), "Version")
  {
    hide Holds, LinesOf, SplitOnce, SoundField, Sound, DistinctKeys, Trim, HasSound;
    var lines := LinesOf(body);
    var fields: map<string, string> := map[];
    NothingHeld();
    for k := 0 to |lines|
      invariant Holds(lines[..k], fields)
    {
      var line := lines[k];
      assert lines[..k] + [line] == lines[..k + 1];
      var cut := SplitOnce(line, ':');
      if cut.None? {
        HoldsSkip(lines[..k], line, fields);
        continue;
      }
      var (key, value) := cut.value;
      HoldsInsert(lines[..k], line, fields, key);
      if key in fields {
        DistinctPrefix(lines, k + 1);
        NotLoose(body);
        return Failure(DuplicateKey);
      }
      fields := fields[key := Trim(value)];
    }
    assert lines[..|lines|] == lines;
    HeldDistinct(lines, fields);
    FieldKnown(lines, fields, "Version");
    FieldKnown(lines, fields, "Package");
    FieldKnown(lines, fields, "Architecture");
    var version := ReadField(fields, "Version");
    if version.Failure? {
      NotLoose(body);
      return Failure(version.error);
    }
    var cut := RSplitOnce(version.value, '-');
    if cut.None? {
      NoDash(body, fields);
      return Failure(NoRelease);
    }
    var name := ReadField(fields, "Package");
    if name.Failure? {
      NotLoose(body);
      return Failure(name.error);
    }
    var arch := ReadField(fields, "Architecture");
    if arch.Failure? {
      NotLoose(body);
      return Failure(arch.error);
    }
    return Success(Identity(name.value, cut.value.0, Some(cut.value.1), arch.value));
  }

  lemma HeldDistinct(lines: seq<string>, m: map<string, string>)
    requires Holds(lines, m)
    ensures DistinctKeys(lines)
  {
  }

  lemma NothingHeld()
    ensures Holds([], map[])
  {
  }

  // ---- agreement ----

  function FirstLine(value: string): string {
    Split(value, '\n')[0]
  }

  lemma {:induction false} ValueFirstLine(f: Field)
    requires '\n' !in f.raw
    ensures exists tail :: Value(f) == Trim(f.raw) + tail && (tail == "" || tail[0] == '\n')
    decreases |f.more|
  {
    hide Trim;
    if f.more == [] {
      assert Value(f) == Trim(f.raw) + "";
    } else {
      var n := |f.more| - 1;
      var shorter := f.(more := f.more[..n]);
      ValueFirstLine(shorter);
      var tail :| Value(shorter) == Trim(f.raw) + tail && (tail == "" || tail[0] == '\n');
      assert Value(f) == Trim(f.raw) + (tail + "\n" + f.more[n]);
    }
  }

  lemma TrimWithin(s: string, c: char)
    requires c !in s
    ensures c !in Trim(s)
  {
    var start := TrimStart(s);
    assert start == s[|s| - |start|..];
    assert Trim(s) <= start;
  }

  lemma FirstLineIs(f: Field)
    requires '\n' !in f.raw
    ensures FirstLine(Value(f)) == Trim(f.raw)
  {
    hide Trim, Value;
    ValueFirstLine(f);
    var tail :| Value(f) == Trim(f.raw) + tail && (tail == "" || tail[0] == '\n');
    TrimWithin(f.raw, '\n');
    SplitPrefix(Trim(f.raw), tail, '\n');
    assert Split(tail, '\n')[0] == "";
  }

  lemma {:induction false} HeadInParagraph(fields: seq<Field>, k: nat)
    requires k < |fields|
    ensures HeadLine(fields[k]) in ParagraphLines(fields)
  {
    hide HeadLine;
    if k < |fields| - 1 {
      HeadInParagraph(fields[..|fields| - 1], k);
      assert fields[..|fields| - 1][k] == fields[k];
    } else {
      assert HeadLine(fields[k]) in FieldLines(fields[k]);
    }
  }

  /** The strict fields of a body are among the pairs its lines give, up to the first line of the value. */
  lemma StrictGives(body: string, fields: seq<Field>, key: string)
    requires IsControlFile(body, fields) && key in ValueMap(fields)
    ensures Gives(LinesOf(body), key, FirstLine(ValueMap(fields)[key]))
  {
    hide LinesOf, ParagraphLines, FirstLine, ValueMap, IsFieldName, Trim, SplitOnce, HasRequired, Value;
    var lines := LinesOf(body);
    ValueMapKeys(fields, key);
    var k :| 0 <= k < |fields| && fields[k].name == key;
    var f := fields[k];
    ValueMapAt(fields, k);
    HeadInParagraph(fields, k);
    assert f in fields && HeadLine(f) in lines;
    LinesHaveNoFeed(body);
    assert f.raw == HeadLine(f)[|f.name| + 1..];
    assert '\n' !in f.raw;
    FirstLineIs(f);
    NameHasNoColon(f.name);
    SplitOnceUnique(f.name, f.raw, ':');
    var i :| 0 <= i < |lines| && lines[i] == HeadLine(f);
  }

  /** On a body both accept, the loose texts are the first lines of the strict values. */
  lemma ParsersAgree(body: string, fields: seq<Field>, id: Identity)
    requires IsControlFile(body, fields) && IsLoose(body, id)
    ensures "Package" in ValueMap(fields) && FirstLine(ValueMap(fields)["Package"]) == id.name
    ensures "Architecture" in ValueMap(fields) && FirstLine(ValueMap(fields)["Architecture"]) == id.arch
    ensures "Version" in ValueMap(fields) && id.release.Some?
    ensures FirstLine(ValueMap(fields)["Version"]) == id.version + ['-'] + id.release.value
    ensures '-' !in id.release.value
  {
    hide LinesOf, IsParagraph, DistinctKeys, Gives, FirstLine, ValueMap, Sound;
    var lines, m := LinesOf(body), ValueMap(fields);
    StrictGives(body, fields, "Package");
    StrictGives(body, fields, "Architecture");
    StrictGives(body, fields, "Version");
    GivesOnce(lines, "Package", FirstLine(m["Package"]), id.name);
    GivesOnce(lines, "Architecture", FirstLine(m["Architecture"]), id.arch);
    GivesOnce(lines, "Version", FirstLine(m["Version"]), id.version + ['-'] + id.release.value);
  }

  predicate SoundFirstLine(m: map<string, string>, key: string) {
    key in m && Sound(FirstLine(m[key]))
  }

  /** Which control files the loose reader accepts as well: a continuation line may repeat a key, and the three
      values may be unsound or lack a release, but nothing else goes wrong. */
  lemma LooseAcceptsIff(body: string, fields: seq<Field>)
    requires IsControlFile(body, fields)
    ensures var m := ValueMap(fields);
      (exists id :: IsLoose(body, id)) <==>
        && DistinctKeys(LinesOf(body))
        && SoundFirstLine(m, "Package") && SoundFirstLine(m, "Architecture") && SoundFirstLine(m, "Version")
        && '-' in FirstLine(m["Version"])
  {
    hide LinesOf, IsParagraph, DistinctKeys, Gives, FirstLine, ValueMap, Sound;
    var m := ValueMap(fields);
    StrictGives(body, fields, "Package");
    StrictGives(body, fields, "Architecture");
    StrictGives(body, fields, "Version");
    forall id | IsLoose(body, id)
      ensures SoundFirstLine(m, "Package") && SoundFirstLine(m, "Architecture") && SoundFirstLine(m, "Version")
      ensures '-' in FirstLine(m["Version"])
    {
      ParsersAgree(body, fields, id);
      assert FirstLine(m["Version"])[|id.version|] == '-';
    }
    if DistinctKeys(LinesOf(body)) && SoundFirstLine(m, "Package") && SoundFirstLine(m, "Architecture")
       && SoundFirstLine(m, "Version") && '-' in FirstLine(m["Version"]) {
      var cut := RSplitOnce(FirstLine(m["Version"]), '-').value;
      assert IsLoose(body, Identity(FirstLine(m["Package"]), cut.0, Some(cut.1), FirstLine(m["Architecture"])));
    }
  }
}
