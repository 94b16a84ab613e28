/** Debian control files: the strict parser of the package audit and the grammar it decides. */
module ControlFiles {
  import opened Wrappers
  import opened Text

  // ---- the grammar ----

  /** A field as it stands in the text: its name, what follows the colon, and its continuation lines. */
  datatype Field = Field(name: string, raw: string, more: seq<string>)

  predicate IsNameChar(c: char) {
    IsAlphanumeric(c) || c == '-'
  }

  predicate IsFieldName(name: string) {
    name != "" && All(name, IsNameChar)
  }

  predicate IsContinuation(line: string) {
    line != "" && line[0] in {' ', '\t'}
  }

  function HeadLine(f: Field): string {
    f.name + [':'] + f.raw
  }

  function FieldLines(f: Field): seq<string> {
    [HeadLine(f)] + f.more
  }

  function ParagraphLines(fields: seq<Field>): seq<string> {
    if fields == [] then [] else ParagraphLines(fields[..|fields| - 1]) + FieldLines(fields[|fields| - 1])
  }

  predicate WellFormedField(f: Field) {
    IsFieldName(f.name) && forall line :: line in f.more ==> IsContinuation(line)
  }

  predicate DistinctNames(fields: seq<Field>) {
    forall i, j :: 0 <= i < j < |fields| ==> fields[i].name != fields[j].name
  }

  predicate WellFormed(fields: seq<Field>) {
    (forall f :: f in fields ==> WellFormedField(f)) && DistinctNames(fields)
  }

  predicate AllBlank(lines: seq<string>) {
    forall line :: line in lines ==> line == ""
  }

  /** One paragraph of well-formed fields with distinct names, then blank lines only. */
  predicate IsParagraph(lines: seq<string>, fields: seq<Field>) {
    && WellFormed(fields)
    && var head := ParagraphLines(fields);
      head <= lines && AllBlank(lines[|head|..])
  }

  // ---- what the fields mean ----

  /** The trimmed first line, and each continuation line verbatim after a line feed. */
  function Value(f: Field): string
    decreases |f.more|
  {
    if f.more == [] then Trim(f.raw)
    else Value(f.(more := f.more[..|f.more| - 1])) + "\n" + f.more[|f.more| - 1]
  }

  function ValueMap(fields: seq<Field>): map<string, string> {
    if fields == [] then map[]
    else ValueMap(fields[..|fields| - 1])[fields[|fields| - 1].name := Value(fields[|fields| - 1])]
  }

  lemma {:induction false} ValueMapAt(fields: seq<Field>, k: nat)
    requires DistinctNames(fields) && k < |fields|
    ensures fields[k].name in ValueMap(fields) && ValueMap(fields)[fields[k].name] == Value(fields[k])
  {
    hide Value;
    if k < |fields| - 1 {
      ValueMapAt(fields[..|fields| - 1], k);
    }
  }

  lemma {:induction false} ValueMapKeys(fields: seq<Field>, name: string)
    ensures name in ValueMap(fields) <==> exists k :: 0 <= k < |fields| && fields[k].name == name
  {
    hide Value;
    if fields != [] {
      ValueMapKeys(fields[..|fields| - 1], name);
    }
  }

  // ---- the scanner, line by line ----

  datatype ControlError = SecondParagraph | StrayContinuation | NoColon | BadName | DuplicateField | MissingField

  datatype State = State(fields: seq<Field>, ended: bool)

  function Step(s: State, line: string): Result<State, ControlError> {
    if line == "" then Success(State(s.fields, true))
    else if s.ended then Failure(SecondParagraph)
    else if IsContinuation(line) then
      if s.fields == [] then Failure(StrayContinuation)
      else
        var last := s.fields[|s.fields| - 1];
        Success(State(s.fields[..|s.fields| - 1] + [last.(more := last.more + [line])], false))
    else
      match SplitOnce(line, ':')
      case None => Failure(NoColon)
      case Some((name, raw)) =>
        if !IsFieldName(name) then Failure(BadName)
        else if exists k :: 0 <= k < |s.fields| && s.fields[k].name == name then Failure(DuplicateField)
        else Success(State(s.fields + [Field(name, raw, [])], false))
  }

  function Scan(lines: seq<string>): Result<State, ControlError> {
    if lines == [] then Success(State([], false))
    else
      var s :- Scan(lines[..|lines| - 1]);
      Step(s, lines[|lines| - 1])
  }

  /** A text that fails part way fails as a whole. */
  lemma {:induction false} ScanFails(lines: seq<string>, k: nat)
    requires k <= |lines| && Scan(lines[..k]).Failure?
    ensures Scan(lines) == Scan(lines[..k])
  {
    hide Step;
    if k == |lines| {
      assert lines[..k] == lines;
    } else {
      var init := lines[..|lines| - 1];
      assert init[..k] == lines[..k];
      ScanFails(init, k);
    }
  }

  /** The one parse a scan stands for: the fields, followed by blank lines exactly when the paragraph has ended. */
  predicate Stands(lines: seq<string>, s: State) {
    && IsParagraph(lines, s.fields)
    && (s.ended <==> lines != ParagraphLines(s.fields))
  }

  lemma ParagraphSnoc(fields: seq<Field>, f: Field)
    ensures ParagraphLines(fields + [f]) == ParagraphLines(fields) + FieldLines(f)
  {
    hide FieldLines;
    assert (fields + [f])[..|fields|] == fields;
  }

  lemma SnocContinuation(fields: seq<Field>, f: Field, line: string)
    ensures ParagraphLines(fields + [f.(more := f.more + [line])]) == ParagraphLines(fields + [f]) + [line]
  {
    hide ParagraphLines;
    ParagraphSnoc(fields, f);
    ParagraphSnoc(fields, f.(more := f.more + [line]));
    assert HeadLine(f.(more := f.more + [line])) == HeadLine(f);
    assert FieldLines(f.(more := f.more + [line])) == FieldLines(f) + [line];
  }

  lemma NamesAfter(fields: seq<Field>, f: Field)
    requires WellFormed(fields) && WellFormedField(f)
    requires forall k :: 0 <= k < |fields| ==> fields[k].name != f.name
    ensures WellFormed(fields + [f])
  {
    hide WellFormedField;
  }

  lemma NamesKept(fields: seq<Field>, line: string)
    requires fields != [] && WellFormed(fields) && IsContinuation(line)
    ensures var last := fields[|fields| - 1]; WellFormed(fields[..|fields| - 1] + [last.(more := last.more + [line])])
  {
    hide IsFieldName, IsContinuation;
    var last := fields[|fields| - 1];
    assert last in fields;
    assert WellFormedField(last.(more := last.more + [line]));
  }

  lemma StepStands(lines: seq<string>, s: State, line: string)
    requires Stands(lines, s) && Step(s, line).Success?
    ensures Stands(lines + [line], Step(s, line).value)
  {
    hide IsFieldName, FieldLines, ParagraphLines, WellFormed;
    var head := ParagraphLines(s.fields);
    if line == "" {
      BlankAfter(lines, head);
    } else {
      assert lines == head;
      if IsContinuation(line) {
        var n := |s.fields| - 1;
        assert s.fields == s.fields[..n] + [s.fields[n]];
        SnocContinuation(s.fields[..n], s.fields[n], line);
        NamesKept(s.fields, line);
      } else {
        var (name, raw) := SplitOnce(line, ':').value;
        var f := Field(name, raw, []);
        ParagraphSnoc(s.fields, f);
        LoneLine(f);
        NamesAfter(s.fields, f);
      }
    }
  }

  lemma LoneLine(f: Field)
    requires f.more == []
    ensures FieldLines(f) == [f.name + [':'] + f.raw]
  {
  }

  lemma BlankAfter(lines: seq<string>, head: seq<string>)
    requires head <= lines && AllBlank(lines[|head|..])
    ensures head <= lines + [""] && AllBlank((lines + [""])[|head|..]) && lines + [""] != head
  {
    assert (lines + [""])[|head|..] == lines[|head|..] + [""];
  }

  lemma {:induction false} ScanStands(lines: seq<string>)
    requires Scan(lines).Success?
    ensures Stands(lines, Scan(lines).value)
  {
    hide Step, Stands;
    if lines == [] {
      EmptyStands();
    } else {
      var init := lines[..|lines| - 1];
      ScanStands(init);
      StepStands(init, Scan(init).value, lines[|lines| - 1]);
      assert init + [lines[|lines| - 1]] == lines;
    }
  }

  lemma EmptyStands()
    ensures Stands([], State([], false))
  {
  }

  // ---- completeness ----

  lemma ScanSnoc(lines: seq<string>, line: string)
    requires Scan(lines).Success?
    ensures Scan(lines + [line]) == Step(Scan(lines).value, line)
  {
    hide Step;
    assert (lines + [line])[..|lines|] == lines;
  }

  lemma {:induction false} ScanBlank(lines: seq<string>, blank: seq<string>, fields: seq<Field>)
    requires Scan(lines) == Success(State(fields, false)) && AllBlank(blank)
    ensures Scan(lines + blank) == Success(State(fields, blank != []))
  {
    if blank == [] {
      assert lines + blank == lines;
    } else {
      var n := |blank| - 1;
      assert blank[n] in blank && forall line :: line in blank[..n] ==> line in blank;
      ScanBlank(lines, blank[..n], fields);
      assert lines + blank == (lines + blank[..n]) + [blank[n]];
      ScanSnoc(lines + blank[..n], blank[n]);
    }
  }

  lemma {:induction false} ScanContinuations(lines: seq<string>, fields: seq<Field>, f: Field, more: seq<string>)
    requires Scan(lines) == Success(State(fields + [f.(more := [])], false))
    requires forall line :: line in more ==> IsContinuation(line)
    ensures Scan(lines + more) == Success(State(fields + [f.(more := more)], false))
  {
    hide Scan;
    if more == [] {
      assert lines + more == lines;
    } else {
      var n := |more| - 1;
      assert more[n] in more && forall line :: line in more[..n] ==> line in more;
      ScanContinuations(lines, fields, f, more[..n]);
      assert lines + more == (lines + more[..n]) + [more[n]];
      ScanSnoc(lines + more[..n], more[n]);
      assert more[..n] + [more[n]] == more;
      var before := fields + [f.(more := more[..n])];
      assert before[..|before| - 1] == fields;
    }
  }

  lemma StepHead(fields: seq<Field>, f: Field)
    requires IsFieldName(f.name) && forall k :: 0 <= k < |fields| ==> fields[k].name != f.name
    ensures Step(State(fields, false), HeadLine(f)) == Success(State(fields + [f.(more := [])], false))
  {
    NameHasNoColon(f.name);
    SplitOnceUnique(f.name, f.raw, ':');
  }

  lemma NameHasNoColon(name: string)
    requires IsFieldName(name)
    ensures ':' !in name && !IsContinuation(name)
  {
    assert IsNameChar(name[0]);
    assert forall i :: 0 <= i < |name| ==> IsNameChar(name[i]);
  }

  lemma {:induction false} ScanParagraph(fields: seq<Field>)
    requires WellFormed(fields)
    ensures Scan(ParagraphLines(fields)) == Success(State(fields, false))
  {
    hide Step, HeadLine, IsFieldName, IsContinuation;
    if fields != [] {
      var n := |fields| - 1;
      var f := fields[n];
      assert f in fields && forall g :: g in fields[..n] ==> g in fields;
      ScanParagraph(fields[..n]);
      var before := ParagraphLines(fields[..n]);
      StepHead(fields[..n], f);
      ScanSnoc(before, HeadLine(f));
      ScanContinuations(before + [HeadLine(f)], fields[..n], f, f.more);
      assert before + [HeadLine(f)] + f.more == before + FieldLines(f);
      assert fields[..n] + [f] == fields;
    }
  }

  /** The scanner accepts exactly the single-paragraph texts, with the one possible parse. */
  lemma ScanDecides(lines: seq<string>, fields: seq<Field>)
    ensures (Scan(lines).Success? && Scan(lines).value.fields == fields) <==> IsParagraph(lines, fields)
  {
    hide Scan, WellFormed, ParagraphLines;
    if Scan(lines).Success? {
      ScanStands(lines);
    }
    if IsParagraph(lines, fields) {
      var head := ParagraphLines(fields);
      ScanParagraph(fields);
      ScanBlank(head, lines[|head|..], fields);
      assert head + lines[|head|..] == lines;
    }
  }

  // ---- the parser ----

  predicate HasRequired(m: map<string, string>) {
    "Package" in m && "Version" in m && "Architecture" in m
  }

  /** The body is one paragraph with these fields, the three mandatory ones among them. */
  predicate IsControlFile(body: string, fields: seq<Field>) {
    IsParagraph(LinesOf(body), fields) && HasRequired(ValueMap(fields))
  }

  /** The name the next continuation line belongs to. */
  function CurrentOf(s: State): Option<string> {
    if s.ended || s.fields == [] then None else Some(s.fields[|s.fields| - 1].name)
  }

  /** The parser's variables represent the scanner's state. */
  predicate Tracks(lines: seq<string>, fields: map<string, string>, current: Option<string>, ended: bool) {
    var s := Scan(lines);
    && s.Success? && fields == ValueMap(s.value.fields)
    && current == CurrentOf(s.value) && ended == s.value.ended
  }

  lemma ValueMapSnoc(fields: seq<Field>, f: Field)
    ensures ValueMap(fields + [f]) == ValueMap(fields)[f.name := Value(f)]
  {
    hide Value;
    assert (fields + [f])[..|fields|] == fields;
  }

  lemma ValueSnoc(f: Field, line: string)
    ensures Value(f.(more := f.more + [line])) == Value(f) + "\n" + line
  {
    var longer := f.(more := f.more + [line]);
    assert longer.more[..|f.more|] == f.more;
    assert longer.(more := f.more) == f;
  }

  lemma TrackContinuation(lines: seq<string>, line: string, fields: map<string, string>, current: Option<string>)
    requires Tracks(lines, fields, current, false) && IsContinuation(line)
    ensures current.None? ==> Scan(lines + [line]) == Failure(StrayContinuation)
    ensures current.Some? ==> current.value in fields
    ensures current.Some? ==>
      Tracks(lines + [line], fields[current.value := fields[current.value] + "\n" + line], current, false)
  {
    hide Scan, Value, ValueMap, SplitOnce, IsFieldName;
    var s := Scan(lines).value;
    ScanSnoc(lines, line);
    if current.Some? {
      var n := |s.fields| - 1;
      var last := s.fields[n];
      assert s.fields == s.fields[..n] + [last];
      ValueMapSnoc(s.fields[..n], last);
      ValueMapSnoc(s.fields[..n], last.(more := last.more + [line]));
      ValueSnoc(last, line);
    }
  }

  lemma TrackHead(lines: seq<string>, line: string, fields: map<string, string>, current: Option<string>)
    requires Tracks(lines, fields, current, false) && line != "" && !IsContinuation(line)
    ensures var cut := SplitOnce(line, ':');
      if cut.None? then Scan(lines + [line]) == Failure(NoColon)
      else if !IsFieldName(cut.value.0) then Scan(lines + [line]) == Failure(BadName)
      else if cut.value.0 in fields then Scan(lines + [line]) == Failure(DuplicateField)
      else Tracks(lines + [line], fields[cut.value.0 := Trim(cut.value.1)], Some(cut.value.0), false)
  {
    hide Scan, IsFieldName, ValueMap, SplitOnce, IsContinuation, Trim;
    var s := Scan(lines).value;
    ScanSnoc(lines, line);
    var cut := SplitOnce(line, ':');
    if cut.Some? {
      ValueMapKeys(s.fields, cut.value.0);
      ValueMapSnoc(s.fields, Field(cut.value.0, cut.value.1, []));
    }
  }

  lemma TrackBlank(lines: seq<string>, fields: map<string, string>, current: Option<string>, ended: bool)
    requires Tracks(lines, fields, current, ended)
    ensures Tracks(lines + [""], fields, None, true)
  {
    hide Scan;
    ScanSnoc(lines, "");
  }

  lemma TrackEnded(lines: seq<string>, line: string, fields: map<string, string>, current: Option<string>)
    requires Tracks(lines, fields, current, true) && line != ""
    ensures Scan(lines + [line]) == Failure(SecondParagraph)
  {
    hide Scan;
    ScanSnoc(lines, line);
  }

  lemma NotControl(body: string, k: nat)
    requires k <= |LinesOf(body)| && Scan(LinesOf(body)[..k]).Failure?
    ensures Scan(LinesOf(body)) == Scan(LinesOf(body)[..k])
    ensures !exists fields :: IsControlFile(body, fields)
  {
    hide Scan, LinesOf, IsParagraph, HasRequired;
    ScanFails(LinesOf(body), k);
    forall fields ensures !IsControlFile(body, fields) {
      ScanDecides(LinesOf(body), fields);
    }
  }

  lemma ControlKnown(body: string, m: map<string, string>, current: Option<string>, ended: bool)
    requires Tracks(LinesOf(body), m, current, ended)
    ensures Scan(LinesOf(body)).Success?
    ensures HasRequired(m) <==> exists fields :: IsControlFile(body, fields)
    ensures HasRequired(m) ==> exists fields :: IsControlFile(body, fields) && m == ValueMap(fields)
  {
    hide Scan, LinesOf, IsParagraph, HasRequired;
    var known := Scan(LinesOf(body)).value.fields;
    ScanDecides(LinesOf(body), known);
    assert HasRequired(m) ==> IsControlFile(body, known);
    forall fields | IsControlFile(body, fields) ensures fields == known {
      ScanDecides(LinesOf(body), fields);
    }
  }

  /** The fault of the first line that cannot be read, or a missing field when every line can. */
  function FirstFault(lines: seq<string>): ControlError {
    if Scan(lines).Failure? then Scan(lines).error else MissingField
  }

  lemma ScanFailsFirst(lines: seq<string>, k: nat)
    requires k < |lines| && Scan(lines).Failure? && Scan(lines[..k]).Success?
    requires Step(Scan(lines[..k]).value, lines[k]).Failure?
    ensures FirstFault(lines) == Step(Scan(lines[..k]).value, lines[k]).error
  {
    hide Step, Scan;
    assert lines[..k] + [lines[k]] == lines[..k + 1];
    ScanSnoc(lines[..k], lines[k]);
    ScanFails(lines, k + 1);
  }

  /** Succeeds exactly on control files, with the values of their fields. */
  method ParseStrict(body: string) returns (r: Result<map<string, string>, ControlError>)
    ensures r.Success? ==> exists fields :: IsControlFile(body, fields) && r.value == ValueMap(fields)
    ensures r.Failure? ==> !exists fields :: IsControlFile(body, fields)
    ensures r.Failure? ==> r.error == FirstFault(LinesOf(body))
  {
    hide Scan, Tracks, LinesOf, IsControlFile, IsFieldName, IsContinuation, SplitOnce, HasRequired;
    var lines := LinesOf(body);
    var fields: map<string, string> := map[];
    var current: Option<string> := None;
    var paragraphEnded := false;
    NothingTracked();
    for k := 0 to |lines|
      invariant Tracks(lines[..k], fields, current, paragraphEnded)
    {
      var line := lines[k];
      assert lines[..k] + [line] == lines[..k + 1];
      if line == "" {
        TrackBlank(lines[..k], fields, current, paragraphEnded);
        paragraphEnded := true;
        current := None;
        continue;
      }
      if paragraphEnded {
        TrackEnded(lines[..k], line, fields, current);
        NotControl(body, k + 1);
        return Failure(SecondParagraph);
      }
      if IsContinuation(line) {
        TrackContinuation(lines[..k], line, fields, current);
        if current.None? {
          NotControl(body, k + 1);
          return Failure(StrayContinuation);
        }
        var name := current.value;
        fields := fields[name := fields[name] + "\n" + line];
        continue;
      }
      TrackHead(lines[..k], line, fields, current);
      var cut := SplitOnce(line, ':');
      if cut.None? {
        NotControl(body, k + 1);
        return Failure(NoColon);
      }
      var (name, value) := cut.value;
      if !IsFieldName(name) {
        NotControl(body, k + 1);
        return Failure(BadName);
      }
      if name in fields {
        NotControl(body, k + 1);
        return Failure(DuplicateField);
      }
      fields := fields[name := Trim(value)];
      current := Some(name);
    }
    assert lines[..|lines|] == lines;
    ControlKnown(body, fields, current, paragraphEnded);
    if !HasRequired(fields) {
      return Failure(MissingField);
    }
    return Success(fields);
  }

  lemma NothingTracked()
    ensures Tracks([], map[], None, false)
  {
  }

  /** A control file has one reading. */
  lemma ReadingUnique(body: string, a: seq<Field>, b: seq<Field>)
    requires IsControlFile(body, a) && IsControlFile(body, b)
    ensures a == b
  {
    hide Scan, LinesOf, IsParagraph, HasRequired;
    ScanDecides(LinesOf(body), a);
    ScanDecides(LinesOf(body), b);
  }

  // ---- the grammar, letter by letter ----

  lemma FieldNameIff(name: string)
    ensures IsFieldName(name) <==> name != "" && forall c :: c in name ==> IdentifierLetter(c)
  {
    hide IdentifierLetter;
    forall c: char ensures IdentifierLetter(c) <==> IsNameChar(c) {
      IdentifierLetterIff(c);
    }
    assert forall i :: 0 <= i < |name| ==> name[i] in name;
  }

  lemma ContinuationIff(line: string)
    ensures IsContinuation(line) <==> line != "" && line[0] as int in {0x20, 0x09}
  {
  }
}
