/** A printer of single-paragraph control files, which the strict parser inverts. */
module ControlPrint {
  import opened Wrappers
  import opened Text
  import opened ControlFiles

  /** A field to print: a trimmed first line and continuation lines. */
  datatype Entry = Entry(name: string, first: string, more: seq<string>)

  function AsField(e: Entry): Field {
    Field(e.name, [' '] + e.first, e.more)
  }

  function AsFields(entries: seq<Entry>): (fields: seq<Field>)
    ensures |fields| == |entries|
    ensures forall k :: 0 <= k < |entries| ==> fields[k] == AsField(entries[k])
  {
    seq(|entries|, k requires 0 <= k < |entries| => AsField(entries[k]))
  }

  /** `Name: first line`, then the continuation lines, each ended by a line feed. */
  function Print(entries: seq<Entry>): string {
    Unlines(ParagraphLines(AsFields(entries)))
  }

  predicate PrintableEntry(e: Entry) {
    && IsFieldName(e.name) && PrintableLine(e.first) && Trim(e.first) == e.first
    && forall line :: line in e.more ==> IsContinuation(line) && PrintableLine(line)
  }

  predicate Printable(entries: seq<Entry>) {
    && (forall e :: e in entries ==> PrintableEntry(e))
    && (forall i, j :: 0 <= i < j < |entries| ==> entries[i].name != entries[j].name)
    && HasRequired(ValueMap(AsFields(entries)))
  }

  lemma NameIsPrintable(name: string, rest: string)
    requires IsFieldName(name) && PrintableLine(rest)
    ensures PrintableLine(name + [':'] + ([' '] + rest))
  {
    assert forall i :: 0 <= i < |name| ==> IsNameChar(name[i]);
    var line := name + [':'] + ([' '] + rest);
    assert line == name + [':', ' '] + rest;
    assert line[|line| - 1] == if rest == "" then ' ' else rest[|rest| - 1];
  }

  lemma {:induction false} PrintedLines(fields: seq<Field>)
    requires forall f :: f in fields ==> forall line :: line in FieldLines(f) ==> PrintableLine(line)
    ensures forall line :: line in ParagraphLines(fields) ==> PrintableLine(line)
  {
    hide FieldLines, PrintableLine;
    if fields != [] {
      var n := |fields| - 1;
      assert fields[n] in fields && forall f :: f in fields[..n] ==> f in fields;
      PrintedLines(fields[..n]);
    }
  }

  lemma EntryLines(e: Entry)
    requires PrintableEntry(e)
    ensures WellFormedField(AsField(e))
    ensures forall line :: line in FieldLines(AsField(e)) ==> PrintableLine(line)
  {
    hide PrintableLine, IsFieldName, IsContinuation, Trim;
    NameIsPrintable(e.name, e.first);
  }

  lemma AsFieldsShape(entries: seq<Entry>)
    requires Printable(entries)
    ensures WellFormed(AsFields(entries))
    ensures forall line :: line in ParagraphLines(AsFields(entries)) ==> PrintableLine(line)
  {
    hide PrintableEntry, PrintableLine, WellFormedField, ParagraphLines, FieldLines, AsField, HasRequired;
    var fields := AsFields(entries);
    forall f | f in fields
      ensures WellFormedField(f) && forall line :: line in FieldLines(f) ==> PrintableLine(line)
    {
      var k :| 0 <= k < |entries| && f == AsField(entries[k]);
      assert entries[k] in entries;
      EntryLines(entries[k]);
    }
    forall i, j | 0 <= i < j < |fields| ensures fields[i].name != fields[j].name {
      AsFieldName(entries[i]);
      AsFieldName(entries[j]);
    }
    PrintedLines(fields);
  }

  lemma AsFieldName(e: Entry)
    ensures AsField(e).name == e.name
  {
  }

  /** A printed file is a control file, and its only reading is what was printed. */
  lemma PrintedReads(entries: seq<Entry>)
    requires Printable(entries)
    ensures forall fields :: IsControlFile(Print(entries), fields) <==> fields == AsFields(entries)
  {
    hide LinesOf, Printable, WellFormed, AsFields, ParagraphLines, PrintableLine, HasRequired, Unlines;
    var lines := ParagraphLines(AsFields(entries));
    AsFieldsShape(entries);
    LinesOfUnlines(lines);
    assert lines[|lines|..] == [];
    assert HasRequired(ValueMap(AsFields(entries))) by {
      PrintableRequired(entries);
    }
    assert IsControlFile(Print(entries), AsFields(entries));
    forall fields | IsControlFile(Print(entries), fields) ensures fields == AsFields(entries) {
      ReadingUnique(Print(entries), fields, AsFields(entries));
    }
  }

  lemma PrintableRequired(entries: seq<Entry>)
    requires Printable(entries)
    ensures HasRequired(ValueMap(AsFields(entries)))
  {
  }

  lemma TrimStartFixed(s: string)
    requires s == "" || !IsWhitespace(s[0])
    ensures TrimStart(s) == s && TrimStart([' '] + s) == s
  {
    var t := [' '] + s;
    assert t[1..] == s && IsWhitespace(t[0]);
  }

  lemma TrimOneSpace(s: string)
    requires Trim(s) == s
    ensures Trim([' '] + s) == s
  {
    hide TrimStart, TrimEnd, IsWhitespace;
    TrimFixed(s);
    TrimStartFixed(s);
  }

  /** A value is the lines it came from, joined by line feeds. */
  lemma {:induction false} ValueIsJoin(f: Field)
    ensures Value(f) == Join([Trim(f.raw)] + f.more, '\n')
    decreases |f.more|
  {
    hide Trim;
    if f.more != [] {
      var n := |f.more| - 1;
      ValueIsJoin(f.(more := f.more[..n]));
      var parts := [Trim(f.raw)] + f.more[..n];
      JoinSnoc(parts, f.more[n]);
      assert parts + [f.more[n]] == [Trim(f.raw)] + f.more;
    }
  }

  lemma {:induction false} JoinSnoc(parts: seq<string>, last: string)
    requires parts != []
    ensures Join(parts + [last], '\n') == Join(parts, '\n') + "\n" + last
  {
    if |parts| > 1 {
      JoinSnoc(parts[1..], last);
      assert (parts + [last])[1..] == parts[1..] + [last];
    } else {
      assert (parts + [last])[1..] == [last];
    }
  }

  /** The lines of an entry come back out of its value. */
  lemma ValueOfEntry(e: Entry)
    requires PrintableEntry(e)
    ensures Split(Value(AsField(e)), '\n') == [e.first] + e.more
  {
    hide Trim, Value, Join, Split, IsFieldName, IsContinuation;
    TrimOneSpace(e.first);
    ValueIsJoin(AsField(e));
    SplitJoin([e.first] + e.more, '\n');
  }

  /** Printing and then parsing returns every field, and nothing else. */
  method PrintThenParse(entries: seq<Entry>) returns (m: map<string, string>)
    requires Printable(entries)
    ensures forall name :: name in m <==> exists e :: e in entries && e.name == name
    ensures forall e :: e in entries ==> e.name in m && Split(m[e.name], '\n') == [e.first] + e.more
  {
    hide IsControlFile, Print, Printable, ValueMap, Value, Split, Trim;
    PrintedReads(entries);
    var r := ParseStrict(Print(entries));
    assert IsControlFile(Print(entries), AsFields(entries));
    m := r.value;
    assert m == ValueMap(AsFields(entries));
    PrintedMap(entries);
  }

  lemma PrintedMap(entries: seq<Entry>)
    requires Printable(entries)
    ensures var m := ValueMap(AsFields(entries));
      && (forall name :: name in m <==> exists e :: e in entries && e.name == name)
      && (forall e :: e in entries ==> e.name in m && Split(m[e.name], '\n') == [e.first] + e.more)
  {
    hide ValueMap, Value, Split, Trim, HasRequired, PrintableEntry;
    var fields := AsFields(entries);
    var m := ValueMap(fields);
    AsFieldsShape(entries);
    forall name ensures name in m <==> exists e :: e in entries && e.name == name {
      ValueMapKeys(fields, name);
      if name in m {
        var k :| 0 <= k < |fields| && fields[k].name == name;
        assert entries[k] in entries;
      }
      if e :| e in entries && e.name == name {
        var k :| 0 <= k < |entries| && entries[k] == e;
        assert fields[k].name == name;
      }
    }
    forall e | e in entries ensures e.name in m && Split(m[e.name], '\n') == [e.first] + e.more {
      var k :| 0 <= k < |entries| && entries[k] == e;
      ValueMapAt(fields, k);
      ValueOfEntry(e);
    }
  }
}
