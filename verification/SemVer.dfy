/** Release versions: the validator and the Semantic Versioning 2.0.0 grammar it stands for
    (clauses 2, 9 and 10). */
module SemVer {
  import opened Wrappers
  import opened Text
  import opened Octet

  // ---- the validator ----

  function Count(s: string, c: char): (n: nat)
    ensures n == 0 <==> c !in s
  {
    if s == "" then 0 else (if s[0] == c then 1 else 0) + Count(s[1..], c)
  }

  predicate ValidIdentifier(identifier: string, rejectNumericLeadingZero: bool) {
    && identifier != ""
    && All(identifier, IsIdentifierChar)
    && (!rejectNumericLeadingZero || !All(identifier, IsDigit) || |identifier| == 1 || identifier[0] != '0')
  }

  predicate ValidIdentifiers(value: string, rejectNumericLeadingZero: bool) {
    && value != ""
    && forall part :: part in Split(value, '.') ==> ValidIdentifier(part, rejectNumericLeadingZero)
  }

  predicate ValidCorePart(part: string) {
    && part != ""
    && All(part, IsDigit)
    && (|part| > 1 ==> part[0] != '0')
    && DecimalValue(part) < U64
  }

  predicate ValidCore(core: string) {
    var parts := Split(core, '.');
    |parts| == 3 && forall part :: part in parts ==> ValidCorePart(part)
  }

  predicate ValidWithoutBuild(value: string) {
    var (core, prerelease) := Cut(value, '-');
    (prerelease.Some? ==> ValidIdentifiers(prerelease.value, true)) && ValidCore(core)
  }

  predicate PlainText(value: string) {
    && value != ""
    && Trim(value) == value
    && All(value, c => !IsControl(c))
    && Count(value, '+') <= 1
  }

  predicate ValidateVersion(value: string) {
    && PlainText(value)
    && var (withoutBuild, build) := Cut(value, '+');
       (build.Some? ==> ValidIdentifiers(build.value, false)) && ValidWithoutBuild(withoutBuild)
  }

  function Cut(s: string, c: char): (r: (string, Option<string>))
    ensures s == r.0 + Tail(c, r.1)
  {
    match SplitOnce(s, c)
    case None => (s, None)
    case Some((a, b)) => (a, Some(b))
  }

  function Tail(c: char, part: Option<string>): string {
    if part.Some? then [c] + part.value else ""
  }

  // ---- the grammar ----

  datatype SemVer = SemVer(major: nat, minor: nat, patch: nat,
                           prerelease: Option<seq<string>>, build: Option<seq<string>>) {
    predicate WellFormed() {
      && major < U64 && minor < U64 && patch < U64
      && (prerelease.Some? ==>
            prerelease.value != [] && forall part :: part in prerelease.value ==> ValidIdentifier(part, true))
      && (build.Some? ==> build.value != [] && forall part :: part in build.value ==> ValidIdentifier(part, false))
    }

    function Core(): seq<string> {
      [Decimal(major), Decimal(minor), Decimal(patch)]
    }

    function WithoutBuild(): string
      requires WellFormed()
    {
      Join(Core(), '.') + if prerelease.Some? then ['-'] + Join(prerelease.value, '.') else ""
    }

    function Render(): string
      requires WellFormed()
    {
      WithoutBuild() + if build.Some? then ['+'] + Join(build.value, '.') else ""
    }
  }

  /** The structured reading of an accepted version. */
  function Read(value: string): SemVer
    requires ValidateVersion(value)
  {
    var (withoutBuild, build) := Cut(value, '+');
    var (core, prerelease) := Cut(withoutBuild, '-');
    var parts := Split(core, '.');
    assert forall i :: 0 <= i < 3 ==> parts[i] in parts;
    SemVer(DecimalValue(parts[0]), DecimalValue(parts[1]), DecimalValue(parts[2]),
           SplitPart(prerelease), SplitPart(build))
  }

  function SplitPart(part: Option<string>): Option<seq<string>> {
    match part
    case None => None
    case Some(text) => Some(Split(text, '.'))
  }

  lemma {:induction false} JoinAlphabet(parts: seq<string>, p: char -> bool)
    requires parts != []
    requires forall part :: part in parts ==> part != "" && All(part, p)
    requires p('.')
    ensures var s := Join(parts, '.'); All(s, p) && s != ""
    ensures parts[0] != "" && Join(parts, '.')[0] == parts[0][0]
  {
    assert parts[0] in parts;
    if |parts| > 1 {
      assert forall part :: part in parts[1..] ==> part in parts;
      JoinAlphabet(parts[1..], p);
    }
  }

  predicate IsVersionChar(c: char) {
    IsIdentifierChar(c) || c == '.' || c == '+'
  }

  predicate IsDotted(c: char) {
    IsIdentifierChar(c) || c == '.'
  }

  predicate IsCoreChar(c: char) {
    IsDigit(c) || c == '.'
  }

  lemma CoreAlphabet(v: SemVer)
    ensures var core := Join(v.Core(), '.'); All(core, IsCoreChar) && core != "" && IsDigit(core[0])
  {
    JoinAlphabet(v.Core(), IsCoreChar);
  }

  lemma IdentifierAlphabet(parts: seq<string>, rejectNumericLeadingZero: bool)
    requires parts != []
    requires forall part :: part in parts ==> ValidIdentifier(part, rejectNumericLeadingZero)
    ensures var s := Join(parts, '.'); All(s, IsDotted) && s != ""
  {
    JoinAlphabet(parts, IsDotted);
  }

  lemma CutAt(s: string, a: string, b: Option<string>, c: char)
    requires c !in a
    requires s == a + if b.Some? then [c] + b.value else ""
    ensures Cut(s, c) == (a, b)
  {
    if b.Some? {
      assert s == a + [c] + b.value;
      SplitOnceUnique(a, b.value, c);
    } else {
      assert s == a;
    }
  }

  lemma {:induction false} CountConcat(a: string, b: string, c: char)
    ensures Count(a + b, c) == Count(a, c) + Count(b, c)
  {
    if a == "" {
      assert a + b == b;
    } else {
      CountConcat(a[1..], b, c);
      assert (a + b)[1..] == a[1..] + b;
    }
  }

  lemma JoinedIdentifiers(parts: seq<string>, rejectNumericLeadingZero: bool)
    requires parts != []
    requires forall part :: part in parts ==> ValidIdentifier(part, rejectNumericLeadingZero)
    ensures ValidIdentifiers(Join(parts, '.'), rejectNumericLeadingZero)
    ensures Split(Join(parts, '.'), '.') == parts
  {
    IdentifierAlphabet(parts, rejectNumericLeadingZero);
    SplitJoin(parts, '.');
  }

  lemma WithoutBuildCut(v: SemVer)
    requires v.WellFormed()
    ensures Cut(v.WithoutBuild(), '-') ==
            (Join(v.Core(), '.'), if v.prerelease.Some? then Some(Join(v.prerelease.value, '.')) else None)
    ensures var s := v.WithoutBuild(); All(s, IsDotted) && s != "" && IsDigit(s[0])
  {
    var core := Join(v.Core(), '.');
    CoreAlphabet(v);
    if v.prerelease.Some? {
      IdentifierAlphabet(v.prerelease.value, true);
      CutAt(v.WithoutBuild(), core, Some(Join(v.prerelease.value, '.')), '-');
    } else {
      CutAt(v.WithoutBuild(), core, None, '-');
    }
  }

  lemma RenderCut(v: SemVer)
    requires v.WellFormed()
    ensures Cut(v.Render(), '+') == (v.WithoutBuild(), if v.build.Some? then Some(Join(v.build.value, '.')) else None)
  {
    WithoutBuildCut(v);
    CutAt(v.Render(), v.WithoutBuild(), if v.build.Some? then Some(Join(v.build.value, '.')) else None, '+');
  }

  lemma RenderAlphabet(v: SemVer)
    requires v.WellFormed()
    ensures var s := v.Render(); All(s, IsVersionChar) && s != "" && IsDigit(s[0])
  {
    WithoutBuildCut(v);
    if v.build.Some? {
      IdentifierAlphabet(v.build.value, false);
    }
  }

  lemma RenderCount(v: SemVer)
    requires v.WellFormed()
    ensures Count(v.Render(), '+') <= 1
  {
    WithoutBuildCut(v);
    if v.build.Some? {
      var b := Join(v.build.value, '.');
      IdentifierAlphabet(v.build.value, false);
      CountConcat(v.WithoutBuild(), ['+'] + b, '+');
      assert (['+'] + b)[1..] == b;
    } else {
      assert v.Render() == v.WithoutBuild();
    }
  }

  lemma RenderPlain(v: SemVer)
    requires v.WellFormed()
    ensures PlainText(v.Render())
  {
    var s := v.Render();
    RenderAlphabet(v);
    TrimFixed(s);
    RenderCount(v);
  }

  lemma CoreRoundTrip(v: SemVer)
    requires v.WellFormed()
    ensures ValidCore(Join(v.Core(), '.')) && Split(Join(v.Core(), '.'), '.') == v.Core()
    ensures DecimalValue(v.Core()[0]) == v.major
    ensures DecimalValue(v.Core()[1]) == v.minor
    ensures DecimalValue(v.Core()[2]) == v.patch
  {
    SplitJoin(v.Core(), '.');
    ValueOfDecimal(v.major);
    ValueOfDecimal(v.minor);
    ValueOfDecimal(v.patch);
  }

  /** Every rendering is accepted, and reading it back gives the version that was rendered. */
  lemma ReadRender(v: SemVer)
    requires v.WellFormed()
    ensures ValidateVersion(v.Render()) && Read(v.Render()) == v
  {
    RenderPlain(v);
    RenderCut(v);
    WithoutBuildCut(v);
    CoreRoundTrip(v);
    if v.build.Some? {
      JoinedIdentifiers(v.build.value, false);
    }
    if v.prerelease.Some? {
      JoinedIdentifiers(v.prerelease.value, true);
    }
  }

  lemma CoreReading(core: string)
    requires ValidCore(core)
    ensures var parts := Split(core, '.');
            && Join(parts, '.') == core
            && parts == [parts[0], parts[1], parts[2]]
            && (forall i :: 0 <= i < 3 ==>
                  parts[i] in parts && ValidCorePart(parts[i]) && Decimal(DecimalValue(parts[i])) == parts[i])
  {
    var parts := Split(core, '.');
    JoinSplit(core, '.');
    forall i | 0 <= i < 3
      ensures parts[i] in parts && ValidCorePart(parts[i]) && Decimal(DecimalValue(parts[i])) == parts[i]
    {
      assert parts[i] in parts;
      DecimalOfValue(parts[i]);
    }
  }

  lemma PartReading(part: Option<string>, rejectNumericLeadingZero: bool)
    requires part.Some? ==> ValidIdentifiers(part.value, rejectNumericLeadingZero)
    ensures var read := SplitPart(part);
            && read.Some? == part.Some?
            && (read.Some? ==> Join(read.value, '.') == part.value)
  {
    if part.Some? {
      JoinSplit(part.value, '.');
    }
  }

  /** Every accepted text is the rendering of its reading. */
  lemma RenderRead(value: string)
    requires ValidateVersion(value)
    ensures Read(value).WellFormed() && Read(value).Render() == value
  {
    var (withoutBuild, build) := Cut(value, '+');
    var (core, prerelease) := Cut(withoutBuild, '-');
    var v := Read(value);
    assert v.Core() == Split(core, '.') && v.major < U64 && v.minor < U64 && v.patch < U64 by {
      CoreReading(core);
    }
    assert Join(v.Core(), '.') == core by {
      JoinSplit(core, '.');
    }
    PartReading(prerelease, true);
    PartReading(build, false);
    assert v.prerelease == SplitPart(prerelease) && v.build == SplitPart(build);
    assert v.WellFormed();
    assert v.WithoutBuild() == withoutBuild;
  }

  /** The validator accepts exactly the renderings of SemVer 2.0.0 versions whose core numbers fit 64 bits. */
  lemma ValidIffRendering(value: string)
    ensures ValidateVersion(value) <==> exists v: SemVer :: v.WellFormed() && v.Render() == value
  {
    if ValidateVersion(value) {
      RenderRead(value);
    }
    if v: SemVer :| v.WellFormed() && v.Render() == value {
      ReadRender(v);
    }
  }

  /** No accepted version has two decompositions. */
  lemma UniqueDecomposition(v: SemVer, w: SemVer)
    requires v.WellFormed() && w.WellFormed() && v.Render() == w.Render()
    ensures v == w
  {
    ReadRender(v);
    ReadRender(w);
  }

  /** Facts path rendering relies on: an accepted version starts with a digit and stays in a small alphabet. */
  lemma VersionOutline(value: string)
    requires ValidateVersion(value)
    ensures value != "" && IsDigit(value[0]) && All(value, IsVersionChar)
  {
    RenderRead(value);
    RenderAlphabet(Read(value));
  }

  // ---- the identifiers of the grammar, letter by letter ----

  /** A numeric identifier: a zero, or digits that do not begin with one. */
  predicate NumericIdentifier(s: string) {
    s == "0" || (s != "" && s[0] in "123456789" && forall c :: c in s ==> c in "0123456789")
  }

  predicate BuildIdentifier(s: string) {
    s != "" && forall c :: c in s ==> IdentifierLetter(c)
  }

  /** An identifier that is not all digits, or a numeric one. */
  predicate PrereleaseIdentifier(s: string) {
    BuildIdentifier(s) && ((exists c :: c in s && c !in "0123456789") || NumericIdentifier(s))
  }

  lemma LettersIff(s: string)
    ensures All(s, IsIdentifierChar) <==> forall c :: c in s ==> IdentifierLetter(c)
    ensures All(s, IsDigit) <==> forall c :: c in s ==> c in "0123456789"
  {
    hide IdentifierLetter, IsIdentifierChar, IsDigit;
    forall c: char ensures (IdentifierLetter(c) <==> IsIdentifierChar(c)) && (c in "0123456789" <==> IsDigit(c)) {
      IdentifierLetterIff(c);
      DigitLetter(c);
    }
    assert forall i :: 0 <= i < |s| ==> s[i] in s;
  }

  lemma FirstDigit(c: char)
    ensures c in "123456789" <==> c in "0123456789" && c != '0'
  {
    var all, most := "0123456789", "123456789";
    assert all == ['0'] + most;
  }

  lemma IdentifierIff(s: string)
    ensures ValidIdentifier(s, false) <==> BuildIdentifier(s)
    ensures ValidIdentifier(s, true) <==> PrereleaseIdentifier(s)
  {
    hide IdentifierLetter, IsIdentifierChar, IsDigit;
    LettersIff(s);
    if s != "" {
      FirstDigit(s[0]);
      assert s[0] in s;
      if |s| == 1 {
        assert s == [s[0]];
      }
    }
  }

  /** A version is well formed exactly by the grammar: 64-bit core numbers, and dot-separated identifiers whose numeric
      ones, before the build, have no leading zero. */
  lemma GrammarIff(v: SemVer)
    ensures v.WellFormed() <==>
      && v.major < 0x1_0000_0000_0000_0000 && v.minor < 0x1_0000_0000_0000_0000 && v.patch < 0x1_0000_0000_0000_0000
      && (v.prerelease.Some? ==>
            v.prerelease.value != [] && forall part :: part in v.prerelease.value ==> PrereleaseIdentifier(part))
      && (v.build.Some? ==> v.build.value != [] && forall part :: part in v.build.value ==> BuildIdentifier(part))
  {
    hide ValidIdentifier, PrereleaseIdentifier, BuildIdentifier;
    forall s: string
      ensures (ValidIdentifier(s, false) <==> BuildIdentifier(s)) && (ValidIdentifier(s, true) <==> PrereleaseIdentifier(s))
    {
      IdentifierIff(s);
    }
  }
}
