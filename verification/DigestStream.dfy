/** The canonical byte stream a release candidate's digest is taken over. */
module DigestStream {
  import opened Wrappers
  import opened Text
  import opened Ordering
  import opened PortablePaths

  const PAYLOAD_FILES: nat := 5

  datatype Artifact = Artifact(path: string, sha256: string, bytes: nat)

  datatype DigestError = WrongCount | UnsafePath | NotBasename | Duplicate | BadMetadata

  predicate IsSha256(s: string) {
    |s| == 64 && IsLowerHex(s)
  }

  /** A relative path of portable parts. */
  predicate PortablePath(path: string) {
    && path != "" && path[0] !in {'/', '\\'} && '\\' !in path
    && All(path, c => !IsControl(c))
    && forall part :: part in Split(path, '/') ==> part != ".." && PortableComponent(part)
  }

  /** `Path::file_name` is the whole path. */
  predicate IsBasename(path: string) {
    path !in {"", ".", ".."} && '/' !in path
  }

  predicate Acceptable(a: Artifact) {
    PortablePath(a.path) && IsBasename(a.path) && IsSha256(a.sha256) && 0 < a.bytes
  }

  predicate ByPath(a: Artifact, b: Artifact) {
    Less(a.path, b.path)
  }

  /** One line of the stream. */
  function Line(a: Artifact): string {
    a.sha256 + "  " + Decimal(a.bytes) + "  " + a.path + "\n"
  }

  function Lines(payload: seq<Artifact>): string {
    if payload == [] then "" else Lines(payload[..|payload| - 1]) + Line(payload[|payload| - 1])
  }

  predicate DistinctPaths(payload: seq<Artifact>) {
    forall i, j :: 0 <= i < j < |payload| ==> payload[i].path != payload[j].path
  }

  predicate AllAcceptable(payload: seq<Artifact>) {
    forall a :: a in payload ==> Acceptable(a)
  }

  predicate Accepted(payload: seq<Artifact>) {
    |payload| == PAYLOAD_FILES && AllAcceptable(payload) && DistinctPaths(payload)
  }

  function Sorted(payload: seq<Artifact>): seq<Artifact> {
    Sort(ByPath, payload)
  }

  lemma ByPathIsWeak()
    ensures StrictWeak(ByPath)
  {
    hide Less;
    forall a ensures !ByPath(a, a) {
      LessIrreflexive(a.path);
    }
    forall a, b | ByPath(a, b) ensures !ByPath(b, a) {
      LessAsymmetric(a.path, b.path);
    }
    forall a, b, c | !ByPath(b, a) && !ByPath(c, b) ensures !ByPath(c, a) {
      NotLessTransitive(a.path, b.path, c.path);
    }
  }

  // ---- sorting makes duplicates adjacent ----

  predicate AdjacentDistinct(s: seq<Artifact>) {
    forall i :: 0 <= i < |s| - 1 ==> s[i].path != s[i + 1].path
  }

  predicate StrictlyByPath(s: seq<Artifact>) {
    forall i, j :: 0 <= i < j < |s| ==> ByPath(s[i], s[j])
  }

  lemma {:induction false} AdjacentSuffices(s: seq<Artifact>, i: nat, j: nat)
    requires SortedBy(ByPath, s) && AdjacentDistinct(s) && i < j < |s|
    ensures ByPath(s[i], s[j])
  {
    hide Less;
    LessTotal(s[j - 1].path, s[j - 1 + 1].path);
    assert !ByPath(s[j], s[j - 1]);
    if i < j - 1 {
      AdjacentSuffices(s, i, j - 1);
      LessTransitive(s[i].path, s[j - 1].path, s[j].path);
    }
  }

  lemma StrictIsDistinct(s: seq<Artifact>)
    requires SortedBy(ByPath, s)
    ensures AdjacentDistinct(s) <==> StrictlyByPath(s)
    ensures StrictlyByPath(s) ==> DistinctPaths(s)
  {
    hide Less;
    if AdjacentDistinct(s) {
      forall i, j | 0 <= i < j < |s| ensures ByPath(s[i], s[j]) {
        AdjacentSuffices(s, i, j);
      }
    }
    forall i, j | 0 <= i < j < |s| && ByPath(s[i], s[j]) ensures s[i].path != s[j].path {
      LessIrreflexive(s[i].path);
    }
  }

  /** Whether paths repeat does not depend on the order. */
  predicate AtMostOnePerPath(m: multiset<Artifact>) {
    forall a, b :: a in m && b in m && a.path == b.path ==> a == b && m[a] == 1
  }

  lemma {:induction false} CountAbove(s: seq<Artifact>, i: nat, j: nat)
    requires i < j < |s| && s[i] == s[j]
    ensures multiset(s)[s[i]] >= 2
  {
    assert s == s[..j] + [s[j]] + s[j + 1..];
    assert s[..j][i] == s[i] && s[i] in multiset(s[..j]);
  }

  lemma {:induction false} CountOnce(s: seq<Artifact>, a: Artifact)
    requires DistinctPaths(s) && a in s
    ensures multiset(s)[a] == 1
  {
    var i :| 0 <= i < |s| && s[i] == a;
    assert s == s[..i] + [a] + s[i + 1..];
    assert a !in s[..i] && a !in s[i + 1..];
  }

  lemma DistinctIff(s: seq<Artifact>)
    ensures DistinctPaths(s) <==> AtMostOnePerPath(multiset(s))
  {
    if DistinctPaths(s) {
      forall a, b | a in multiset(s) && b in multiset(s) && a.path == b.path ensures a == b && multiset(s)[a] == 1 {
        CountOnce(s, a);
        var i :| 0 <= i < |s| && s[i] == a;
        var j :| 0 <= j < |s| && s[j] == b;
      }
    }
    if AtMostOnePerPath(multiset(s)) {
      forall i, j | 0 <= i < j < |s| ensures s[i].path != s[j].path {
        assert s[i] in multiset(s) && s[j] in multiset(s);
        if s[i] == s[j] {
          CountAbove(s, i, j);
        }
      }
    }
  }

  /** Testing neighbours after sorting rejects every duplicate path, wherever it stood before. */
  lemma AdjacentTestIsComplete(payload: seq<Artifact>)
    ensures AdjacentDistinct(Sorted(payload)) <==> DistinctPaths(payload)
  {
    hide Less, Sort;
    ByPathIsWeak();
    SortSorted(ByPath, payload);
    SortMultiset(ByPath, payload);
    StrictIsDistinct(Sorted(payload));
    DistinctIff(payload);
    DistinctIff(Sorted(payload));
    DistinctIsAdjacent(Sorted(payload));
  }

  lemma DistinctIsAdjacent(s: seq<Artifact>)
    ensures DistinctPaths(s) ==> AdjacentDistinct(s)
  {
  }

  // ---- the stream ----

  /** What each refusal says of the payload. */
  predicate Explains(payload: seq<Artifact>, e: DigestError) {
    match e
    case WrongCount => |payload| != PAYLOAD_FILES
    case UnsafePath => exists a :: a in payload && !PortablePath(a.path)
    case NotBasename => exists a :: a in payload && PortablePath(a.path) && !IsBasename(a.path)
    case Duplicate => !DistinctPaths(payload)
    case BadMetadata => exists a :: a in payload && (!IsSha256(a.sha256) || a.bytes == 0)
  }

  method CandidateDigestInput(payload: seq<Artifact>) returns (r: Result<string, DigestError>)
    ensures r.Success? <==> Accepted(payload)
    ensures r.Success? ==> r.value == Lines(Sorted(payload))
    ensures r.Failure? ==> Explains(payload, r.error)
  {
    hide Less, Sort, Acceptable, Line, DistinctPaths;
    if |payload| != PAYLOAD_FILES {
      return Failure(WrongCount);
    }
    var sorted := Sorted(payload);
    SortMembers(ByPath, payload);
    AdjacentTestIsComplete(payload);
    var previous: Option<string> := None;
    var output := "";
    for k := 0 to |sorted|
      invariant previous == if k == 0 then None else Some(sorted[k - 1].path)
      invariant forall j :: 0 <= j < k ==> Acceptable(sorted[j])
      invariant forall j :: 0 <= j < k - 1 ==> sorted[j].path != sorted[j + 1].path
      invariant output == Lines(sorted[..k])
    {
      var file := sorted[k];
      assert file in sorted && file in payload;
      AcceptableParts(file);
      if !PortablePath(file.path) {
        return Failure(UnsafePath);
      }
      if !IsBasename(file.path) {
        return Failure(NotBasename);
      }
      if previous == Some(file.path) {
        assert sorted[k - 1].path == sorted[k - 1 + 1].path;
        return Failure(Duplicate);
      }
      if !IsSha256(file.sha256) || file.bytes == 0 {
        return Failure(BadMetadata);
      }
      previous := Some(file.path);
      assert sorted[..k + 1][..k] == sorted[..k];
      output := output + Line(file);
    }
    assert sorted[..|sorted|] == sorted;
    forall a | a in payload ensures Acceptable(a) {
      assert a in sorted;
    }
    return Success(output);
  }

  lemma AcceptableParts(a: Artifact)
    ensures Acceptable(a) <==> PortablePath(a.path) && IsBasename(a.path) && IsSha256(a.sha256) && 0 < a.bytes
  {
  }

  // ---- the stream determines the payload ----

  /** Up to the first line feed. */
  lemma FirstLineUnique(a: string, x: string, b: string, y: string)
    requires '\n' !in a && '\n' !in b && a + "\n" + x == b + "\n" + y
    ensures a == b && x == y
  {
    var s := a + "\n" + x;
    assert s[|a|] == '\n' && s[|b|] == '\n';
    assert forall i :: 0 <= i < |a| ==> s[i] == a[i];
    assert forall i :: 0 <= i < |b| ==> s[i] == b[i];
    assert |a| == |b|;
    assert a == s[..|a|] && b == s[..|b|];
    assert x == s[|a| + 1..] && y == s[|b| + 1..];
  }

  /** Up to the first space. */
  lemma FirstWordUnique(a: string, x: string, b: string, y: string)
    requires ' ' !in a && ' ' !in b && a + "  " + x == b + "  " + y
    ensures a == b && x == y
  {
    var s := a + "  " + x;
    assert s[|a|] == ' ' && s[|b|] == ' ';
    assert forall i :: 0 <= i < |a| ==> s[i] == a[i];
    assert forall i :: 0 <= i < |b| ==> s[i] == b[i];
    assert |a| == |b|;
    assert a == s[..|a|] && b == s[..|b|];
    assert x == s[|a| + 2..] && y == s[|b| + 2..];
  }

  function LineBody(a: Artifact): string {
    a.sha256 + "  " + (Decimal(a.bytes) + "  " + a.path)
  }

  lemma LineShape(a: Artifact)
    requires Acceptable(a)
    ensures Line(a) == LineBody(a) + "\n" && '\n' !in LineBody(a)
    ensures ' ' !in a.sha256 && ' ' !in Decimal(a.bytes)
  {
    hide PortableComponent, Split;
    assert Line(a) == LineBody(a) + "\n";
    var d := Decimal(a.bytes);
    assert forall i :: 0 <= i < |d| ==> IsDigit(d[i]);
    assert forall i :: 0 <= i < |a.path| ==> !IsControl(a.path[i]);
    assert forall i :: 0 <= i < |a.sha256| ==> IsHexLetter(a.sha256[i]);
  }

  lemma LineBodyInjective(a: Artifact, b: Artifact)
    requires Acceptable(a) && Acceptable(b) && LineBody(a) == LineBody(b)
    ensures a == b
  {
    hide Acceptable, Decimal;
    LineShape(a);
    LineShape(b);
    FirstWordUnique(a.sha256, Decimal(a.bytes) + "  " + a.path, b.sha256, Decimal(b.bytes) + "  " + b.path);
    FirstWordUnique(Decimal(a.bytes), a.path, Decimal(b.bytes), b.path);
    ValueOfDecimal(a.bytes);
    ValueOfDecimal(b.bytes);
  }

  lemma {:induction false} LinesFirst(s: seq<Artifact>)
    requires s != []
    ensures Lines(s) == Line(s[0]) + Lines(s[1..])
  {
    hide Line;
    var n := |s| - 1;
    if n > 0 {
      LinesFirst(s[..n]);
      assert s[1..][..n - 1] == s[..n][1..];
      assert Lines(s[1..]) == Lines(s[..n][1..]) + Line(s[n]);
    } else {
      assert s[..0] == [] && s[1..] == [];
    }
  }

  lemma {:induction false} LinesInjective(s: seq<Artifact>, t: seq<Artifact>)
    requires AllAcceptable(s) && AllAcceptable(t) && Lines(s) == Lines(t)
    ensures s == t
    decreases |s|
  {
    hide Acceptable, Lines, Line, LineBody;
    NoLinesIff(s);
    NoLinesIff(t);
    if s != [] && t != [] {
      LinesFirst(s);
      LinesFirst(t);
      LineShape(s[0]);
      LineShape(t[0]);
      FirstLineUnique(LineBody(s[0]), Lines(s[1..]), LineBody(t[0]), Lines(t[1..]));
      LineBodyInjective(s[0], t[0]);
      LinesInjective(s[1..], t[1..]);
    }
  }

  lemma NoLinesIff(s: seq<Artifact>)
    ensures Lines(s) == "" <==> s == []
  {
    if s != [] {
      assert |Line(s[|s| - 1])| > 0;
    }
  }

  lemma SortedAccepted(p: seq<Artifact>)
    requires Accepted(p)
    ensures StrictWeak(ByPath) && SortedBy(ByPath, Sorted(p)) && NoTies(ByPath, Sorted(p))
    ensures AllAcceptable(Sorted(p)) && multiset(Sorted(p)) == multiset(p)
  {
    hide Less, Sort, Acceptable;
    ByPathIsWeak();
    SortSorted(ByPath, p);
    SortMultiset(ByPath, p);
    SortMembers(ByPath, p);
    AdjacentTestIsComplete(p);
    StrictIsDistinct(Sorted(p));
  }

  /** Two accepted payloads have the same stream if and only if they are permutations of each other. */
  lemma SameStreamIff(p: seq<Artifact>, q: seq<Artifact>)
    requires Accepted(p) && Accepted(q)
    ensures Lines(Sorted(p)) == Lines(Sorted(q)) <==> multiset(p) == multiset(q)
  {
    hide Lines, Sort, Acceptable, DistinctPaths, StrictWeak, SortedBy, NoTies;
    SortedAccepted(p);
    SortedAccepted(q);
    if Lines(Sorted(p)) == Lines(Sorted(q)) {
      LinesInjective(Sorted(p), Sorted(q));
    }
    if multiset(p) == multiset(q) {
      SortedUnique(ByPath, Sorted(p), Sorted(q));
    }
  }

  // ---- what the stream says ----

  /** A line that says this of a file: 64 digits, two spaces, the size in decimal, two spaces, the path. */
  ghost predicate Says(line: string, a: Artifact) {
    && |line| >= 66 && line[..64] == a.sha256 && line[64..66] == "  "
    && exists n: nat :: SizeAt(line, a, n)
  }

  predicate SizeAt(line: string, a: Artifact, n: nat)
    requires |line| >= 66
  {
    && 68 + n <= |line|
    && IsCanonicalDecimal(line[66..66 + n]) && DecimalValue(line[66..66 + n]) == a.bytes
    && line[66 + n..68 + n] == "  " && line[68 + n..] == a.path
  }

  lemma LineSays(a: Artifact)
    requires Acceptable(a)
    ensures Says(LineBody(a), a) && PrintableLine(LineBody(a))
  {
    hide PortableComponent, Split, Decimal, DecimalValue;
    LineShape(a);
    ValueOfDecimal(a.bytes);
    var line, d := LineBody(a), Decimal(a.bytes);
    assert line[..64] == a.sha256 && line[64..66] == "  ";
    assert line[66..66 + |d|] == d && line[66 + |d|..68 + |d|] == "  " && line[68 + |d|..] == a.path;
    assert SizeAt(line, a, |d|);
    assert line[|line| - 1] == a.path[|a.path| - 1];
    assert !IsControl(a.path[|a.path| - 1]);
  }

  function Bodies(s: seq<Artifact>): (r: seq<string>)
    ensures |r| == |s| && forall i :: 0 <= i < |s| ==> r[i] == LineBody(s[i])
  {
    seq(|s|, i requires 0 <= i < |s| => LineBody(s[i]))
  }

  lemma {:induction false} LinesAreBodies(s: seq<Artifact>)
    requires AllAcceptable(s)
    ensures Lines(s) == Unlines(Bodies(s))
  {
    hide Acceptable, LineBody, Line, Lines;
    if s == [] {
      NoLinesIff(s);
    } else {
      LinesFirst(s);
      LineShape(s[0]);
      LinesAreBodies(s[1..]);
      assert Bodies(s)[1..] == Bodies(s[1..]);
    }
  }

  /** The stream of an accepted payload has a line for each file, in the byte order of the paths, and each line says
      the digest, the size and the path of its file. */
  lemma StreamSays(payload: seq<Artifact>)
    requires Accepted(payload)
    ensures var stream, files := Lines(Sorted(payload)), Sorted(payload);
            && multiset(files) == multiset(payload)
            && stream == Unlines(LinesOf(stream)) && |LinesOf(stream)| == |files| == 5
            && (forall i :: 0 <= i < |files| ==> Says(LinesOf(stream)[i], files[i]))
            && (forall i, j :: 0 <= i < j < |files| ==> Precedes(files[i].path, files[j].path))
  {
    hide Lines, Sort, Acceptable, LineBody, Less, Says, Precedes, DistinctPaths, PrintableLine, Unlines, LinesOf;
    var files := Sorted(payload);
    SortedAccepted(payload);
    SortMembers(ByPath, payload);
    LinesAreBodies(files);
    forall i | 0 <= i < |files| ensures Says(Bodies(files)[i], files[i]) && PrintableLine(Bodies(files)[i]) {
      assert files[i] in files;
      LineSays(files[i]);
    }
    LinesOfUnlines(Bodies(files));
    AdjacentTestIsComplete(payload);
    StrictIsDistinct(files);
    forall i, j | 0 <= i < j < |files| ensures Precedes(files[i].path, files[j].path) {
      assert ByPath(files[i], files[j]);
      LessIff(files[i].path, files[j].path);
    }
  }

  // ---- which records are acceptable ----

  /** A record is acceptable exactly when its path is one portable component without slashes, backslashes and control
      characters, its digest has 64 lower-case hexadecimal digits and its size is not zero. */
  lemma AcceptableIff(a: Artifact)
    ensures Acceptable(a) <==>
      && '/' !in a.path && '\\' !in a.path
      && (forall c :: c in a.path ==> 0x20 <= c as int < 0x7F || 0x9F < c as int)
      && PortableComponent(a.path) && HexDigits(a.sha256, 64) && a.bytes > 0
  {
    hide PortableComponent, Split;
    HexIff(a.sha256, 64);
    if PortableComponent(a.path) {
      PortableEnds(a.path);
    }
    assert forall i :: 0 <= i < |a.path| ==> a.path[i] in a.path;
    if '/' !in a.path {
      SplitJoin([a.path], '/');
    }
  }

  lemma PortableEnds(part: string)
    requires PortableComponent(part)
    ensures part != "" && part != "." && part != ".."
  {
    hide Stem;
  }
}
