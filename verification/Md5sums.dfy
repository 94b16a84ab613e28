/** The md5sums control member of a Debian package against the data it covers. */
module Md5sums {
  import opened Wrappers
  import opened Text
  import opened Octet
  import opened Md5
  import opened Md5Spec
  import opened NormalizedPaths

  datatype Member = Member(path: string, bytes: seq<byte>)

  /** One line: the digest in hexadecimal of either case, two spaces, the path. */
  datatype Entry = Entry(sum: string, path: string)

  datatype Md5Error = Grammar | DuplicatePath | Mismatch

  predicate IsHexDigit(c: char) {
    '0' <= c <= '9' || 'a' <= c <= 'f' || 'A' <= c <= 'F'
  }

  predicate IsSum(s: string) {
    |s| == 32 && All(s, IsHexDigit)
  }

  function LineOf(e: Entry): string {
    e.sum + "  " + e.path
  }

  predicate IsEntry(e: Entry) {
    IsSum(e.sum) && Normal(e.path)
  }

  /** The lines are those of well-formed entries with distinct paths. */
  predicate IsListing(lines: seq<string>, entries: seq<Entry>) {
    && |lines| == |entries|
    && (forall i :: 0 <= i < |lines| ==> lines[i] == LineOf(entries[i]))
    && (forall e :: e in entries ==> IsEntry(e))
    && (forall i, j :: 0 <= i < j < |entries| ==> entries[i].path != entries[j].path)
  }

  predicate Lists(entries: seq<Entry>, path: string) {
    exists e :: e in entries && e.path == path
  }

  predicate Covers(data: seq<Member>, path: string) {
    exists m :: m in data && m.path == path
  }

  /** Of several members with one path the last counts. */
  predicate IsLast(data: seq<Member>, m: Member) {
    exists i :: 0 <= i < |data| && data[i] == m && forall j :: i < j < |data| ==> data[j].path != m.path
  }

  /** Every path of the data is listed, every listed path is in the data, and the digests agree. */
  ghost predicate Matches(entries: seq<Entry>, data: seq<Member>) {
    && (forall path :: Lists(entries, path) <==> Covers(data, path))
    && (forall e, m :: e in entries && IsLast(data, m) && m.path == e.path ==> IsDigest(m.bytes, Lower(e.sum)))
  }

  // ---- one line ----

  /** `split_once("  ")`: cut at the first two spaces in a row. */
  function SplitDouble(s: string): (r: Option<(string, string)>)
    ensures r.Some? ==> s == r.value.0 + "  " + r.value.1
  {
    if |s| < 2 then None
    else if s[0] == ' ' && s[1] == ' ' then
      assert s == "" + "  " + s[2..];
      Some(("", s[2..]))
    else
      match SplitDouble(s[1..])
      case None => None
      case Some((a, b)) =>
        assert s == [s[0]] + s[1..];
        Some(([s[0]] + a, b))
  }

  lemma {:induction false} SplitDoubleUnique(a: string, b: string)
    requires ' ' !in a
    ensures SplitDouble(a + "  " + b) == Some((a, b))
  {
    var s := a + "  " + b;
    if a == "" {
      assert s[2..] == b;
    } else {
      assert a[0] in a;
      SplitDoubleUnique(a[1..], b);
      assert s[1..] == a[1..] + "  " + b;
      assert [a[0]] + a[1..] == a;
    }
  }

  lemma SumHasNoSpace(sum: string)
    requires IsSum(sum)
    ensures ' ' !in sum
  {
    assert forall i :: 0 <= i < |sum| ==> IsHexDigit(sum[i]);
  }

  /** A line is an entry's in at most one way, and the split finds it. */
  lemma EntryOfLine(line: string, e: Entry)
    requires IsEntry(e) && line == LineOf(e)
    ensures SplitDouble(line) == Some((e.sum, e.path))
  {
    hide SplitDouble, IsSum, Normal;
    SumHasNoSpace(e.sum);
    SplitDoubleUnique(e.sum, e.path);
  }

  // ---- the declared and the actual map ----

  ghost predicate Declares(m: map<string, string>, entries: seq<Entry>) {
    && (forall path :: path in m <==> Lists(entries, path))
    && (forall e :: e in entries ==> e.path in m && m[e.path] == Lower(e.sum))
  }

  ghost predicate Digests(m: map<string, string>, data: seq<Member>) {
    && (forall path :: path in m <==> Covers(data, path))
    && (forall d :: IsLast(data, d) ==> d.path in m && IsDigest(d.bytes, m[d.path]))
  }

  lemma ListsMore(entries: seq<Entry>, e: Entry, path: string)
    ensures Lists(entries + [e], path) <==> path == e.path || Lists(entries, path)
  {
    assert e in entries + [e] && forall f :: f in entries ==> f in entries + [e];
  }

  lemma CoversMore(data: seq<Member>, d: Member, path: string)
    ensures Covers(data + [d], path) <==> path == d.path || Covers(data, path)
  {
    assert d in data + [d] && forall f :: f in data ==> f in data + [d];
  }

  lemma DeclaresMore(m: map<string, string>, entries: seq<Entry>, e: Entry)
    requires Declares(m, entries) && e.path !in m
    ensures Declares(m[e.path := Lower(e.sum)], entries + [e])
  {
    hide Lower, Lists;
    var wider := m[e.path := Lower(e.sum)];
    forall path ensures Lists(entries + [e], path) <==> path == e.path || Lists(entries, path) {
      ListsMore(entries, e, path);
    }
  }

  lemma LastOfMore(data: seq<Member>, d: Member, m: Member)
    requires IsLast(data + [d], m)
    ensures m == d || (IsLast(data, m) && m.path != d.path)
  {
    var longer := data + [d];
    var i :| 0 <= i < |longer| && longer[i] == m && forall j :: i < j < |longer| ==> longer[j].path != m.path;
    if i < |data| {
      assert longer[|data|] == d;
      assert forall j :: 0 <= j < |data| ==> longer[j] == data[j];
    }
  }

  lemma DigestsMore(m: map<string, string>, data: seq<Member>, d: Member, digest: string)
    requires Digests(m, data) && IsDigest(d.bytes, digest)
    ensures Digests(m[d.path := digest], data + [d])
  {
    hide IsDigest, IsLast, Covers;
    var wider := m[d.path := digest];
    forall path ensures Covers(data + [d], path) <==> path == d.path || Covers(data, path) {
      CoversMore(data, d, path);
    }
    forall f | IsLast(data + [d], f) ensures f.path in wider && IsDigest(f.bytes, wider[f.path]) {
      LastOfMore(data, d, f);
    }
  }

  lemma LastOfLonger(data: seq<Member>, d: Member, m: Member)
    requires IsLast(data, m) && d.path != m.path
    ensures IsLast(data + [d], m)
  {
    var i :| 0 <= i < |data| && data[i] == m && forall j :: i < j < |data| ==> data[j].path != m.path;
    var longer := data + [d];
    assert longer[i] == m && forall j :: i < j < |data| ==> longer[j] == data[j];
  }

  lemma LastIsLast(data: seq<Member>, d: Member)
    ensures IsLast(data + [d], d)
  {
    assert (data + [d])[|data|] == d;
  }

  lemma {:induction false} LastExists(data: seq<Member>, path: string) returns (m: Member)
    requires Covers(data, path)
    ensures IsLast(data, m) && m.path == path
  {
    hide IsLast;
    var n := |data| - 1;
    assert data == data[..n] + [data[n]];
    if data[n].path == path {
      m := data[n];
      LastIsLast(data[..n], m);
    } else {
      CoversMore(data[..n], data[n], path);
      m := LastExists(data[..n], path);
      LastOfLonger(data[..n], data[n], m);
    }
  }

  lemma MatchMakesSame(declared: map<string, string>, entries: seq<Entry>, actual: map<string, string>, data: seq<Member>)
    requires Declares(declared, entries) && Digests(actual, data) && Matches(entries, data)
    ensures declared == actual
  {
    hide IsDigest, IsLast, Lower, Covers;
    assert forall path :: path in declared <==> path in actual;
    forall path | path in declared ensures declared[path] == actual[path] {
      var e :| e in entries && e.path == path;
      var m := LastExists(data, path);
      DigestUnique(m.bytes, Lower(e.sum), actual[path]);
    }
  }

  /** Comparing the two maps decides whether listing and data match. */
  lemma SameMapsIff(declared: map<string, string>, entries: seq<Entry>, actual: map<string, string>, data: seq<Member>)
    requires Declares(declared, entries) && Digests(actual, data)
    ensures declared == actual <==> Matches(entries, data)
  {
    hide IsDigest, IsLast, Lower, Covers, Lists;
    if Matches(entries, data) {
      MatchMakesSame(declared, entries, actual, data);
    }
    if declared == actual {
      forall path ensures Lists(entries, path) <==> Covers(data, path) {
        assert path in declared <==> path in actual;
      }
    }
  }

  // ---- the check ----

  lemma NoListing(lines: seq<string>, k: nat)
    requires k < |lines|
    requires SplitDouble(lines[k]).None?
      || !IsEntry(Entry(SplitDouble(lines[k]).value.0, SplitDouble(lines[k]).value.1))
    ensures !exists entries :: IsListing(lines, entries)
  {
    hide SplitDouble, LineOf, IsEntry;
    forall entries ensures !IsListing(lines, entries) {
      if IsListing(lines, entries) {
        ListedAt(lines, entries, k);
      }
    }
  }

  lemma ListedAt(lines: seq<string>, entries: seq<Entry>, k: nat)
    requires IsListing(lines, entries) && k < |lines|
    ensures IsEntry(entries[k]) && SplitDouble(lines[k]) == Some((entries[k].sum, entries[k].path))
  {
    hide SplitDouble, LineOf, IsEntry;
    assert entries[k] in entries;
    EntryOfLine(lines[k], entries[k]);
  }

  /** All listings of the same lines start alike. */
  lemma ListingPrefix(lines: seq<string>, read: seq<Entry>, entries: seq<Entry>)
    requires IsListing(lines, entries) && |read| <= |lines|
    requires forall i :: 0 <= i < |read| ==> SplitDouble(lines[i]) == Some((read[i].sum, read[i].path))
    ensures read == entries[..|read|]
  {
    hide SplitDouble, LineOf, IsEntry, IsListing;
    ListingLength(lines, entries);
    forall i | 0 <= i < |read| ensures read[i] == entries[i] {
      ListedAt(lines, entries, i);
    }
  }

  lemma ListingLength(lines: seq<string>, entries: seq<Entry>)
    requires IsListing(lines, entries)
    ensures |entries| == |lines|
  {
  }

  lemma RepeatedPath(lines: seq<string>, read: seq<Entry>, k: nat, path: string)
    requires |read| == k < |lines|
    requires forall i :: 0 <= i < k ==> SplitDouble(lines[i]) == Some((read[i].sum, read[i].path))
    requires SplitDouble(lines[k]).Some? && SplitDouble(lines[k]).value.1 == path
    requires Lists(read, path)
    ensures !exists entries :: IsListing(lines, entries)
  {
    hide SplitDouble, LineOf, IsEntry;
    forall entries ensures !IsListing(lines, entries) {
      if IsListing(lines, entries) {
        ListingPrefix(lines, read, entries);
        ListedAt(lines, entries, k);
      }
    }
  }

  /** Parses the listing; fails exactly when there is none. */
  method ReadListing(text: string) returns (r: Result<map<string, string>, Md5Error>, ghost entries: seq<Entry>)
    ensures r.Success? <==> exists list :: IsListing(LinesOf(text), list)
    ensures r.Success? ==> IsListing(LinesOf(text), entries) && Declares(r.value, entries)
    ensures r.Failure? ==> r.error != Mismatch
  {
    hide LinesOf, SplitDouble, IsSum, Normal, Normalized, Declares, LineOf, Lower, IsListing;
    var lines := LinesOf(text);
    var declared: map<string, string> := map[];
    entries := [];
    NothingDeclared();
    for k := 0 to |lines|
      invariant |entries| == k && IsListing(lines[..k], entries) && Declares(declared, entries)
      invariant forall i :: 0 <= i < k ==> SplitDouble(lines[i]) == Some((entries[i].sum, entries[i].path))
    {
      var cut := SplitDouble(lines[k]);
      if cut.None? {
        NoListing(lines, k);
        return Failure(Grammar), [];
      }
      var (sum, path) := cut.value;
      var normal := NormalizedPath(path);
      FixedIffNormal(path);
      if !IsSum(sum) || path == "" || normal != Some(path) {
        EmptyIsNotNormal();
        NoListing(lines, k);
        return Failure(Grammar), [];
      }
      ghost var e := Entry(sum, path);
      DeclaredPaths(declared, entries, path);
      if path in declared {
        RepeatedPath(lines, entries, k, path);
        return Failure(DuplicatePath), [];
      }
      assert LineOf(e) == lines[k] by { CutLine(lines[k], e); }
      DeclaresMore(declared, entries, e);
      ListingMore(lines, k, entries, e);
      declared := declared[path := Lower(sum)];
      entries := entries + [e];
    }
    assert lines[..|lines|] == lines;
    assert IsListing(LinesOf(text), entries);
    return Success(declared), entries;
  }

  lemma CutLine(line: string, e: Entry)
    requires SplitDouble(line) == Some((e.sum, e.path))
    ensures LineOf(e) == line
  {
  }

  lemma ListingMore(lines: seq<string>, k: nat, entries: seq<Entry>, e: Entry)
    requires k < |lines| && IsListing(lines[..k], entries)
    requires IsEntry(e) && LineOf(e) == lines[k] && !Lists(entries, e.path)
    ensures IsListing(lines[..k + 1], entries + [e])
  {
    hide IsEntry, LineOf;
    assert lines[..k + 1] == lines[..k] + [lines[k]];
  }

  lemma DeclaredPaths(m: map<string, string>, entries: seq<Entry>, path: string)
    requires Declares(m, entries)
    ensures path in m <==> Lists(entries, path)
  {
  }

  lemma EmptyIsNotNormal()
    ensures !Normal("")
  {
    assert Split("", '/') == [""];
    assert "" in Split("", '/');
  }

  lemma NothingDeclared()
    ensures Declares(map[], []) && IsListing([], [])
  {
  }

  method DigestAll(data: seq<Member>) returns (actual: map<string, string>)
    ensures Digests(actual, data)
  {
    hide Digests, IsDigest;
    actual := map[];
    NothingDigested();
    for k := 0 to |data|
      invariant Digests(actual, data[..k])
    {
      var digest := Md5Digest(data[k].bytes);
      DigestsMore(actual, data[..k], data[k], digest);
      assert data[..k] + [data[k]] == data[..k + 1];
      actual := actual[data[k].path := digest];
    }
    assert data[..|data|] == data;
  }

  lemma NothingDigested()
    ensures Digests(map[], [])
  {
  }

  /** Accepts exactly the listings of the data: every member once, under its own path, with its MD5 digest. */
  method VerifyMd5sums(text: string, data: seq<Member>) returns (r: Result<(), Md5Error>)
    ensures r.Success? <==> exists entries :: IsListing(LinesOf(text), entries) && Matches(entries, data)
    ensures r.Failure? ==> (r.error == Mismatch <==> exists entries :: IsListing(LinesOf(text), entries))
  {
    hide IsListing, Matches, Declares, Digests, LinesOf;
    ghost var entries: seq<Entry>;
    var declared: Result<map<string, string>, Md5Error>;
    declared, entries := ReadListing(text);
    if declared.Failure? {
      return Failure(declared.error);
    }
    var actual := DigestAll(data);
    SameMapsIff(declared.value, entries, actual, data);
    if declared.value != actual {
      forall other | IsListing(LinesOf(text), other) ensures other == entries {
        ListingUnique(LinesOf(text), entries, other);
      }
      assert IsListing(LinesOf(text), entries);
      return Failure(Mismatch);
    }
    return Success(());
  }

  lemma ListingUnique(lines: seq<string>, a: seq<Entry>, b: seq<Entry>)
    requires IsListing(lines, a) && IsListing(lines, b)
    ensures a == b
  {
    hide SplitDouble, LineOf, IsEntry, IsListing;
    ListingLength(lines, a);
    ListingLength(lines, b);
    forall i | 0 <= i < |lines| ensures a[i] == b[i] {
      ListedAt(lines, a, i);
      ListedAt(lines, b, i);
    }
  }

  // ---- the listing a package builder writes ----

  /** What `md5sum` prints for the data: one entry a member, in order, with its digest. */
  ghost predicate IsWritten(entries: seq<Entry>, data: seq<Member>) {
    && |entries| == |data|
    && forall i :: 0 <= i < |data| ==> entries[i].path == data[i].path && IsDigest(data[i].bytes, entries[i].sum)
  }

  predicate Listable(data: seq<Member>) {
    && (forall m :: m in data ==> Normal(m.path) && PrintableLine(m.path))
    && (forall i, j :: 0 <= i < j < |data| ==> data[i].path != data[j].path)
  }

  function EntryLines(entries: seq<Entry>): seq<string> {
    seq(|entries|, i requires 0 <= i < |entries| => LineOf(entries[i]))
  }

  lemma DigestIsSum(message: seq<byte>, sum: string)
    requires IsDigest(message, sum)
    ensures IsSum(sum) && Lower(sum) == sum && '\n' !in sum
  {
    hide IsDigest;
    DigestUnique(message, sum, sum);
    DigestIsLower(message, sum);
    assert Lower(sum) == sum;
  }

  lemma DigestIsLower(message: seq<byte>, sum: string)
    requires IsDigest(message, sum)
    ensures IsLowerHex(sum)
  {
    hide Hex, Blocks, Output, IsPadded;
    var padded :| IsPadded(message, padded) && |padded| % 64 == 0 && sum == Hex(Output(Blocks(padded)));
  }

  lemma WrittenLine(e: Entry)
    requires '\n' !in e.sum && Normal(e.path) && PrintableLine(e.path)
    ensures PrintableLine(LineOf(e))
  {
    NormalIsRelative(e.path);
    assert LineOf(e)[|LineOf(e)| - 1] == e.path[|e.path| - 1];
  }

  /** A written listing of distinct normal paths is accepted. */
  lemma WrittenIsAccepted(entries: seq<Entry>, data: seq<Member>)
    requires IsWritten(entries, data) && Listable(data)
    ensures IsListing(LinesOf(Unlines(EntryLines(entries))), entries) && Matches(entries, data)
  {
    hide LineOf, IsDigest, Normal, PrintableLine, IsSum, Lower, IsLast;
    forall i | 0 <= i < |entries|
      ensures IsEntry(entries[i]) && PrintableLine(LineOf(entries[i])) && Lower(entries[i].sum) == entries[i].sum
    {
      assert data[i] in data;
      DigestIsSum(data[i].bytes, entries[i].sum);
      WrittenLine(entries[i]);
    }
    LinesOfUnlines(EntryLines(entries));
    WrittenMatches(entries, data);
  }

  lemma WrittenMatches(entries: seq<Entry>, data: seq<Member>)
    requires IsWritten(entries, data)
    requires forall i :: 0 <= i < |entries| ==> Lower(entries[i].sum) == entries[i].sum
    requires forall i, j :: 0 <= i < j < |data| ==> data[i].path != data[j].path
    ensures Matches(entries, data)
  {
    hide IsDigest, Lower;
    forall path ensures Lists(entries, path) <==> Covers(data, path) {
      if e :| e in entries && e.path == path {
        var i :| 0 <= i < |entries| && entries[i] == e;
        assert data[i] in data;
      }
      if m :| m in data && m.path == path {
        var i :| 0 <= i < |data| && data[i] == m;
        assert entries[i] in entries;
      }
    }
  }

  lemma SumIff(s: string)
    ensures IsSum(s) <==> |s| == 32 && forall c :: c in s ==> c in "0123456789abcdef" || c in "ABCDEF"
  {
    hide IsHexDigit, IsHexLetter;
    forall c: char ensures (c in "0123456789abcdef" || c in "ABCDEF") <==> IsHexDigit(c) {
      HexLetter(c);
      HexCapital(c);
    }
    assert forall i :: 0 <= i < |s| ==> s[i] in s;
  }

  lemma HexCapital(c: char)
    ensures c in "ABCDEF" <==> 'A' <= c <= 'F'
    ensures IsHexDigit(c) <==> IsHexLetter(c) || 'A' <= c <= 'F'
  {
    var capitals := "ABCDEF";
    assert |capitals| == 6;
    if 'A' <= c <= 'F' {
      assert capitals[c as int - 'A' as int] == c;
    }
  }
}
