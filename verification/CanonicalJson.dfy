/** The canonical form of release documents: a few arrays are sets in disguise and are sorted. */
module CanonicalJson {
  import opened Wrappers
  import opened Ordering

  /** The fields of an object come in key order, as the JSON library keeps them. */
  datatype Json =
    | Null
    | Boolean(truth: bool)
    | Number(digits: string)
    | Text(text: string)
    | Array(items: seq<Json>)
    | Object(fields: seq<Field>)

  datatype Field = Field(key: string, value: Json)

  /** What the items of an array are sorted by, if they are. */
  datatype SortKey = Unsorted | ByText | ByField(name: string)

  /** The arrays that are sets, by the name of the field that holds them. */
  function KeyOf(field: Option<string>): SortKey {
    match field
    case None => Unsorted
    case Some(name) =>
      if name in {"features", "active_exceptions", "expected_proof_ids"} then ByText
      else if name == "payload" then ByField("path")
      else if name == "package_members" then ByField("package_file")
      else Unsorted
  }

  function AsText(v: Json): Option<string> {
    if v.Text? then Some(v.text) else None
  }

  function Get(fields: seq<Field>, name: string): Option<Json> {
    if fields == [] then None
    else if fields[0].key == name then Some(fields[0].value)
    else Get(fields[1..], name)
  }

  function Rank(key: SortKey, v: Json): Option<string> {
    match key
    case Unsorted => None
    case ByText => AsText(v)
    case ByField(name) =>
      if v.Object? then
        match Get(v.fields, name)
        case None => None
        case Some(w) => AsText(w)
      else None
  }

  /** Rust's order on optional strings: nothing before something. */
  predicate Before(key: SortKey, a: Json, b: Json) {
    match Rank(key, b)
    case None => false
    case Some(t) => Rank(key, a).None? || Less(Rank(key, a).value, t)
  }

  function Arrange(key: SortKey, items: seq<Json>): seq<Json> {
    if key == Unsorted then items else Sort((a, b) => Before(key, a, b), items)
  }

  function Normalize(v: Json, field: Option<string>): Json
    decreases v
  {
    match v
    case Object(fields) => Object(NormalizeFields(fields))
    case Array(items) => Array(Arrange(KeyOf(field), NormalizeItems(items)))
    case _ => v
  }

  function NormalizeItems(items: seq<Json>): (r: seq<Json>)
    ensures |r| == |items|
    ensures forall i :: 0 <= i < |items| ==> r[i] == Normalize(items[i], None)
    decreases items
  {
    if items == [] then [] else [Normalize(items[0], None)] + NormalizeItems(items[1..])
  }

  function NormalizeFields(fields: seq<Field>): (r: seq<Field>)
    ensures |r| == |fields|
    ensures forall i :: 0 <= i < |fields| ==> r[i] == Field(fields[i].key, Normalize(fields[i].value, Some(fields[i].key)))
    decreases fields
  {
    if fields == [] then []
    else [Field(fields[0].key, Normalize(fields[0].value, Some(fields[0].key)))] + NormalizeFields(fields[1..])
  }

  lemma BeforeIsWeak(key: SortKey)
    ensures StrictWeak((a, b) => Before(key, a, b))
  {
    hide Less, Rank;
    forall a ensures !Before(key, a, a) {
      if Rank(key, a).Some? { LessIrreflexive(Rank(key, a).value); }
    }
    forall a, b | Before(key, a, b) ensures !Before(key, b, a) {
      if Rank(key, a).Some? { LessAsymmetric(Rank(key, a).value, Rank(key, b).value); }
    }
    forall a, b, c | !Before(key, b, a) && !Before(key, c, b) ensures !Before(key, c, a) {
      if Rank(key, a).Some? && Rank(key, b).Some? && Rank(key, c).Some? {
        NotLessTransitive(Rank(key, a).value, Rank(key, b).value, Rank(key, c).value);
      }
    }
  }

  // ---- normalizing twice ----

  lemma ArrangeMembers(key: SortKey, items: seq<Json>)
    ensures |Arrange(key, items)| == |items| && forall v :: v in Arrange(key, items) <==> v in items
    ensures Arrange(key, Arrange(key, items)) == Arrange(key, items)
  {
    hide Before, Sort;
    var before := (a, b) => Before(key, a, b);
    if key != Unsorted {
      BeforeIsWeak(key);
      SortMembers(before, items);
      SortSorted(before, items);
      SortFixed(before, Sort(before, items));
    }
  }

  /** The canonical form is its own canonical form. */
  lemma {:induction false} NormalizeIdempotent(v: Json, field: Option<string>)
    ensures Normalize(Normalize(v, field), field) == Normalize(v, field)
    decreases v
  {
    hide Arrange, KeyOf;
    match v
    case Object(fields) =>
      var once := NormalizeFields(fields);
      forall i | 0 <= i < |fields| ensures NormalizeFields(once)[i] == once[i] {
        NormalizeIdempotent(fields[i].value, Some(fields[i].key));
      }
      assert NormalizeFields(once) == once;
    case Array(items) =>
      var once := NormalizeItems(items);
      var arranged := Arrange(KeyOf(field), once);
      ArrangeMembers(KeyOf(field), once);
      forall i | 0 <= i < |arranged| ensures NormalizeItems(arranged)[i] == arranged[i] {
        assert arranged[i] in once;
        var j :| 0 <= j < |items| && once[j] == arranged[i];
        NormalizeIdempotent(items[j], None);
      }
      assert NormalizeItems(arranged) == arranged;
    case _ =>
  }

  // ---- sets in disguise ----

  /** Different items of the array sort apart. */
  predicate RanksTell(key: SortKey, items: seq<Json>) {
    NoTies((a, b) => Before(key, a, b), items)
  }

  lemma {:induction false} NormalizeMultiset(items: seq<Json>, other: seq<Json>)
    requires multiset(items) == multiset(other)
    ensures multiset(NormalizeItems(items)) == multiset(NormalizeItems(other))
    decreases |items|
  {
    hide Normalize;
    assert |items| == |multiset(items)| && |other| == |multiset(other)|;
    if items != [] {
      assert items[0] in multiset(other);
      var k :| 0 <= k < |other| && other[k] == items[0];
      var rest := other[..k] + other[k + 1..];
      WithoutOne(other, k);
      TailMultiset(items);
      NormalizeMultiset(items[1..], rest);
      NormalizeWithout(other, k);
      assert NormalizeItems(items) == [Normalize(items[0], None)] + NormalizeItems(items[1..]);
    }
  }

  lemma WithoutOne<T>(s: seq<T>, k: nat)
    requires k < |s|
    ensures multiset(s[..k] + s[k + 1..]) == multiset(s) - multiset{s[k]}
    ensures multiset(s) == multiset(s[..k] + s[k + 1..]) + multiset{s[k]}
  {
    assert s == s[..k] + [s[k]] + s[k + 1..];
  }

  lemma NormalizeConcat(a: seq<Json>, b: seq<Json>)
    ensures NormalizeItems(a + b) == NormalizeItems(a) + NormalizeItems(b)
  {
    hide Normalize, NormalizeItems;
    var both := NormalizeItems(a + b);
    forall i | 0 <= i < |a + b| ensures both[i] == (NormalizeItems(a) + NormalizeItems(b))[i] {
      assert both[i] == Normalize((a + b)[i], None);
    }
  }

  lemma NormalizeOne(v: Json)
    ensures NormalizeItems([v]) == [Normalize(v, None)]
  {
    hide Normalize;
    assert [v][1..] == [];
  }

  lemma SpliceMultiset<T>(a: seq<T>, x: T, b: seq<T>, whole: seq<T>, without: seq<T>)
    requires whole == a + ([x] + b) && without == a + b
    ensures multiset(whole) == multiset(without) + multiset{x}
  {
  }

  lemma NormalizeSplit(a: seq<Json>, v: Json, b: seq<Json>)
    ensures NormalizeItems(a + ([v] + b)) == NormalizeItems(a) + ([Normalize(v, None)] + NormalizeItems(b))
  {
    hide Normalize, NormalizeItems;
    NormalizeConcat(a, [v] + b);
    NormalizeConcat([v], b);
    NormalizeOne(v);
  }

  lemma SplitAt<T>(s: seq<T>, k: nat)
    requires k < |s|
    ensures s == s[..k] + ([s[k]] + s[k + 1..])
  {
  }

  lemma NormalizeWithout(items: seq<Json>, k: nat)
    requires k < |items|
    ensures multiset(NormalizeItems(items))
         == multiset(NormalizeItems(items[..k] + items[k + 1..])) + multiset{Normalize(items[k], None)}
  {
    hide Normalize, NormalizeItems;
    var a, b := items[..k], items[k + 1..];
    SplitAt(items, k);
    NormalizeSplit(a, items[k], b);
    NormalizeConcat(a, b);
    SpliceMultiset(
      NormalizeItems(a), Normalize(items[k], None), NormalizeItems(b), NormalizeItems(items), NormalizeItems(a + b));
  }

  lemma NoTiesSorted<T(!new)>(before: (T, T) -> bool, s: seq<T>, t: seq<T>)
    requires NoTies(before, s) && multiset(s) == multiset(t)
    ensures NoTies(before, t)
  {
    forall i, j | 0 <= i < |t| && 0 <= j < |t| && t[i] != t[j] ensures before(t[i], t[j]) || before(t[j], t[i]) {
      assert t[i] in multiset(s) && t[j] in multiset(s);
      var m :| 0 <= m < |s| && s[m] == t[i];
      var n :| 0 <= n < |s| && s[n] == t[j];
      assert s[m] != s[n];
    }
  }

  /** An array that is not a set sorts by an order under which everything ties. */
  lemma ArrangeIsSort(key: SortKey, items: seq<Json>)
    ensures Arrange(key, items) == Sort((a, b) => Before(key, a, b), items)
  {
    hide Sort, Less;
    if key == Unsorted {
      SortNothing((a, b) => Before(key, a, b), items);
    }
  }

  lemma NormalizeArray(items: seq<Json>, field: Option<string>)
    ensures Normalize(Array(items), field) == Array(Sort((a, b) => Before(KeyOf(field), a, b), NormalizeItems(items)))
  {
    hide Before, Sort, KeyOf, NormalizeItems;
    ArrangeIsSort(KeyOf(field), NormalizeItems(items));
  }

  /** The canonical form of the array is the same in whatever order its items come. */
  ghost predicate OrderFree(items: seq<Json>, field: Option<string>) {
    forall other :: multiset(other) == multiset(items) ==> Normalize(Array(other), field) == Normalize(Array(items), field)
  }

  lemma OrderDoesNotMatter(items: seq<Json>, other: seq<Json>, field: Option<string>)
    requires multiset(items) == multiset(other)
    requires RanksTell(KeyOf(field), NormalizeItems(items))
    ensures Normalize(Array(other), field) == Normalize(Array(items), field)
  {
    hide Before, Sort, KeyOf, NoTies, SortedBy, StrictWeak, Arrange;
    var key := KeyOf(field);
    var before := (a, b) => Before(key, a, b);
    var s, t := NormalizeItems(items), NormalizeItems(other);
    NormalizeMultiset(items, other);
    ArrangeIsSort(key, s);
    ArrangeIsSort(key, t);
    BeforeIsWeak(key);
    SortSorted(before, s);
    SortSorted(before, t);
    SortMultiset(before, s);
    SortMultiset(before, t);
    NoTiesSorted(before, s, Sort(before, s));
    SortedUnique(before, Sort(before, s), Sort(before, t));
  }

  lemma NormalizePair(a: Json, b: Json, rest: seq<Json>)
    ensures NormalizeItems([a, b] + rest) == [Normalize(a, None), Normalize(b, None)] + NormalizeItems(rest)
  {
    hide Normalize, NormalizeItems;
    assert [a, b] + rest == [a] + ([b] + rest);
    NormalizeConcat([a], [b] + rest);
    NormalizeConcat([b], rest);
    NormalizeOne(a);
    NormalizeOne(b);
  }

  /** A tied pair, brought to the front in both orders, has two canonical forms. */
  lemma OrderMatters(items: seq<Json>, i: nat, j: nat, field: Option<string>)
    requires i < j < |items| && Normalize(items[i], None) != Normalize(items[j], None)
    requires !Before(KeyOf(field), Normalize(items[i], None), Normalize(items[j], None))
    requires !Before(KeyOf(field), Normalize(items[j], None), Normalize(items[i], None))
    ensures !OrderFree(items, field)
  {
    hide Before, Sort, KeyOf, StrictWeak, Normalize, NormalizeItems;
    var key := KeyOf(field);
    var before := (a, b) => Before(key, a, b);
    var x, y := Normalize(items[i], None), Normalize(items[j], None);
    var rest := TwoToFront(items, i, j);
    var one, two := [items[i], items[j]] + rest, [items[j], items[i]] + rest;
    NormalizePair(items[i], items[j], rest);
    NormalizePair(items[j], items[i], rest);
    NormalizeArray(one, field);
    NormalizeArray(two, field);
    BeforeIsWeak(key);
    SortTied(before, x, y, NormalizeItems(rest));
    assert Normalize(Array(one), field) != Normalize(Array(two), field);
  }

  /** The order of an array's items does not matter exactly when different items sort apart. Without a sort key
      nothing sorts apart, and the items have to be equal. */
  lemma OrderFreeIff(items: seq<Json>, field: Option<string>)
    ensures OrderFree(items, field) <==> RanksTell(KeyOf(field), NormalizeItems(items))
  {
    hide Before, KeyOf, Normalize;
    if RanksTell(KeyOf(field), NormalizeItems(items)) {
      forall other | multiset(other) == multiset(items)
        ensures Normalize(Array(other), field) == Normalize(Array(items), field)
      {
        OrderDoesNotMatter(items, other, field);
      }
    } else {
      var s, key := NormalizeItems(items), KeyOf(field);
      var i, j :| 0 <= i < |s| && 0 <= j < |s| && s[i] != s[j] && !Before(key, s[i], s[j]) && !Before(key, s[j], s[i]);
      if i < j {
        OrderMatters(items, i, j, field);
      } else {
        OrderMatters(items, j, i, field);
      }
    }
  }

  /** The record of a file as a release document holds it. */
  function Artifact(path: string, digest: string, bytes: string): Json {
    Object([Field("bytes", Number(bytes)), Field("path", Text(path)), Field("sha256", Text(digest))])
  }

  /** The order of two records of one path shows through. */
  lemma PathTwice(path: string, digests: (string, string), sizes: (string, string))
    requires digests.0 != digests.1 || sizes.0 != sizes.1
    ensures var a, b := Artifact(path, digests.0, sizes.0), Artifact(path, digests.1, sizes.1);
            && Normalize(Array([a, b]), Some("payload")) != Normalize(Array([b, a]), Some("payload"))
            && !OrderFree([a, b], Some("payload"))
  {
    hide KeyOf, Before, StrictWeak, Normalize, NormalizeItems, Sort, Artifact;
    var a, b := Artifact(path, digests.0, sizes.0), Artifact(path, digests.1, sizes.1);
    PayloadKey();
    ArtifactTies(path, digests.0, sizes.0, digests.1, sizes.1);
    ArtifactTies(path, digests.1, sizes.1, digests.0, sizes.0);
    ArtifactsDiffer(path, digests, sizes);
    assert [a, b] + [] == [a, b] && [b, a] + [] == [b, a];
    NormalizePair(a, b, []);
    NormalizePair(b, a, []);
    NormalizeNothing();
    BeforeIsWeak(ByField("path"));
    SortTied((v, w) => Before(ByField("path"), v, w), a, b, []);
    NormalizeArray([a, b], Some("payload"));
    NormalizeArray([b, a], Some("payload"));
    assert multiset([b, a]) == multiset([a, b]);
  }

  lemma NormalizeNothing()
    ensures NormalizeItems([]) == []
  {
  }

  lemma ArtifactTies(path: string, digest: string, bytes: string, digest': string, bytes': string)
    ensures Normalize(Artifact(path, digest, bytes), None) == Artifact(path, digest, bytes)
    ensures !Before(ByField("path"), Artifact(path, digest, bytes), Artifact(path, digest', bytes'))
  {
    hide Artifact, Rank, Normalize, Less;
    ArtifactRank(path, digest, bytes);
    ArtifactRank(path, digest', bytes');
    LessIrreflexive(path);
  }

  lemma ArtifactsDiffer(path: string, digests: (string, string), sizes: (string, string))
    requires digests.0 != digests.1 || sizes.0 != sizes.1
    ensures Artifact(path, digests.0, sizes.0) != Artifact(path, digests.1, sizes.1)
  {
    var a, b := Artifact(path, digests.0, sizes.0), Artifact(path, digests.1, sizes.1);
    assert a.fields[0].value.digits == sizes.0 && b.fields[0].value.digits == sizes.1;
    assert a.fields[2].value.text == digests.0 && b.fields[2].value.text == digests.1;
  }

  lemma ArtifactRank(path: string, digest: string, bytes: string)
    ensures Normalize(Artifact(path, digest, bytes), None) == Artifact(path, digest, bytes)
    ensures Rank(ByField("path"), Artifact(path, digest, bytes)) == Some(path)
  {
    var fields := Artifact(path, digest, bytes).fields;
    assert NormalizeFields(fields) == fields;
    assert |"bytes"| == 5 && |"path"| == 4;
    assert fields[1..][0] == fields[1];
    assert Get(fields[1..], "path") == Some(Text(path));
  }

  lemma PayloadKey()
    ensures KeyOf(Some("payload")) == ByField("path")
  {
    assert |"payload"| == 7 && "payload"[0] == 'p' && "features"[0] == 'f' && |"active_exceptions"| == 17;
    assert |"expected_proof_ids"| == 18;
  }

  // ---- the arrays that are sorted, by name ----

  /** The first field of this name holds this text. */
  predicate Holds(v: Json, name: string, text: string) {
    && v.Object?
    && exists k :: 0 <= k < |v.fields| && FirstField(v.fields, k, name) && v.fields[k].value == Text(text)
  }

  predicate FirstField(fields: seq<Field>, k: nat, name: string)
    requires k < |fields|
  {
    fields[k].key == name && forall j :: 0 <= j < k ==> fields[j].key != name
  }

  lemma {:induction false} GetIs(fields: seq<Field>, name: string, k: nat)
    requires k < |fields| && FirstField(fields, k, name)
    ensures Get(fields, name) == Some(fields[k].value)
  {
    if k > 0 {
      assert forall j :: 0 <= j < k - 1 ==> fields[1..][j] == fields[j + 1];
      GetIs(fields[1..], name, k - 1);
    }
  }

  lemma {:induction false} GetSome(fields: seq<Field>, name: string) returns (k: nat)
    requires Get(fields, name).Some?
    ensures k < |fields| && FirstField(fields, k, name) && Get(fields, name) == Some(fields[k].value)
  {
    if fields[0].key == name {
      k := 0;
    } else {
      var rest := GetSome(fields[1..], name);
      k := rest + 1;
      forall j | 0 <= j < k ensures fields[j].key != name {
        assert j > 0 ==> fields[j] == fields[1..][j - 1];
      }
    }
  }

  lemma RankIs(v: Json, name: string, text: string)
    ensures Rank(ByField(name), v) == Some(text) <==> Holds(v, name, text)
  {
    if v.Object? {
      if k: nat :| k < |v.fields| && FirstField(v.fields, k, name) && v.fields[k].value == Text(text) {
        GetIs(v.fields, name, k);
      }
      if Rank(ByField(name), v) == Some(text) {
        var k := GetSome(v.fields, name);
      }
    }
  }

  /** What an array of this name is sorted by: the texts themselves, or the text of a field. */
  predicate SortsBy(name: string, v: Json, text: string) {
    if name in {"features", "active_exceptions", "expected_proof_ids"} then v == Text(text)
    else if name == "payload" then Holds(v, "path", text)
    else name == "package_members" && Holds(v, "package_file", text)
  }

  predicate IsSorted(name: string) {
    name in {"features", "active_exceptions", "expected_proof_ids", "payload", "package_members"}
  }

  lemma SortsByIs(name: string, v: Json, text: string)
    ensures KeyOf(Some(name)) != Unsorted <==> IsSorted(name)
    ensures Rank(KeyOf(Some(name)), v) == Some(text) <==> SortsBy(name, v, text)
  {
    hide Holds, Get;
    RankIs(v, "path", text);
    RankIs(v, "package_file", text);
  }

  /** An array under one of five names is sorted by its texts or by one field, in the order of the texts, items without
      one first; no other array is touched. */
  lemma SortedForm(items: seq<Json>, name: string)
    ensures var s, r := NormalizeItems(items), Normalize(Array(items), Some(name)).items;
            && (!IsSorted(name) ==> r == s)
            && multiset(r) == multiset(s)
            && (forall i, j, t, u :: 0 <= i < j < |r| && SortsBy(name, r[i], t) && SortsBy(name, r[j], u) ==> !Precedes(u, t))
            && (forall i, j :: 0 <= i < j < |r| && HasKey(name, r[i]) ==> HasKey(name, r[j]))
  {
    hide KeyOf, SortsBy, HasKey, Sort, Less, Precedes, Rank, NormalizeItems, StrictWeak, IsSorted;
    var key := KeyOf(Some(name));
    var before := (a, b) => Before(key, a, b);
    var s, r := NormalizeItems(items), Normalize(Array(items), Some(name)).items;
    NormalizeArray(items, Some(name));
    SortsByIs(name, Null, "");
    BeforeIsWeak(key);
    SortSorted(before, s);
    SortMultiset(before, s);
    forall i, j | 0 <= i < j < |r| && HasKey(name, r[i]) ensures HasKey(name, r[j]) {
      RankedBehind(name, r[i], r[j]);
    }
    forall i, j, t, u | 0 <= i < j < |r| && SortsBy(name, r[i], t) && SortsBy(name, r[j], u) ensures !Precedes(u, t) {
      SortsByIs(name, r[i], t);
      SortsByIs(name, r[j], u);
      LessIff(u, t);
      assert !before(r[j], r[i]);
    }
  }

  ghost predicate HasKey(name: string, v: Json) {
    exists t :: SortsBy(name, v, t)
  }

  lemma RankedBehind(name: string, a: Json, b: Json)
    requires HasKey(name, a) && !Before(KeyOf(Some(name)), b, a)
    ensures HasKey(name, b)
  {
    hide KeyOf, SortsBy, Rank, Less;
    var t :| SortsBy(name, a, t);
    SortsByIs(name, a, t);
    var rank := Rank(KeyOf(Some(name)), b);
    SortsByIs(name, b, rank.value);
  }

  /** Items that tie with `x` keep their order. */
  lemma TiesStay(items: seq<Json>, field: Option<string>, x: Json)
    ensures var before := (a, b) => Before(KeyOf(field), a, b);
            TiedWith(before, x, Normalize(Array(items), field).items) == TiedWith(before, x, NormalizeItems(items))
  {
    hide KeyOf, Before, Sort, NormalizeItems, StrictWeak, TiedWith;
    NormalizeArray(items, field);
    BeforeIsWeak(KeyOf(field));
    SortStable((a, b) => Before(KeyOf(field), a, b), x, NormalizeItems(items));
  }
}
