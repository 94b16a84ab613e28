/** The closed catalogue of paths the release tooling may touch, and how each renders to components
    below the repository root. */
module ReservedPaths {
  import opened Wrappers
  import opened Text
  import opened PortablePaths
  import SemVer

  predicate IsVersion(s: string) {
    SemVer.ValidateVersion(s) && PortableComponent(s)
  }

  predicate IsTransaction(s: string) {
    PortableComponent(s) && s != "" && All(s, IsIdentifierChar)
  }

  lemma ZeroRenders()
    ensures SemVer.SemVer(0, 0, 0, None, None).Render() == "0.0.0"
  {
    var v := SemVer.SemVer(0, 0, 0, None, None);
    assert Join(["0"], '.') == "0";
    assert Join(["0", "0"], '.') == "0.0" by {
      assert ["0", "0"][1..] == ["0"];
    }
    assert Join(["0", "0", "0"], '.') == "0.0.0" by {
      assert ["0", "0", "0"][1..] == ["0", "0"];
    }
    assert v.Core() == ["0", "0", "0"];
  }

  lemma VersionExists()
    ensures IsVersion("0.0.0")
  {
    ZeroRenders();
    SemVer.ReadRender(SemVer.SemVer(0, 0, 0, None, None));
    ZeroPortable();
  }

  lemma ZeroPortable()
    ensures PortableComponent("0.0.0")
  {
    NoDevice("0.0.0", 1);
  }

  const PROOF_IDS: set<string> :=
    {"debian-amd64", "rpm-x86_64", "tar-x86_64", "debian-arm64", "rpm-aarch64", "tar-aarch64"}

  type VersionComponent = s: string | IsVersion(s) witness (VersionExists(); "0.0.0")
  type TransactionComponent = s: string | IsTransaction(s) witness "0"
  type ProofId = s: string | s in PROOF_IDS witness "rpm-x86_64"

  datatype ReservedPath =
    | Dist
    | Payload
    | EvidenceParent
    | EvidenceVersion(version: VersionComponent)
    | EvidenceLedger(version: VersionComponent)
    | Lock
    | StagingParent
    | StagingInvocation(transaction: TransactionComponent)
    | StagingContext(transaction: TransactionComponent)
    | StagingDebLane(transaction: TransactionComponent)
    | StagingRpmLane(transaction: TransactionComponent)
    | StagingProofRunner(transaction: TransactionComponent)
    | StagingAdvisoryDb(transaction: TransactionComponent)
    | StagingPayload(transaction: TransactionComponent)
    | Proofs(version: VersionComponent)
    | ProofRunner(version: VersionComponent)
    | Proof(version: VersionComponent, proof: ProofId)
    | ProofAttempt(version: VersionComponent, proof: ProofId, transaction: TransactionComponent)
    | ProofAttemptOutput(version: VersionComponent, proof: ProofId, transaction: TransactionComponent)
    | Quarantine(target: ReservedPath, transaction: TransactionComponent)
  {
    function Components(): (c: seq<string>)
      ensures c != []
    {
      match this
      case Dist => ["dist"]
      case Payload => ["dist", "rust"]
      case EvidenceParent => ["dist", "rust-evidence"]
      case EvidenceVersion(version) => ["dist", "rust-evidence", version]
      case EvidenceLedger(version) => ["dist", "rust-evidence", version, "ledger.json"]
      case Lock => ["dist", ".rust-release-candidate.lock"]
      case StagingParent => ["dist", ".rust-release-candidate-staging"]
      case StagingInvocation(transaction) => Staging(transaction)
      case StagingContext(transaction) => Staging(transaction) + ["context"]
      case StagingDebLane(transaction) => Staging(transaction) + ["lane-deb"]
      case StagingRpmLane(transaction) => Staging(transaction) + ["lane-rpm"]
      case StagingProofRunner(transaction) => Staging(transaction) + ["proof-runner"]
      case StagingAdvisoryDb(transaction) => Staging(transaction) + ["advisory-db"]
      case StagingPayload(transaction) => Staging(transaction) + ["payload"]
      case Proofs(version) => ["dist", "rust-evidence", version, "proofs"]
      case ProofRunner(version) => ["dist", "rust-evidence", version, "proof-runner"]
      case Proof(version, proof) => ["dist", "rust-evidence", version, "proofs", proof + ".json"]
      case ProofAttempt(version, proof, transaction) =>
        ["dist", "rust-evidence", version, "proofs", AttemptName(proof, transaction)]
      case ProofAttemptOutput(version, proof, transaction) =>
        ["dist", "rust-evidence", version, "proofs", AttemptName(proof, transaction), "proof.json"]
      case Quarantine(target, transaction) =>
        Quarantined(target.Components(), transaction)
    }
  }

  lemma QuarantineRenders(target: ReservedPath, transaction: TransactionComponent)
    ensures Quarantine(target, transaction).Components() == Quarantined(target.Components(), transaction)
  {
    hide Quarantined;
  }

  function Staging(transaction: TransactionComponent): seq<string> {
    ["dist", ".rust-release-candidate-staging", transaction]
  }

  function AttemptName(proof: string, transaction: string): string {
    "." + proof + "." + transaction + ".attempt"
  }

  function QuarantineName(name: string, transaction: string): string {
    "." + name + "." + transaction + ".quarantine"
  }

  function Leaf(p: ReservedPath): string {
    var c := p.Components(); c[|c| - 1]
  }

  // ---- rendering is injective ----

  lemma NoDot(transaction: TransactionComponent)
    ensures '.' !in transaction
  {
  }

  /** A dotless tail is determined by the text it ends. */
  lemma LastDot(a: string, t: string, a': string, t': string)
    requires '.' !in t && '.' !in t'
    requires a + "." + t == a' + "." + t'
    ensures a == a' && t == t'
  {
    var s := a + "." + t;
    assert s[|a|] == '.' && s[|a'|] == '.';
    assert forall i :: |a| < i < |s| ==> s[i] == t[i - |a| - 1];
    assert forall i :: |a'| < i < |s| ==> s[i] == t'[i - |a'| - 1];
    assert |a| == |a'|;
    assert a == s[..|a|] && t == s[|a| + 1..];
    assert a' == s[..|a|] && t' == s[|a| + 1..];
  }

  lemma SuffixCancel(a: string, a': string, suffix: string)
    requires a + suffix == a' + suffix
    ensures a == a'
  {
    assert a == (a + suffix)[..|a|];
  }

  lemma DottedNameInjective(a: string, t: TransactionComponent, a': string, t': TransactionComponent, suffix: string)
    requires "." + a + "." + t + suffix == "." + a' + "." + t' + suffix
    ensures a == a' && t == t'
  {
    NoDot(t);
    NoDot(t');
    SuffixCancel("." + a + "." + t, "." + a' + "." + t', suffix);
    LastDot("." + a, t, "." + a', t');
    assert a == ("." + a)[1..] == ("." + a')[1..] == a';
  }

  // A rendered path is recognised from its components alone: `Reads(p, c)` says what the components of `p`
  // look like without naming any text in full, so that two paths reading the same components can be compared.

  predicate QuarantineShaped(leaf: string) {
    leaf != "" && leaf[0] == '.' && leaf[|leaf| - 1] == 'e'
  }

  predicate PlainReads(p: ReservedPath, c: seq<string>) {
    match p
    case Dist => |c| == 1
    case Payload => |c| == 2 && |c[1]| == 4
    case EvidenceParent => |c| == 2 && |c[1]| == 13
    case EvidenceVersion(version) => |c| == 3 && |c[1]| == 13 && c[2] == version
    case EvidenceLedger(version) => |c| == 4 && |c[1]| == 13 && c[2] == version && |c[3]| == 11
    case Lock => |c| == 2 && |c[1]| == 28
    case StagingParent => |c| == 2 && |c[1]| == 31
    case StagingInvocation(transaction) => |c| == 3 && |c[1]| == 31 && c[2] == transaction
    case StagingContext(transaction) => StagingReads(transaction, c) && |c[3]| == 7 && c[3][0] == 'c'
    case StagingDebLane(transaction) => StagingReads(transaction, c) && |c[3]| == 8 && c[3][5] == 'd'
    case StagingRpmLane(transaction) => StagingReads(transaction, c) && |c[3]| == 8 && c[3][5] == 'r'
    case StagingProofRunner(transaction) => StagingReads(transaction, c) && |c[3]| == 12
    case StagingAdvisoryDb(transaction) => StagingReads(transaction, c) && |c[3]| == 11
    case StagingPayload(transaction) => StagingReads(transaction, c) && |c[3]| == 7 && c[3][0] == 'p'
    case Proofs(version) => |c| == 4 && |c[1]| == 13 && c[2] == version && |c[3]| == 6
    case ProofRunner(version) => |c| == 4 && |c[1]| == 13 && c[2] == version && |c[3]| == 12
    case Proof(version, proof) => |c| == 5 && c[2] == version && c[4] != "" && c[4][0] != '.' && c[4] == proof + ".json"
    case ProofAttempt(version, proof, transaction) =>
      |c| == 5 && c[2] == version && c[4] != "" && c[4][0] == '.' && c[4] == AttemptName(proof, transaction)
    case ProofAttemptOutput(version, proof, transaction) =>
      |c| == 6 && c[2] == version && c[4] == AttemptName(proof, transaction)
    case Quarantine(_, _) => false
  }

  predicate StagingReads(transaction: TransactionComponent, c: seq<string>) {
    |c| == 4 && |c[1]| == 31 && c[2] == transaction
  }

  ghost predicate Reads(p: ReservedPath, c: seq<string>) {
    && c != []
    && QuarantineShaped(c[|c| - 1]) == p.Quarantine?
    && if p.Quarantine? then
         exists inner: seq<string> :: Reads(p.target, inner) && c == Quarantined(inner, p.transaction)
       else PlainReads(p, c)
  }

  function Quarantined(inner: seq<string>, transaction: TransactionComponent): seq<string>
    requires inner != []
  {
    inner[..|inner| - 1] + [QuarantineName(inner[|inner| - 1], transaction)]
  }

  /** Paths outside the evidence tree. */
  predicate InStaging(p: ReservedPath) {
    p.StagingParent? || p.StagingInvocation? || p.StagingContext? || p.StagingDebLane? || p.StagingRpmLane?
    || p.StagingProofRunner? || p.StagingAdvisoryDb? || p.StagingPayload?
  }

  predicate PlainForm(p: ReservedPath, c: seq<string>) {
    c != [] && PlainReads(p, c) && !QuarantineShaped(c[|c| - 1])
  }

  lemma StagingForm(p: ReservedPath)
    requires InStaging(p)
    ensures PlainForm(p, p.Components())
  {
    if p.StagingInvocation? {
      NoDot(p.transaction);
    }
  }

  /** What an attempt directory's name looks like at either end. */
  lemma AttemptNameEnds(proof: ProofId, transaction: TransactionComponent)
    ensures var name := AttemptName(proof, transaction); name != "" && name[0] == '.' && name[|name| - 1] == 't'
  {
  }

  lemma ProofFileForm(p: ReservedPath)
    requires p.Proof?
    ensures PlainForm(p, p.Components())
  {
    ProofIdOutline(p.proof);
  }

  lemma ProofAttemptForm(p: ReservedPath)
    requires p.ProofAttempt?
    ensures PlainForm(p, p.Components())
  {
    AttemptNameEnds(p.proof, p.transaction);
  }

  lemma ProofAttemptOutputForm(p: ReservedPath)
    requires p.ProofAttemptOutput?
    ensures PlainForm(p, p.Components())
  {
  }

  lemma ProofIdOutline(proof: ProofId)
    ensures proof != "" && proof[0] != '.'
  {
  }

  predicate InEvidence(p: ReservedPath) {
    p.EvidenceVersion? || p.EvidenceLedger? || p.Proofs? || p.ProofRunner?
  }

  lemma EvidenceVersionForm(p: ReservedPath)
    requires p.EvidenceVersion?
    ensures PlainForm(p, p.Components())
  {
    SemVer.VersionOutline(p.version);
    hide SemVer.ValidateVersion, PortableComponent;
  }

  lemma EvidenceFixedForm(p: ReservedPath)
    requires p.EvidenceLedger? || p.Proofs? || p.ProofRunner?
    ensures PlainForm(p, p.Components())
  {
    hide SemVer.ValidateVersion, PortableComponent;
  }

  lemma EvidenceForm(p: ReservedPath)
    requires InEvidence(p)
    ensures PlainForm(p, p.Components())
  {
    hide PlainForm;
    if p.EvidenceVersion? {
      EvidenceVersionForm(p);
    } else {
      EvidenceFixedForm(p);
    }
  }

  lemma DistForm(p: ReservedPath)
    requires p.Dist? || p.Payload? || p.EvidenceParent? || p.Lock?
    ensures PlainForm(p, p.Components())
  {
  }

  lemma PlainFormHolds(p: ReservedPath)
    requires !p.Quarantine?
    ensures PlainForm(p, p.Components())
  {
    if InStaging(p) {
      StagingForm(p);
    } else if p.Proof? {
      ProofFileForm(p);
    } else if p.ProofAttempt? {
      ProofAttemptForm(p);
    } else if p.ProofAttemptOutput? {
      ProofAttemptOutputForm(p);
    } else if InEvidence(p) {
      EvidenceForm(p);
    } else {
      DistForm(p);
    }
  }

  lemma {:induction false} ComponentsRead(p: ReservedPath)
    ensures Reads(p, p.Components())
  {
    if p.Quarantine? {
      ComponentsRead(p.target);
      assert p.Components() == Quarantined(p.target.Components(), p.transaction);
    } else {
      PlainFormHolds(p);
    }
  }

  lemma PlainReadsInjective(p: ReservedPath, q: ReservedPath, c: seq<string>)
    requires PlainReads(p, c) && PlainReads(q, c)
    ensures p == q
  {
    match p {
      case Proof(_, proof) => SuffixCancel(proof, q.proof, ".json");
      case ProofAttempt(_, proof, transaction) =>
        DottedNameInjective(proof, transaction, q.proof, q.transaction, ".attempt");
      case ProofAttemptOutput(_, proof, transaction) =>
        DottedNameInjective(proof, transaction, q.proof, q.transaction, ".attempt");
      case _ =>
    }
  }

  lemma QuarantinedInjective(c: seq<string>, t: TransactionComponent, d: seq<string>, u: TransactionComponent)
    requires c != [] && d != [] && Quarantined(c, t) == Quarantined(d, u)
    ensures c == d && t == u
  {
    var q, r := Quarantined(c, t), Quarantined(d, u);
    assert q[|q| - 1] == r[|r| - 1];
    DottedNameInjective(c[|c| - 1], t, d[|d| - 1], u, ".quarantine");
    assert c == q[..|q| - 1] + [c[|c| - 1]];
    assert d == r[..|r| - 1] + [d[|d| - 1]];
  }

  lemma {:induction false} ReadsInjective(p: ReservedPath, q: ReservedPath, c: seq<string>)
    requires Reads(p, c) && Reads(q, c)
    ensures p == q
  {
    if p.Quarantine? {
      var inner :| Reads(p.target, inner) && c == Quarantined(inner, p.transaction);
      var inner' :| Reads(q.target, inner') && c == Quarantined(inner', q.transaction);
      QuarantinedInjective(inner, p.transaction, inner', q.transaction);
      ReadsInjective(p.target, q.target, inner);
    } else {
      PlainReadsInjective(p, q, c);
    }
  }

  /** Rendering is injective over the whole catalogue, nested quarantines included. */
  lemma ComponentsInjective(p: ReservedPath, q: ReservedPath)
    requires p.Components() == q.Components()
    ensures p == q
  {
    ComponentsRead(p);
    ComponentsRead(q);
    ReadsInjective(p, q, p.Components());
  }

  // ---- the catalogue as a tree ----

  /** `c` is the child of this name below `p`. */
  predicate IsChild(c: ReservedPath, p: ReservedPath, name: string) {
    c.Components() == p.Components() + [name]
  }

  /** Every fixed path below its parent. */
  lemma FixedPaths()
    ensures Dist.Components() == ["dist"]
    ensures IsChild(Payload, Dist, "rust") && IsChild(EvidenceParent, Dist, "rust-evidence")
    ensures IsChild(Lock, Dist, ".rust-release-candidate.lock")
    ensures IsChild(StagingParent, Dist, ".rust-release-candidate-staging")
  {
  }

  lemma EvidencePaths(version: VersionComponent)
    ensures IsChild(EvidenceVersion(version), EvidenceParent, version)
    ensures IsChild(EvidenceLedger(version), EvidenceVersion(version), "ledger.json")
  {
  }

  lemma ProofsPaths(version: VersionComponent)
    ensures IsChild(Proofs(version), EvidenceVersion(version), "proofs")
    ensures IsChild(ProofRunner(version), EvidenceVersion(version), "proof-runner")
  {
  }

  lemma ProofPaths(version: VersionComponent, proof: ProofId)
    ensures IsChild(Proof(version, proof), Proofs(version), proof + ".json")
  {
  }

  lemma AttemptPaths(version: VersionComponent, proof: ProofId, transaction: TransactionComponent)
    ensures IsChild(ProofAttempt(version, proof, transaction), Proofs(version), "." + proof + "." + transaction + ".attempt")
  {
  }

  lemma OutputPaths(version: VersionComponent, proof: ProofId, transaction: TransactionComponent)
    ensures IsChild(ProofAttemptOutput(version, proof, transaction), ProofAttempt(version, proof, transaction), "proof.json")
  {
    hide AttemptName;
  }

  lemma StagingPaths(transaction: TransactionComponent)
    ensures IsChild(StagingInvocation(transaction), StagingParent, transaction)
    ensures IsChild(StagingContext(transaction), StagingInvocation(transaction), "context")
    ensures IsChild(StagingDebLane(transaction), StagingInvocation(transaction), "lane-deb")
    ensures IsChild(StagingRpmLane(transaction), StagingInvocation(transaction), "lane-rpm")
  {
  }

  lemma MoreStagingPaths(transaction: TransactionComponent)
    ensures IsChild(StagingProofRunner(transaction), StagingInvocation(transaction), "proof-runner")
    ensures IsChild(StagingAdvisoryDb(transaction), StagingInvocation(transaction), "advisory-db")
    ensures IsChild(StagingPayload(transaction), StagingInvocation(transaction), "payload")
  {
  }

  /** A quarantine stands beside its target, under the target's name with a dot before it. */
  lemma QuarantinePaths(target: ReservedPath, transaction: TransactionComponent)
    ensures var c, q, n := target.Components(), Quarantine(target, transaction).Components(), |target.Components()| - 1;
            |q| == |c| && q[..n] == c[..n] && q[n] == "." + c[n] + "." + transaction + ".quarantine"
  {
    QuarantineRenders(target, transaction);
  }
}
