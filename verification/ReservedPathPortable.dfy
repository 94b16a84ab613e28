/** Why the per-component portability test of path resolution can never reject a reserved path. */
module ReservedPathsPortable {
  import opened Text
  import opened PortablePaths
  import opened ReservedPaths
  import SemVer

  lemma DistName()
    ensures Plain("dist")
  {
    PlainByLetter("dist");
  }

  lemma RustName()
    ensures Plain("rust")
  {
    PlainByLetter("rust");
  }

  lemma RustEvidenceName()
    ensures Plain("rust-evidence")
  {
    PlainByLetter("rust-evidence");
  }

  lemma DistNames()
    ensures Plain("dist") && Plain("rust") && Plain("rust-evidence")
  {
    hide Plain, PortableComponent;
    DistName();
    RustName();
    RustEvidenceName();
  }

  lemma LockName()
    ensures Plain(".rust-release-candidate.lock")
  {
    PlainByStem(".rust-release-candidate.lock", 0);
  }

  lemma StagingParentName()
    ensures Plain(".rust-release-candidate-staging")
  {
    PlainByStem(".rust-release-candidate-staging", 0);
  }

  lemma LedgerName()
    ensures Plain("ledger.json")
  {
    PlainByStem("ledger.json", 6);
  }

  lemma ProofsName()
    ensures Plain("proofs")
  {
    PlainByStem("proofs", 6);
  }

  lemma ProofRunnerName()
    ensures Plain("proof-runner")
  {
    PlainByStem("proof-runner", 12);
  }

  lemma ProofOutputName()
    ensures Plain("proof.json")
  {
    PlainByStem("proof.json", 5);
  }

  lemma ContextName()
    ensures Plain("context")
  {
    PlainByStem("context", 7);
  }

  lemma DebLaneName()
    ensures Plain("lane-deb")
  {
    PlainByStem("lane-deb", 8);
  }

  lemma RpmLaneName()
    ensures Plain("lane-rpm")
  {
    PlainByStem("lane-rpm", 8);
  }

  lemma AdvisoryDbName()
    ensures Plain("advisory-db")
  {
    PlainByStem("advisory-db", 11);
  }

  lemma PayloadName()
    ensures Plain("payload")
  {
    PlainByStem("payload", 7);
  }

  lemma VersionPlain(version: VersionComponent)
    ensures Plain(version)
  {
    SemVer.VersionOutline(version);
  }

  lemma TransactionPlain(transaction: TransactionComponent)
    ensures Plain(transaction)
  {
  }

  lemma ProofIdHarmless(proof: ProofId)
    ensures All(proof, Harmless) && |proof| > 4 && '.' !in proof
  {
  }

  lemma ProofNamePlain(proof: ProofId)
    ensures Plain(proof + ".json")
  {
    ProofIdHarmless(proof);
    PlainByStem(proof + ".json", |proof|);
  }

  lemma AttemptNamePlain(proof: ProofId, transaction: TransactionComponent)
    ensures Plain(AttemptName(proof, transaction))
  {
    ProofIdHarmless(proof);
    TransactionPlain(transaction);
    PlainByStem(AttemptName(proof, transaction), 0);
  }

  lemma QuarantinePlain(name: string, transaction: TransactionComponent)
    requires Plain(name)
    ensures Plain(QuarantineName(name, transaction))
  {
    TransactionPlain(transaction);
    PlainByStem(QuarantineName(name, transaction), 0);
  }

  predicate AllPlain(c: seq<string>) {
    forall part :: part in c ==> Plain(part)
  }

  lemma StagingPlain(transaction: TransactionComponent)
    ensures AllPlain(Staging(transaction))
  {
    hide Plain, PortableComponent;
    DistNames();
    StagingParentName();
    TransactionPlain(transaction);
  }

  lemma ChildPlain(parent: seq<string>, name: string)
    requires AllPlain(parent) && Plain(name)
    ensures AllPlain(parent + [name])
  {
    hide Plain, PortableComponent;
  }

  function Evidence(version: VersionComponent): seq<string> {
    ["dist", "rust-evidence", version]
  }

  lemma EvidencePlain(version: VersionComponent)
    ensures AllPlain(Evidence(version))
  {
    hide Plain, PortableComponent;
    DistNames();
    VersionPlain(version);
  }

  lemma ProofsPlain(version: VersionComponent)
    ensures AllPlain(Evidence(version) + ["proofs"])
  {
    hide Plain, PortableComponent;
    EvidencePlain(version);
    ProofsName();
    ChildPlain(Evidence(version), "proofs");
  }

  predicate IsStagingChild(p: ReservedPath) {
    p.StagingContext? || p.StagingDebLane? || p.StagingRpmLane? || p.StagingProofRunner?
    || p.StagingAdvisoryDb? || p.StagingPayload?
  }

  lemma StagingChildrenPlain(p: ReservedPath)
    requires IsStagingChild(p)
    ensures AllPlain(p.Components())
  {
    hide Plain, PortableComponent;
    StagingPlain(p.transaction);
    match p {
      case StagingContext(_) => ContextName();
      case StagingDebLane(_) => DebLaneName();
      case StagingRpmLane(_) => RpmLaneName();
      case StagingProofRunner(_) => ProofRunnerName();
      case StagingAdvisoryDb(_) => AdvisoryDbName();
      case StagingPayload(_) => PayloadName();
    }
  }

  lemma EvidenceChildPlain(version: VersionComponent, name: string)
    requires Plain(name)
    ensures AllPlain(["dist", "rust-evidence", version, name])
  {
    hide Plain, PortableComponent;
    EvidencePlain(version);
    ChildPlain(Evidence(version), name);
    assert Evidence(version) + [name] == ["dist", "rust-evidence", version, name];
  }

  lemma EvidenceChildrenPlain(p: ReservedPath)
    requires p.EvidenceLedger? || p.Proofs? || p.ProofRunner?
    ensures AllPlain(p.Components())
  {
    hide Plain, PortableComponent, AllPlain;
    match p {
      case EvidenceLedger(version) =>
        LedgerName();
        EvidenceChildPlain(version, "ledger.json");
      case Proofs(version) =>
        ProofsName();
        EvidenceChildPlain(version, "proofs");
      case ProofRunner(version) =>
        ProofRunnerName();
        EvidenceChildPlain(version, "proof-runner");
    }
  }

  lemma AttemptPlain(version: VersionComponent, proof: ProofId, transaction: TransactionComponent)
    ensures AllPlain(Evidence(version) + ["proofs"] + [AttemptName(proof, transaction)])
  {
    hide Plain, PortableComponent;
    ProofsPlain(version);
    AttemptNamePlain(proof, transaction);
    ChildPlain(Evidence(version) + ["proofs"], AttemptName(proof, transaction));
  }

  lemma ProofFilePlain(p: ReservedPath)
    requires p.Proof?
    ensures AllPlain(p.Components())
  {
    hide Plain, PortableComponent;
    ProofsPlain(p.version);
    ProofNamePlain(p.proof);
    ChildPlain(Evidence(p.version) + ["proofs"], p.proof + ".json");
    assert p.Components() == Evidence(p.version) + ["proofs"] + [p.proof + ".json"];
  }

  lemma ProofAttemptPlain(p: ReservedPath)
    requires p.ProofAttempt?
    ensures AllPlain(p.Components())
  {
    hide Plain, PortableComponent;
    AttemptPlain(p.version, p.proof, p.transaction);
    assert p.Components() == Evidence(p.version) + ["proofs"] + [AttemptName(p.proof, p.transaction)];
  }

  lemma SixPlain(a: string, b: string, c: string, d: string, e: string, f: string)
    requires Plain(a) && Plain(b) && Plain(c) && Plain(d) && Plain(e) && Plain(f)
    ensures AllPlain([a, b, c, d, e, f])
  {
    hide Plain, PortableComponent;
  }

  lemma ProofAttemptOutputPlain(p: ReservedPath)
    requires p.ProofAttemptOutput?
    ensures AllPlain(p.Components())
  {
    hide Plain, PortableComponent;
    DistNames();
    VersionPlain(p.version);
    ProofsName();
    AttemptNamePlain(p.proof, p.transaction);
    ProofOutputName();
    SixPlain("dist", "rust-evidence", p.version, "proofs", AttemptName(p.proof, p.transaction), "proof.json");
  }

  lemma DistChildrenPlain(p: ReservedPath)
    requires p.Dist? || p.Payload? || p.EvidenceParent? || p.Lock? || p.StagingParent?
    ensures AllPlain(p.Components())
  {
    hide Plain, PortableComponent;
    DistNames();
    LockName();
    StagingParentName();
  }

  lemma QuarantinedPlain(inner: seq<string>, transaction: TransactionComponent)
    requires inner != [] && AllPlain(inner)
    ensures AllPlain(Quarantined(inner, transaction))
  {
    assert inner[|inner| - 1] in inner;
    QuarantinePlain(inner[|inner| - 1], transaction);
  }

  /** Every component of every reserved path passes the portability test. */
  lemma {:induction false} ComponentsPlain(p: ReservedPath)
    ensures AllPlain(p.Components())
  {
    hide Plain, PortableComponent;
    match p {
      case Quarantine(target, transaction) =>
        ComponentsPlain(target);
        QuarantinedPlain(target.Components(), transaction);
      case StagingInvocation(transaction) => StagingPlain(transaction);
      case EvidenceVersion(version) => EvidencePlain(version);
      case Proof(_, _) => ProofFilePlain(p);
      case ProofAttempt(_, _, _) => ProofAttemptPlain(p);
      case ProofAttemptOutput(_, _, _) => ProofAttemptOutputPlain(p);
      case _ =>
        if IsStagingChild(p) {
          StagingChildrenPlain(p);
        } else if p.EvidenceLedger? || p.Proofs? || p.ProofRunner? {
          EvidenceChildrenPlain(p);
        } else {
          DistChildrenPlain(p);
        }
    }
  }
}
