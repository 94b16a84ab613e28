/** Release artifact basenames: printing one for a kind, version and architecture, and parsing it back. */
module ArtifactNames {
  import opened Wrappers
  import opened Text
  import SemVer

  datatype ReleaseArch = X86_64 | Aarch64

  datatype Kind = Tar | Deb | Rpm {
    function Name(): string {
      match this
      case Tar => "tar"
      case Deb => "deb"
      case Rpm => "rpm"
    }

    function Prefix(): string {
      if Deb? then "solstone-linux_" else "solstone-linux-"
    }

    function Suffix(arch: ReleaseArch): string {
      match this
      case Tar => if arch.X86_64? then "-linux-x86_64.tar.gz" else "-linux-aarch64.tar.gz"
      case Deb => if arch.X86_64? then "-1_amd64.deb" else "-1_arm64.deb"
      case Rpm => if arch.X86_64? then "-1.x86_64.rpm" else "-1.aarch64.rpm"
    }
  }

  datatype NameError = VersionMismatch | KindMismatch

  /** The three kinds the printer knows; every other kind is an error. */
  function KindNamed(kind: string): Option<Kind> {
    if kind == "tar" then Some(Tar)
    else if kind == "deb" then Some(Deb)
    else if kind == "rpm" then Some(Rpm)
    else None
  }

  function ArtifactName(kind: string, version: string, arch: ReleaseArch): Result<string, NameError> {
    if !SemVer.ValidateVersion(version) then Failure(VersionMismatch)
    else
      match KindNamed(kind)
      case None => Failure(KindMismatch)
      case Some(k) => Success(Format(k, version, arch))
  }

  function Format(kind: Kind, version: string, arch: ReleaseArch): string {
    kind.Prefix() + version + kind.Suffix(arch)
  }

  /** `strip_prefix` followed by `strip_suffix`. */
  function Strip(name: string, prefix: string, suffix: string): Option<string> {
    if prefix <= name && EndsWith(name[|prefix|..], suffix) then
      Some(name[|prefix|..|name| - |suffix|])
    else None
  }

  function ParseForArch(name: string, arch: ReleaseArch): Option<(string, ReleaseArch, string)> {
    match Strip(name, Tar.Prefix(), Tar.Suffix(arch))
    case Some(version) => Some((Tar.Name(), arch, version))
    case None =>
      match Strip(name, Deb.Prefix(), Deb.Suffix(arch))
      case Some(version) => Some((Deb.Name(), arch, version))
      case None =>
        match Strip(name, Rpm.Prefix(), Rpm.Suffix(arch))
        case Some(version) => Some((Rpm.Name(), arch, version))
        case None => None
  }

  function ParseArtifactName(name: string): Option<(string, ReleaseArch, string)> {
    var first := ParseForArch(name, X86_64);
    if first.Some? then first else ParseForArch(name, Aarch64)
  }

  lemma StripIff(name: string, prefix: string, suffix: string, version: string)
    ensures Strip(name, prefix, suffix) == Some(version) <==> name == prefix + version + suffix
  {
    if name == prefix + version + suffix {
      assert name[|prefix|..] == version + suffix;
      assert (version + suffix)[|version|..] == suffix;
      assert name[|prefix|..|name| - |suffix|] == version;
    }
    if Strip(name, prefix, suffix) == Some(version) {
      assert name == prefix + name[|prefix|..];
      assert name[|prefix|..] == version + name[|prefix|..][|version|..];
    }
  }

  lemma FromEnd(name: string, suffix: string, k: nat)
    requires k < |suffix| && EndsWith(name, suffix)
    ensures k < |name| && name[|name| - 1 - k] == suffix[|suffix| - 1 - k]
  {
    assert name[|name| - |suffix|..][|suffix| - 1 - k] == name[|name| - 1 - k];
  }

  /** The six suffixes are told apart by one character at a fixed distance from the end. */
  lemma SuffixesDiffer(kind: Kind, arch: ReleaseArch, kind': Kind, arch': ReleaseArch) returns (k: nat)
    requires kind != kind' || arch != arch'
    ensures DifferAt(kind.Suffix(arch), kind'.Suffix(arch'), k)
  {
    k := if kind != kind' then 0 else if kind.Tar? then 9 else 6;
  }

  predicate DifferAt(a: string, b: string, k: nat) {
    k < |a| && k < |b| && a[|a| - 1 - k] != b[|b| - 1 - k]
  }

  /** Suffixes that differ at the same distance from the end cannot both end a name. */
  lemma NoStrip(name: string, suffix: string, prefix: string, suffix': string, k: nat)
    requires DifferAt(suffix, suffix', k)
    requires EndsWith(name, suffix)
    ensures Strip(name, prefix, suffix').None?
  {
    FromEnd(name, suffix, k);
    if Strip(name, prefix, suffix').Some? {
      FromEnd(name[|prefix|..], suffix', k);
    }
  }

  lemma StripMismatch(name: string, kind: Kind, arch: ReleaseArch, prefix: string, kind': Kind, arch': ReleaseArch)
    requires kind != kind' || arch != arch'
    requires EndsWith(name, kind.Suffix(arch))
    ensures Strip(name, prefix, kind'.Suffix(arch')).None?
  {
    var k := SuffixesDiffer(kind, arch, kind', arch');
    NoStrip(name, kind.Suffix(arch), prefix, kind'.Suffix(arch'), k);
  }

  lemma ParseFormat(kind: Kind, version: string, arch: ReleaseArch)
    ensures ParseArtifactName(Format(kind, version, arch)) == Some((kind.Name(), arch, version))
  {
    var name := Format(kind, version, arch);
    StripIff(name, kind.Prefix(), kind.Suffix(arch), version);
    assert EndsWith(name, kind.Suffix(arch));
    if !kind.Tar? {
      StripMismatch(name, kind, arch, Tar.Prefix(), Tar, arch);
      if kind.Rpm? {
        StripMismatch(name, kind, arch, Deb.Prefix(), Deb, arch);
      }
    }
    if arch == Aarch64 {
      StripMismatch(name, kind, arch, Tar.Prefix(), Tar, X86_64);
      StripMismatch(name, kind, arch, Deb.Prefix(), Deb, X86_64);
      StripMismatch(name, kind, arch, Rpm.Prefix(), Rpm, X86_64);
    }
  }

  lemma FormatParse(name: string)
    requires ParseArtifactName(name).Some?
    ensures var (kind, arch, version) := ParseArtifactName(name).value;
            KindNamed(kind).Some? && name == Format(KindNamed(kind).value, version, arch)
  {
    var (kind, arch, version) := ParseArtifactName(name).value;
    forall k: Kind ensures KindNamed(k.Name()) == Some(k) {
    }
    forall k: Kind { StripIff(name, k.Prefix(), k.Suffix(arch), version); }
  }

  /** Parsing and printing are inverse: a basename is the printed form of a kind, version and architecture
      exactly when it parses to them and the version is valid. */
  lemma ParseInvertsPrint(name: string, kind: string, version: string, arch: ReleaseArch)
    ensures ArtifactName(kind, version, arch) == Success(name)
       <==> ParseArtifactName(name) == Some((kind, arch, version)) && SemVer.ValidateVersion(version)
  {
    var k := KindNamed(kind);
    if k.Some? {
      assert k.value.Name() == kind;
      ParseFormat(k.value, version, arch);
    }
    if ParseArtifactName(name) == Some((kind, arch, version)) {
      FormatParse(name);
    }
  }

  /** The six names of a release. */
  lemma SixNames(version: string)
    requires SemVer.ValidateVersion(version)
    ensures ArtifactName("tar", version, X86_64) == Success("solstone-linux-" + version + "-linux-x86_64.tar.gz")
    ensures ArtifactName("tar", version, Aarch64) == Success("solstone-linux-" + version + "-linux-aarch64.tar.gz")
    ensures ArtifactName("deb", version, X86_64) == Success("solstone-linux_" + version + "-1_amd64.deb")
    ensures ArtifactName("deb", version, Aarch64) == Success("solstone-linux_" + version + "-1_arm64.deb")
    ensures ArtifactName("rpm", version, X86_64) == Success("solstone-linux-" + version + "-1.x86_64.rpm")
    ensures ArtifactName("rpm", version, Aarch64) == Success("solstone-linux-" + version + "-1.aarch64.rpm")
  {
    assert |"tar"| == |"deb"| == |"rpm"| == 3 && "tar"[0] == 't' && "deb"[0] == 'd' && "rpm"[0] == 'r';
  }
}
