/** The package audit's path normalisation. */
module NormalizedPaths {
  import opened Wrappers
  import opened Text

  /** A part that stays. */
  predicate Kept(part: string) {
    part != "" && part != "." && part != ".."
  }

  /** Relative, and made of kept parts only. */
  predicate Normal(path: string) {
    forall part :: part in Split(path, '/') ==> Kept(part)
  }

  predicate IsSkipped(part: string) {
    part == "" || part == "."
  }

  function KeptParts(parts: seq<string>): (kept: seq<string>)
    ensures forall part :: part in kept ==> part in parts && !IsSkipped(part)
  {
    if parts == [] then []
    else if IsSkipped(parts[|parts| - 1]) then KeptParts(parts[..|parts| - 1])
    else KeptParts(parts[..|parts| - 1]) + [parts[|parts| - 1]]
  }

  /** The components of a relative path without the current-directory ones; none when it climbs or is empty. */
  function Normalized(path: string): Option<string> {
    var parts := Split(path, '/');
    if (path != "" && path[0] == '/') || ".." in parts || KeptParts(parts) == [] then None
    else Some(Join(KeptParts(parts), '/'))
  }

  lemma {:induction false} JoinGrows(parts: seq<string>, part: string)
    requires parts != []
    ensures Join(parts + [part], '/') == Join(parts, '/') + ['/'] + part
  {
    if |parts| == 1 {
      assert (parts + [part])[1..] == [part];
    } else {
      JoinGrows(parts[1..], part);
      assert (parts + [part])[1..] == parts[1..] + [part];
    }
  }

  lemma JoinIsLong(parts: seq<string>)
    requires parts != [] && forall part :: part in parts ==> !IsSkipped(part)
    ensures Join(parts, '/') != ""
  {
    assert parts[0] in parts;
  }

  method NormalizedPath(path: string) returns (r: Option<string>)
    ensures r == Normalized(path)
  {
    hide Split, Join, KeptParts, IsSkipped;
    if path != "" && path[0] == '/' {
      return None;
    }
    var parts := Split(path, '/');
    var normalized := "";
    NoParts();
    for k := 0 to |parts|
      invariant ".." !in parts[..k]
      invariant normalized == if KeptParts(parts[..k]) == [] then "" else Join(KeptParts(parts[..k]), '/')
    {
      var part := parts[k];
      MorePart(parts, k);
      if IsSkipped(part) {
        assert part != ".." by { SkippedIsPlain(part); }
        continue;
      }
      if part == ".." {
        return None;
      }
      if KeptParts(parts[..k]) != [] {
        JoinIsLong(KeptParts(parts[..k]));
        JoinGrows(KeptParts(parts[..k]), part);
        normalized := normalized + "/";
      } else {
        LoneJoin(part);
      }
      normalized := normalized + part;
    }
    assert parts[..|parts|] == parts;
    if KeptParts(parts) != [] {
      JoinIsLong(KeptParts(parts));
    }
    return if normalized != "" then Some(normalized) else None;
  }

  lemma LoneJoin(part: string)
    ensures Join([part], '/') == part && [] + [part] == [part]
  {
  }

  lemma NoParts()
    ensures KeptParts([]) == []
  {
  }

  lemma SkippedIsPlain(part: string)
    requires IsSkipped(part)
    ensures part != ".."
  {
  }

  lemma MorePart(parts: seq<string>, k: nat)
    requires k < |parts|
    ensures parts[..k + 1] == parts[..k] + [parts[k]]
    ensures KeptParts(parts[..k + 1]) == if IsSkipped(parts[k]) then KeptParts(parts[..k]) else KeptParts(parts[..k]) + [parts[k]]
  {
    hide IsSkipped;
    assert parts[..k + 1][..k] == parts[..k];
  }

  // ---- fixed points ----

  lemma {:induction false} AllKept(parts: seq<string>)
    requires forall part :: part in parts ==> Kept(part)
    ensures KeptParts(parts) == parts
  {
    hide Kept;
    if parts != [] {
      var n := |parts| - 1;
      assert parts[n] in parts;
      KeptIsNotSkipped(parts[n]);
      AllKept(parts[..n]);
      assert parts[..n] + [parts[n]] == parts;
    }
  }

  lemma KeptIsNotSkipped(part: string)
    ensures Kept(part) <==> !IsSkipped(part) && part != ".."
  {
  }

  /** Every result is normal. */
  lemma NormalizedIsNormal(path: string)
    requires Normalized(path).Some?
    ensures Normal(Normalized(path).value)
  {
    hide Kept, IsSkipped, Join, Split;
    var kept := KeptParts(Split(path, '/'));
    JoinSplit(path, '/');
    SplitJoin(kept, '/');
    forall part | part in kept ensures Kept(part) {
      KeptIsNotSkipped(part);
    }
  }

  /** A path is its own normal form exactly when it is normal. */
  lemma FixedIffNormal(path: string)
    ensures Normalized(path) == Some(path) <==> Normal(path)
  {
    hide Kept, Join, KeptParts, IsSkipped;
    if Normalized(path) == Some(path) {
      NormalizedIsNormal(path);
    }
    if Normal(path) {
      var parts := Split(path, '/');
      AllKept(parts);
      JoinSplit(path, '/');
      forall part | part in parts ensures part != ".." {
        KeptIsNotSkipped(part);
      }
      NormalIsRelative(path);
    }
  }

  lemma FirstPart(path: string)
    ensures path == "" || path[0] == '/' ==> Split(path, '/')[0] == ""
    ensures Split(path, '/')[0] in Split(path, '/')
  {
  }

  lemma NormalIsRelative(path: string)
    requires Normal(path)
    ensures path != "" && path[0] != '/'
  {
    hide Split;
    FirstPart(path);
  }
}
