/** The checkout as a tree of nodes with identities, the kernel's pathname walk over it, and the surgery
    that renaming, creating and deleting perform. Paths are component lists below the repository root. */
module FileTrees {
  import opened Wrappers

  type Path = seq<string>

  /** Device and inode numbers. */
  datatype Identity = Identity(device: nat, inode: nat)

  /** A symbolic link either leads to a path of the checkout or out of it. */
  datatype Node =
    | Directory(id: Identity, entries: map<string, Node>)
    | Regular(id: Identity, contents: string)
    | Symlink(id: Identity, target: Option<Path>)
    | Special(id: Identity)

  datatype Kind = DirectoryKind | RegularKind | SymlinkKind | SpecialKind

  /** What `symlink_metadata` reports of a node. */
  datatype Stat = Stat(kind: Kind, id: Identity)

  function StatOf(n: Node): Stat {
    match n
    case Directory(id, _) => Stat(DirectoryKind, id)
    case Regular(id, _) => Stat(RegularKind, id)
    case Symlink(id, _) => Stat(SymlinkKind, id)
    case Special(id) => Stat(SpecialKind, id)
  }

  // ---- looking up without following links ----

  function Lookup(n: Node, p: Path): Option<Node>
    decreases |p|
  {
    if p == [] then Some(n)
    else if n.Directory? && p[0] in n.entries then Lookup(n.entries[p[0]], p[1..])
    else None
  }

  function StatAt(n: Node, p: Path): Option<Stat> {
    match Lookup(n, p)
    case None => None
    case Some(m) => Some(StatOf(m))
  }

  predicate RealDirectory(n: Node, p: Path) {
    StatAt(n, p).Some? && StatAt(n, p).value.kind == DirectoryKind
  }

  /** Every proper prefix of `p` is a real directory, so that no walk to `p` can meet a link. */
  predicate RealAncestors(n: Node, p: Path) {
    forall k :: 0 <= k < |p| ==> RealDirectory(n, p[..k])
  }

  lemma {:induction false} LookupConcat(n: Node, p: Path, q: Path)
    ensures Lookup(n, p + q) ==
            match Lookup(n, p) case None => None case Some(m) => Lookup(m, q)
    decreases |p|
  {
    if p == [] {
      assert p + q == q;
    } else {
      assert (p + q)[1..] == p[1..] + q;
      if n.Directory? && p[0] in n.entries {
        LookupConcat(n.entries[p[0]], p[1..], q);
      }
    }
  }

  lemma LookupStep(n: Node, p: Path)
    requires p != []
    ensures Lookup(n, p) ==
            match Lookup(n, p[..|p| - 1])
            case None => None
            case Some(m) =>
              var name := p[|p| - 1];
              if m.Directory? && name in m.entries then Some(m.entries[name]) else None
  {
    var parent, name := p[..|p| - 1], p[|p| - 1];
    assert p == parent + [name];
    LookupConcat(n, parent, [name]);
    assert [name][1..] == [];
  }

  /** Whatever exists has real ancestors. */
  lemma FoundHasRealAncestors(n: Node, p: Path)
    requires Lookup(n, p).Some?
    ensures RealAncestors(n, p)
  {
    forall k | 0 <= k < |p| ensures RealDirectory(n, p[..k]) {
      assert p == p[..k] + p[k..];
      LookupConcat(n, p[..k], p[k..]);
    }
  }

  // ---- the kernel's walk ----

  datatype Walked = Found(stat: Stat) | NotFound | Fault

  /** Linux gives up after forty links. */
  const MAX_LINKS: nat := 40

  /** `lstat`: follow links met on the way, never the last component. */
  function Lstat(n: Node, p: Path): Walked {
    Walk(n, [], p, MAX_LINKS)
  }

  function Walk(root: Node, at: Path, rest: Path, links: nat): Walked
    decreases links, |rest|
  {
    match Lookup(root, at)
    case None => NotFound
    case Some(here) =>
      if rest == [] then Found(StatOf(here))
      else if !here.Directory? then Fault
      else if rest[0] !in here.entries then NotFound
      else
        var child := here.entries[rest[0]];
        if |rest| == 1 then Found(StatOf(child))
        else if child.Symlink? then
          if child.target.None? || links == 0 then Fault
          else Walk(root, [], child.target.value + rest[1..], links - 1)
        else Walk(root, at + [rest[0]], rest[1..], links)
  }

  /** Where the same walk ends up, as a path free of links. */
  function Destination(root: Node, at: Path, rest: Path, links: nat): (d: Option<Path>)
    ensures rest != [] && d.Some? ==> d.value != []
    decreases links, |rest|
  {
    match Lookup(root, at)
    case None => None
    case Some(here) =>
      if rest == [] then Some(at)
      else if !here.Directory? || rest[0] !in here.entries then None
      else
        var child := here.entries[rest[0]];
        if |rest| == 1 then Some(at + [rest[0]])
        else if child.Symlink? then
          if child.target.None? || links == 0 then None
          else Destination(root, [], child.target.value + rest[1..], links - 1)
        else Destination(root, at + [rest[0]], rest[1..], links)
  }

  /** The kernel finds something exactly when its walk has a destination, and reports what is there. */
  lemma {:induction false} WalkReachesDestination(root: Node, at: Path, rest: Path, links: nat)
    ensures match Destination(root, at, rest, links)
            case None => !Walk(root, at, rest, links).Found?
            case Some(p) => StatAt(root, p).Some? && Walk(root, at, rest, links) == Found(StatAt(root, p).value)
    decreases links, |rest|
  {
    if Lookup(root, at).Some? && rest != [] {
      var here := Lookup(root, at).value;
      if here.Directory? && rest[0] in here.entries {
        var child := here.entries[rest[0]];
        if |rest| == 1 {
          LookupStep(root, at + [rest[0]]);
          assert (at + [rest[0]])[..|at|] == at;
        } else if child.Symlink? {
          if child.target.Some? && links > 0 {
            WalkReachesDestination(root, [], child.target.value + rest[1..], links - 1);
          }
        } else {
          WalkReachesDestination(root, at + [rest[0]], rest[1..], links);
        }
      }
    }
  }

  function NoFollow(s: Option<Stat>): Walked {
    match s
    case None => NotFound
    case Some(stat) => Found(stat)
  }

  lemma {:induction false} WalkRealAncestors(root: Node, at: Path, rest: Path, links: nat)
    requires RealAncestors(root, at + rest) && Lookup(root, at).Some?
    ensures Walk(root, at, rest, links) == NoFollow(StatAt(root, at + rest))
    decreases |rest|
  {
    if rest == [] {
      assert at + rest == at;
    } else {
      var p, name := at + rest, rest[0];
      assert p[..|at|] == at;
      var here := Lookup(root, at).value;
      assert RealDirectory(root, p[..|at|]);
      LookupConcat(root, at, rest);
      if name in here.entries && |rest| > 1 {
        var child := here.entries[name];
        assert p[..|at| + 1] == at + [name];
        LookupStep(root, at + [name]);
        assert (at + [name])[..|at|] == at;
        assert RealDirectory(root, p[..|at| + 1]);
        assert (at + [name]) + rest[1..] == p;
        WalkRealAncestors(root, at + [name], rest[1..], links);
      }
    }
  }

  /** Below real directories the kernel's answer does not depend on any link. */
  lemma LstatBelowRealDirectories(root: Node, p: Path)
    requires RealAncestors(root, p)
    ensures Lstat(root, p) == NoFollow(StatAt(root, p))
  {
    assert [] + p == p;
    WalkRealAncestors(root, [], p, MAX_LINKS);
  }

  lemma {:induction false} DestinationRealAncestors(root: Node, at: Path, rest: Path, links: nat)
    requires RealAncestors(root, at + rest) && Lookup(root, at + rest).Some?
    ensures Destination(root, at, rest, links) == Some(at + rest)
    decreases |rest|
  {
    LookupConcat(root, at, rest);
    if rest == [] {
      assert at + rest == at;
    } else {
      var p, name := at + rest, rest[0];
      assert p[..|at|] == at;
      assert RealDirectory(root, p[..|at|]);
      if |rest| == 1 {
        assert rest == [name];
      } else {
        assert p[..|at| + 1] == at + [name];
        assert RealDirectory(root, p[..|at| + 1]);
        LookupStep(root, at + [name]);
        assert (at + [name])[..|at|] == at;
        assert (at + [name]) + rest[1..] == p;
        DestinationRealAncestors(root, at + [name], rest[1..], links);
      }
    }
  }

  // ---- surgery ----

  /** Take the node at `p`, with everything below it, out of the tree. */
  function Detach(n: Node, p: Path): Node
    decreases |p|
  {
    if p == [] || !n.Directory? || p[0] !in n.entries then n
    else if |p| == 1 then n.(entries := n.entries - {p[0]})
    else n.(entries := n.entries[p[0] := Detach(n.entries[p[0]], p[1..])])
  }

  /** Put node `m` at `p`; nothing happens unless the parent is a real directory. */
  function Attach(n: Node, p: Path, m: Node): Node
    decreases |p|
  {
    if p == [] || !n.Directory? then n
    else if |p| == 1 then n.(entries := n.entries[p[0] := m])
    else if p[0] !in n.entries then n
    else n.(entries := n.entries[p[0] := Attach(n.entries[p[0]], p[1..], m)])
  }

  function Move(n: Node, from: Path, to: Path): Node {
    match Lookup(n, from)
    case None => n
    case Some(m) => Attach(Detach(n, from), to, m)
  }

  function DetachAll(n: Node, ps: seq<Path>): Node {
    if ps == [] then n else Detach(DetachAll(n, ps[..|ps| - 1]), ps[|ps| - 1])
  }

  /** A new directory holds nothing but itself. */
  lemma EmptyDirectory(id: Identity, p: Path)
    ensures StatAt(Directory(id, map[]), p) == if p == [] then Some(Stat(DirectoryKind, id)) else None
  {
  }

  predicate Overlap(p: Path, q: Path) {
    p <= q || q <= p
  }

  /** Detaching removes exactly the subtree: below `p` nothing is left, everywhere else nothing changes. */
  lemma {:induction false} DetachStat(n: Node, p: Path, q: Path)
    requires p != []
    ensures StatAt(Detach(n, p), q) == if p <= q then None else StatAt(n, q)
    decreases |p|
  {
    if q == [] || !n.Directory? || p[0] !in n.entries {
      if p <= q {
        assert Lookup(n, q).None?;
      }
    } else if |p| == 1 {
      assert p <= q <==> p[0] == q[0];
    } else if q[0] == p[0] {
      assert p <= q <==> p[1..] <= q[1..] by {
        if p[1..] <= q[1..] {
          assert p == [p[0]] + p[1..] && q == [q[0]] + q[1..];
        }
      }
      DetachStat(n.entries[p[0]], p[1..], q[1..]);
    }
  }

  /** Attaching at a free name changes nothing outside the new subtree. */
  lemma {:induction false} AttachStat(n: Node, p: Path, m: Node, q: Path)
    requires p != [] && RealDirectory(n, p[..|p| - 1])
    ensures StatAt(Attach(n, p, m), q) == if p <= q then StatAt(m, q[|p|..]) else StatAt(n, q)
    decreases |p|
  {
    if |p| == 1 {
      assert p[..0] == [];
      assert q != [] ==> (p <= q <==> p[0] == q[0]);
    } else {
      assert p[..|p| - 1][0] == p[0] && p[..|p| - 1][1..] == p[1..][..|p| - 2];
      if q != [] && q[0] == p[0] {
        assert p <= q <==> p[1..] <= q[1..] by {
          if p[1..] <= q[1..] {
            assert p == [p[0]] + p[1..] && q == [q[0]] + q[1..];
          }
        }
        assert p <= q ==> q[1..][|p[1..]|..] == q[|p|..];
        AttachStat(n.entries[p[0]], p[1..], m, q[1..]);
      }
    }
  }

  /** Attaching at a free name and detaching again restores the tree. */
  lemma {:induction false} DetachAttach(n: Node, p: Path, m: Node)
    requires p != [] && Lookup(n, p).None?
    ensures Detach(Attach(n, p, m), p) == n
    decreases |p|
  {
    if n.Directory? {
      if |p| == 1 {
        assert p[1..] == [];
        assert p[0] !in n.entries;
        assert n.entries[p[0] := m] - {p[0]} == n.entries;
      } else if p[0] in n.entries {
        DetachAttach(n.entries[p[0]], p[1..], m);
        var child := n.entries[p[0]];
        assert n.entries[p[0] := Attach(child, p[1..], m)][p[0] := child] == n.entries;
      }
    }
  }

  lemma {:induction false} AttachLookup(n: Node, p: Path, m: Node)
    requires p != [] && RealDirectory(n, p[..|p| - 1])
    ensures Lookup(Attach(n, p, m), p) == Some(m)
    decreases |p|
  {
    if |p| == 1 {
      assert p[..0] == [] && p[1..] == [];
    } else {
      assert p[..|p| - 1][0] == p[0] && p[..|p| - 1][1..] == p[1..][..|p| - 2];
      AttachLookup(n.entries[p[0]], p[1..], m);
    }
  }

  /** A lookup beside the detached path finds the very same subtree. */
  lemma {:induction false} DetachLookup(n: Node, p: Path, q: Path)
    requires p != [] && !Overlap(p, q)
    ensures Lookup(Detach(n, p), q) == Lookup(n, q)
    decreases |p|
  {
    assert q == [] ==> q <= p;
    assert |p| == 1 && q[0] == p[0] ==> p <= q;
    if n.Directory? && p[0] in n.entries && q[0] == p[0] {
      assert !Overlap(p[1..], q[1..]) by {
        assert p == [p[0]] + p[1..] && q == [q[0]] + q[1..];
      }
      DetachLookup(n.entries[p[0]], p[1..], q[1..]);
    }
  }

  lemma {:induction false} DetachAllStat(n: Node, ps: seq<Path>, q: Path)
    requires forall p :: p in ps ==> p != []
    ensures StatAt(DetachAll(n, ps), q) == if exists p :: p in ps && p <= q then None else StatAt(n, q)
  {
    if ps != [] {
      var init, last := ps[..|ps| - 1], ps[|ps| - 1];
      assert last in ps && forall p :: p in init ==> p in ps;
      assert forall p :: p in ps ==> p in init || p == last;
      DetachAllStat(n, init, q);
      DetachStat(DetachAll(n, init), last, q);
    }
  }
}
