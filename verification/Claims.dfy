/** Pathnames as component sequences, the way `std::path::Path` compares them. */
module Paths {
  /** One component of a pathname. An absolute pathname starts with `Root`. The `.` component
      does not occur: it is dropped when an absolute pathname is split into components. */
  datatype Component = Root | Parent | Name(name: string)

  type Path = seq<Component>

  predicate StartsWith(path: Path, prefix: Path) {
    prefix <= path
  }

  predicate IsAbsolute(path: Path) {
    path != [] && path[0] == Root
  }

  /** `PathBuf::join`: an absolute right-hand side replaces the left-hand side. */
  function Join(base: Path, tail: Path): Path {
    if IsAbsolute(tail) then tail else base + tail
  }

  /** Two prefixes of one sequence are comparable. */
  lemma PrefixesAreComparable(a: Path, b: Path, whole: Path)
    requires StartsWith(whole, a) && StartsWith(whole, b)
    ensures |a| <= |b| ==> StartsWith(b, a)
  {
    if |a| <= |b| {
      assert a == whole[..|a|] == b[..|a|];
    }
  }
}

/** Conflict and coverage between filesystem mutation claims. */
module Claims {
  import opened Wrappers
  import opened Paths

  datatype ClaimMode = Read | Write

  datatype ClaimScope = Exact | Subtree

  datatype ResolvedPathIdentity = ResolvedPathIdentity(
    original: Path,
    namespacePath: Path,
    namespaceDependencies: seq<Path>,
    resolvedIoPath: Path,
    canonicalExistingAncestor: Path,
    suffix: Path,
    dev: Option<nat>,
    ino: Option<nat>)

  datatype PathClaim = PathClaim(identity: ResolvedPathIdentity, mode: ClaimMode, scope: ClaimScope) {

    function Resolved(): Path { identity.resolvedIoPath }

    function Namespace(): Path { identity.namespacePath }

    predicate SameInode(other: PathClaim) {
      && identity.dev.Some? && identity.dev == other.identity.dev
      && identity.ino.Some? && identity.ino == other.identity.ino
    }

    /** The two claims meet at these two pathnames. */
    predicate Meets(other: PathClaim, left: Path, right: Path) {
      || left == right
      || (scope == Subtree && StartsWith(right, left))
      || (other.scope == Subtree && StartsWith(left, right))
    }

    predicate ReachesPath(path: Path, target: Path) {
      path == target || (scope == Subtree && StartsWith(target, path))
    }

    /** This claim may replace the namespace object `dependency`. */
    predicate WriteTouches(dependency: Path) {
      mode == Write && (ReachesPath(Namespace(), dependency) || ReachesPath(Resolved(), dependency))
    }

    predicate TouchesSomeDependency(other: PathClaim) {
      exists i :: 0 <= i < |other.identity.namespaceDependencies|
        && WriteTouches(other.identity.namespaceDependencies[i])
    }

    predicate ConflictsWith(other: PathClaim) {
      if mode == Read && other.mode == Read then false
      else if SameInode(other) then true
      else if Meets(other, Resolved(), other.Resolved()) then true
      else if && Namespace() != [] && other.Namespace() != []
              && Meets(other, Namespace(), other.Namespace()) then true
      else other.TouchesSomeDependency(this) || TouchesSomeDependency(other)
    }

    predicate CoversDependency(dependency: Path) {
      || dependency in identity.namespaceDependencies
      || (Namespace() != [] && ReachesPath(Namespace(), dependency))
      || ReachesPath(Resolved(), dependency)
    }

    predicate Covers(other: PathClaim) {
      if mode == Read && other.mode == Write then false
      else if scope == Exact && other.scope == Subtree then false
      else if exists i :: 0 <= i < |other.identity.namespaceDependencies|
                && !CoversDependency(other.identity.namespaceDependencies[i]) then false
      else if ReachesPath(Resolved(), other.Resolved()) then true
      else Namespace() != [] && other.Namespace() != [] && ReachesPath(Namespace(), other.Namespace())
    }

    predicate HasInode() { identity.dev.Some? && identity.ino.Some? }

    /** No alias was crossed: the pathname as written is the pathname reached. */
    predicate AliasFree() { Namespace() == Resolved() }

    /** Both pathnames are present. */
    predicate Named() { Namespace() != [] && Resolved() != [] }

    /** What every claim built by path resolution satisfies: all its pathnames are absolute. */
    predicate Placed() {
      && IsAbsolute(Namespace()) && IsAbsolute(Resolved())
      && forall i :: 0 <= i < |identity.namespaceDependencies| ==> IsAbsolute(identity.namespaceDependencies[i])
    }

    /** The claim is on everything there is. */
    predicate ClaimsAll() {
      scope == Subtree && (Namespace() == [Root] || Resolved() == [Root])
    }
  }

  lemma ConflictIsSymmetric(a: PathClaim, b: PathClaim)
    ensures a.ConflictsWith(b) <==> b.ConflictsWith(a)
  {}

  /** `a` blocks everything `b` blocks. */
  ghost predicate BlocksAllThat(a: PathClaim, b: PathClaim) {
    forall c: PathClaim :: c.Placed() && c.ConflictsWith(b) ==> c.ConflictsWith(a)
  }

  /** A conflict at `path` is still seen by `a`: either its own pathname reaches there, or a
      read-only exact claim is protected because `a` depends on that very entry. */
  predicate PathStillGuarded(a: PathClaim, b: PathClaim, outer: Path, inner: Path) {
    || a.ReachesPath(outer, inner)
    || (b.mode == Read && b.scope == Exact && inner in a.identity.namespaceDependencies)
  }

  predicate DependencyStillGuarded(a: PathClaim, d: Path) {
    || d in a.identity.namespaceDependencies
    || (a.ReachesPath(a.Resolved(), d) && a.ReachesPath(a.Namespace(), d))
  }

  /** The checkable condition under which coverage carries over to conflicts. */
  predicate CoverageIsSafe(a: PathClaim, b: PathClaim) {
    && (b.HasInode() ==> a.SameInode(b))
    && PathStillGuarded(a, b, a.Resolved(), b.Resolved())
    && PathStillGuarded(a, b, a.Namespace(), b.Namespace())
    && forall i :: 0 <= i < |b.identity.namespaceDependencies| ==>
         DependencyStillGuarded(a, b.identity.namespaceDependencies[i])
  }

  /** If `c` meets `b` at `inner` and `a` reaches `inner`, then `c` meets `a` at `outer`. */
  lemma MeetingCarriesOver(a: PathClaim, b: PathClaim, c: PathClaim, outer: Path, inner: Path, at: Path)
    requires a.scope == Exact ==> b.scope == Exact
    requires a.ReachesPath(outer, inner)
    requires c.Meets(b, at, inner)
    ensures c.Meets(a, at, outer)
  {
    if c.scope == Subtree && StartsWith(inner, at) && StartsWith(inner, outer) {
      PrefixesAreComparable(at, outer, inner);
      PrefixesAreComparable(outer, at, inner);
    }
  }

  /** A writer that meets the guarded path `inner` also conflicts with `a`. */
  lemma GuardedPathConflicts(a: PathClaim, b: PathClaim, c: PathClaim, outer: Path, inner: Path, at: Path)
    requires a.Covers(b) && a.Named() && c.Namespace() != []
    requires !(c.mode == Read && b.mode == Read)
    requires PathStillGuarded(a, b, outer, inner)
    requires (outer == a.Resolved() && at == c.Resolved()) || (outer == a.Namespace() && at == c.Namespace())
    requires c.Meets(b, at, inner)
    ensures c.ConflictsWith(a)
  {
    if a.ReachesPath(outer, inner) {
      MeetingCarriesOver(a, b, c, outer, inner, at);
    } else {
      var i :| 0 <= i < |a.identity.namespaceDependencies| && a.identity.namespaceDependencies[i] == inner;
      assert c.WriteTouches(a.identity.namespaceDependencies[i]);
    }
  }

  /** A writer touching a guarded dependency of `b` also conflicts with `a`. */
  lemma GuardedDependencyConflicts(a: PathClaim, c: PathClaim, d: Path)
    requires a.Named() && c.Namespace() != []
    requires DependencyStillGuarded(a, d)
    requires c.WriteTouches(d)
    ensures c.ConflictsWith(a)
  {
    if d in a.identity.namespaceDependencies {
      var i :| 0 <= i < |a.identity.namespaceDependencies| && a.identity.namespaceDependencies[i] == d;
      assert c.WriteTouches(a.identity.namespaceDependencies[i]);
    } else {
      var viaNamespace := c.ReachesPath(c.Namespace(), d);
      var at := if viaNamespace then c.Namespace() else c.Resolved();
      var outer := if viaNamespace then a.Namespace() else a.Resolved();
      if StartsWith(d, at) && StartsWith(d, outer) {
        PrefixesAreComparable(at, outer, d);
        PrefixesAreComparable(outer, at, d);
      }
      assert c.Meets(a, at, outer);
    }
  }

  /** A writer `b` touching `c`'s dependency is matched by `a`, which reaches wherever `b` does. */
  lemma CoveringWriterTouches(a: PathClaim, b: PathClaim, d: Path)
    requires a.Covers(b) && b.WriteTouches(d)
    requires a.ReachesPath(a.Resolved(), b.Resolved()) && a.ReachesPath(a.Namespace(), b.Namespace())
    ensures a.WriteTouches(d)
  {}

  lemma SafeCoverageBlocks(a: PathClaim, b: PathClaim, c: PathClaim)
    requires a.Covers(b) && a.Named() && b.Named() && CoverageIsSafe(a, b)
    requires c.Namespace() != [] && c.ConflictsWith(b)
    ensures c.ConflictsWith(a)
  {
    if c.SameInode(b) {
      assert c.SameInode(a);
    } else if c.Meets(b, c.Resolved(), b.Resolved()) {
      GuardedPathConflicts(a, b, c, a.Resolved(), b.Resolved(), c.Resolved());
    } else if c.Meets(b, c.Namespace(), b.Namespace()) {
      GuardedPathConflicts(a, b, c, a.Namespace(), b.Namespace(), c.Namespace());
    } else if c.TouchesSomeDependency(b) {
      var i :| 0 <= i < |b.identity.namespaceDependencies| && c.WriteTouches(b.identity.namespaceDependencies[i]);
      GuardedDependencyConflicts(a, c, b.identity.namespaceDependencies[i]);
    } else {
      var i :| 0 <= i < |c.identity.namespaceDependencies| && b.WriteTouches(c.identity.namespaceDependencies[i]);
      CoveringWriterTouches(a, b, c.identity.namespaceDependencies[i]);
      assert a.TouchesSomeDependency(c);
    }
  }

  // ---- Necessity: each missing conjunct has a witness claim that slips past `a`. ----

  function LongestName(path: Path): nat {
    if path == [] then 0
    else
      var rest := LongestName(path[1..]);
      if path[0].Name? && |path[0].name| > rest then |path[0].name| else rest
  }

  function LongestNameOf(paths: seq<Path>): nat {
    if paths == [] then 0
    else
      var here := LongestName(paths[0]);
      var rest := LongestNameOf(paths[1..]);
      if here > rest then here else rest
  }

  function Letters(n: nat): string {
    seq(n, _ => 'x')
  }

  lemma LettersDiffer(c: Component, n: nat)
    requires c.Name? ==> |c.name| < n
    ensures c != Name(Letters(n))
  {
    assert |Letters(n)| == n;
  }

  lemma {:induction false} LongNameIsAbsent(path: Path, n: nat, i: nat)
    requires n > LongestName(path) && i < |path|
    ensures path[i] != Name(Letters(n))
  {
    if i > 0 {
      LongNameIsAbsent(path[1..], n, i - 1);
      assert path[1..][i - 1] == path[i];
    } else {
      LettersDiffer(path[0], n);
    }
  }

  lemma {:induction false} LongNameIsAbsentFromAll(paths: seq<Path>, n: nat, k: nat, i: nat)
    requires n > LongestNameOf(paths) && k < |paths| && i < |paths[k]|
    ensures paths[k][i] != Name(Letters(n))
  {
    if k == 0 {
      LongNameIsAbsent(paths[0], n, i);
    } else {
      LongNameIsAbsentFromAll(paths[1..], n, k - 1, i);
      assert paths[1..][k - 1] == paths[k];
    }
  }

  /** A component that occurs in none of `a`'s pathnames nor in `extra`. */
  ghost function FreshComponent(a: PathClaim, extra: Path): (f: Component)
    ensures f.Name?
    ensures f !in a.Resolved() && f !in a.Namespace() && f !in extra
    ensures forall k :: 0 <= k < |a.identity.namespaceDependencies| ==> f !in a.identity.namespaceDependencies[k]
  {
    var all := [a.Resolved(), a.Namespace(), extra] + a.identity.namespaceDependencies;
    var n := LongestNameOf(all) + 1;
    var f := Name(Letters(n));
    assert forall k, i :: 0 <= k < |all| && 0 <= i < |all[k]| ==> all[k][i] != f by {
      forall k, i | 0 <= k < |all| && 0 <= i < |all[k]| ensures all[k][i] != f {
        LongNameIsAbsentFromAll(all, n, k, i);
      }
    }
    assert f !in all[0] && f !in all[1] && f !in all[2];
    assert forall k :: 0 <= k < |a.identity.namespaceDependencies| ==>
      a.identity.namespaceDependencies[k] == all[k + 3];
    f
  }

  /** The pathname of one entry of the root. */
  function Entry(f: Component): Path {
    [Root, f]
  }

  /** An exact claim with no dependencies at the given pathnames. */
  function Probe(resolved: Path, namespace: Path, mode: ClaimMode): PathClaim {
    PathClaim(ResolvedPathIdentity([], namespace, [], resolved, [], [], None, None), mode, Exact)
  }

  /** An absolute path that does not mention `f` reaches the new entry only from the root itself. */
  lemma NewEntryIsMissed(a: PathClaim, f: Component, path: Path)
    requires IsAbsolute(path) && f !in path && (a.scope == Subtree ==> path != [Root])
    ensures !a.ReachesPath(path, Entry(f)) && !StartsWith(path, Entry(f))
  {
    if |path| >= 2 {
      assert path[1] in path;
    } else {
      assert path == [Root];
    }
  }

  lemma FreshProbeMisses(a: PathClaim, f: Component, path: Path, mode: ClaimMode, viaNamespace: bool)
    requires a.Placed() && !a.ClaimsAll() && f.Name?
    requires f !in a.Resolved() && f !in a.Namespace()
    requires forall k :: 0 <= k < |a.identity.namespaceDependencies| ==> f !in a.identity.namespaceDependencies[k]
    requires !a.ReachesPath(if viaNamespace then a.Namespace() else a.Resolved(), path)
    requires mode == Read || path !in a.identity.namespaceDependencies
    ensures var c := if viaNamespace then Probe(Entry(f), path, mode) else Probe(path, Entry(f), mode);
            !c.ConflictsWith(a)
  {
    var c := if viaNamespace then Probe(Entry(f), path, mode) else Probe(path, Entry(f), mode);
    assert f in Entry(f);
    NewEntryIsMissed(a, f, a.Resolved());
    NewEntryIsMissed(a, f, a.Namespace());
    forall i | 0 <= i < |a.identity.namespaceDependencies|
      ensures !c.WriteTouches(a.identity.namespaceDependencies[i])
    {
      assert f !in a.identity.namespaceDependencies[i];
    }
  }

  /** Below an entry, only what reaches the entry reaches a name it does not mention. */
  lemma FreshChildIsReachedFromAbove(outer: Path, inner: Path, f: Component)
    requires f !in outer
    ensures StartsWith(inner + [f], outer) ==> StartsWith(inner, outer)
  {
    assert (inner + [f])[|inner|] == f;
    assert |outer| <= |inner| ==> (inner + [f])[..|outer|] == inner[..|outer|];
  }

  /** A path that `b` guards and `a` does not: there is a claim meeting `b` there and missing `a`. */
  lemma UnguardedPathSlips(a: PathClaim, b: PathClaim, viaNamespace: bool) returns (c: PathClaim)
    requires a.Covers(b) && a.Placed() && b.Placed() && !a.ClaimsAll()
    requires var outer := if viaNamespace then a.Namespace() else a.Resolved();
             var inner := if viaNamespace then b.Namespace() else b.Resolved();
             !PathStillGuarded(a, b, outer, inner)
    ensures c.Placed() && c.ConflictsWith(b) && !c.ConflictsWith(a)
  {
    var outer := if viaNamespace then a.Namespace() else a.Resolved();
    var inner := if viaNamespace then b.Namespace() else b.Resolved();
    var f := FreshComponent(a, outer);
    var mode := if b.mode == Write then Read else Write;
    var path := inner;
    if b.mode == Read && inner in a.identity.namespaceDependencies {
      // `b` guards a whole subtree here: look below the entry itself.
      path := inner + [f];
      forall k | 0 <= k < |a.identity.namespaceDependencies|
        ensures path != a.identity.namespaceDependencies[k]
      {
        assert path[|inner|] == f;
      }
      FreshChildIsReachedFromAbove(outer, inner, f);
      assert path[|inner|] == f;
    }
    FreshProbeMisses(a, f, path, mode, viaNamespace);
    c := if viaNamespace then Probe(Entry(f), path, mode) else Probe(path, Entry(f), mode);
    if viaNamespace {
      assert c.Meets(b, c.Namespace(), b.Namespace());
    } else {
      assert c.Meets(b, c.Resolved(), b.Resolved());
    }
  }

  lemma UnguardedDependencySlips(a: PathClaim, b: PathClaim, i: nat) returns (c: PathClaim)
    requires a.Placed() && b.Placed() && !a.ClaimsAll()
    requires i < |b.identity.namespaceDependencies|
    requires !DependencyStillGuarded(a, b.identity.namespaceDependencies[i])
    ensures c.Placed() && c.ConflictsWith(b) && !c.ConflictsWith(a)
  {
    var d := b.identity.namespaceDependencies[i];
    var f := FreshComponent(a, []);
    var viaNamespace := a.ReachesPath(a.Resolved(), d);
    FreshProbeMisses(a, f, d, Write, viaNamespace);
    c := if viaNamespace then Probe(Entry(f), d, Write) else Probe(d, Entry(f), Write);
    assert c.WriteTouches(b.identity.namespaceDependencies[i]);
    assert c.TouchesSomeDependency(b);
  }

  lemma UnsharedInodeSlips(a: PathClaim, b: PathClaim) returns (c: PathClaim)
    requires a.Placed() && !a.ClaimsAll() && b.HasInode() && !a.SameInode(b)
    ensures c.Placed() && c.ConflictsWith(b) && !c.ConflictsWith(a)
  {
    var f := FreshComponent(a, []);
    NewEntryIsMissed(a, f, a.Resolved());
    forall k | 0 <= k < |a.identity.namespaceDependencies| ensures a.identity.namespaceDependencies[k] != Entry(f) {
      assert f !in a.identity.namespaceDependencies[k] && f in Entry(f);
    }
    FreshProbeMisses(a, f, Entry(f), Write, false);
    var plain := Probe(Entry(f), Entry(f), Write);
    c := plain.(identity := plain.identity.(dev := b.identity.dev, ino := b.identity.ino));
    assert forall d :: c.WriteTouches(d) == plain.WriteTouches(d);
    assert c.TouchesSomeDependency(a) == plain.TouchesSomeDependency(a);
    assert c.SameInode(b);
  }

  /** Nothing gets past a claim on everything. */
  lemma ClaimOnAllBlocks(a: PathClaim, b: PathClaim, c: PathClaim)
    requires a.Covers(b) && a.ClaimsAll() && c.Placed() && c.ConflictsWith(b)
    ensures c.ConflictsWith(a)
  {
    assert StartsWith(c.Namespace(), [Root]) && StartsWith(c.Resolved(), [Root]);
  }

  /** Coverage carries over to conflicts exactly under the checkable condition. */
  lemma CoverageIsConflictMonotoneExactly(a: PathClaim, b: PathClaim)
    requires a.Covers(b) && a.Placed() && b.Placed()
    ensures BlocksAllThat(a, b) <==> a.ClaimsAll() || CoverageIsSafe(a, b)
  {
    if a.ClaimsAll() {
      forall c: PathClaim | c.Placed() && c.ConflictsWith(b) ensures c.ConflictsWith(a) {
        ClaimOnAllBlocks(a, b, c);
      }
    } else if CoverageIsSafe(a, b) {
      forall c: PathClaim | c.Placed() && c.ConflictsWith(b) ensures c.ConflictsWith(a) {
        SafeCoverageBlocks(a, b, c);
      }
    } else if b.HasInode() && !a.SameInode(b) {
      var c := UnsharedInodeSlips(a, b);
    } else if !PathStillGuarded(a, b, a.Resolved(), b.Resolved()) {
      var c := UnguardedPathSlips(a, b, false);
    } else if !PathStillGuarded(a, b, a.Namespace(), b.Namespace()) {
      var c := UnguardedPathSlips(a, b, true);
    } else {
      var i :| 0 <= i < |b.identity.namespaceDependencies|
        && !DependencyStillGuarded(a, b.identity.namespaceDependencies[i]);
      var c := UnguardedDependencySlips(a, b, i);
    }
  }

  /** Between claims that cross no alias and carry no inode, coverage always carries over. */
  lemma AliasFreeCoverageIsConflictMonotone(a: PathClaim, b: PathClaim, c: PathClaim)
    requires a.Covers(b) && a.AliasFree() && b.AliasFree() && a.Namespace() != [] && !b.HasInode()
    requires c.Namespace() != [] && c.ConflictsWith(b)
    ensures c.ConflictsWith(a)
  {
    assert b.Named();
    SafeCoverageBlocks(a, b, c);
  }
}
