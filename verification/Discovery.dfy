/** Discovery of every namespace link whose binding a claimed pathname depends on. */
module Discovery {
  import opened Paths
  import opened FileTree

  const MAX_DEPTH: nat := 40

  /** The link entry, if any, that component `j` of `path` names: its parent is canonical and the
      final entry is not followed. */
  predicate NamesLink(t: Tree, path: Path, j: nat)
    requires j < |path|
  {
    && path[j].Name?
    && Lookup(t, path[..j]).Found?
    && IsDir(t, Lookup(t, path[..j]).loc)
    && IsLink(t, Lookup(t, path[..j]).loc + [path[j].name])
  }

  function LinkAt(t: Tree, path: Path, j: nat): Loc
    requires j < |path| && NamesLink(t, path, j)
  {
    Lookup(t, path[..j]).loc + [path[j].name]
  }

  function LinksAt(t: Tree, path: Path, j: nat): set<Loc>
    requires j < |path|
  {
    if NamesLink(t, path, j) then {LinkAt(t, path, j)} else {}
  }

  /** The links named by the first `n` components of `path` as it is spelled. */
  function DirectLinks(t: Tree, path: Path, n: nat): set<Loc>
    requires n <= |path|
  {
    if n == 0 then {} else DirectLinks(t, path, n - 1) + LinksAt(t, path, n - 1)
  }

  /** Past the first component that is not found there is nothing left to name a link. */
  lemma NothingPastMissing(t: Tree, path: Path, j: nat, n: nat)
    requires j <= n <= |path| && !Lookup(t, path[..j]).Found?
    ensures DirectLinks(t, path, n) == DirectLinks(t, path, j)
  {
    if j < n {
      NothingPastMissing(t, path, j, n - 1);
      assert path[..n - 1][..j] == path[..j];
      PrefixOutcome(t, path[..n - 1], j, LINK_LIMIT);
    }
  }

  function Links(t: Tree): set<Loc> {
    set l | l in t && t[l].Link?
  }

  /** Component `j` of `path` can be inspected: what precedes it is missing or leads to a directory. */
  predicate Passable(t: Tree, path: Path, j: nat)
    requires j < |path|
  {
    path[j].Name? ==>
      !Lookup(t, path[..j]).Failed? && (Lookup(t, path[..j]).Found? ==> IsDir(t, Lookup(t, path[..j]).loc))
  }

  predicate AllPassable(t: Tree, path: Path) {
    forall j :: 0 <= j < |path| ==> Passable(t, path, j)
  }

  /** The links that the target of this link names are all in `s`, and it can be inspected throughout. */
  ghost predicate Explored(t: Tree, link: Loc, s: set<Loc>) {
    IsLink(t, link) ==>
      && DirectLinks(t, TargetPath(t, link), |TargetPath(t, link)|) <= s
      && AllPassable(t, TargetPath(t, link))
  }

  /** Entering a link: what the walk follows is the link and then its target pathname. */
  lemma StepThroughLink(t: Tree, dir: Loc, n: string, left: nat)
    requires ValidTree(t) && IsDir(t, dir) && IsLink(t, dir + [n])
    requires !Walk(t, dir, [Name(n)], left).Failed?
    ensures left > 0 && !Walk(t, [], TargetPath(t, dir + [n]), left - 1).Failed?
    ensures Followed(t, dir, [Name(n)], left) ==
            {dir + [n]} + Followed(t, [], TargetPath(t, dir + [n]), left - 1)
  {
    assert [Name(n)][1..] == [];
    assert left > 0;
    assert t[dir + [n]].target + [Name(n)][1..] == t[dir + [n]].target;
    LinkWalkIsTargetWalk(t, dir, n, left - 1);
  }

  lemma StepElsewhere(t: Tree, dir: Loc, c: Component, left: nat)
    requires !(c.Name? && IsDir(t, dir) && IsLink(t, dir + [c.name]))
    ensures Followed(t, dir, [c], left) == {}
  {
    assert [c][1..] == [];
  }

  /** Every link added to `s` since `base` has had its own target explored. */
  ghost predicate Closed(t: Tree, base: set<Loc>, s: set<Loc>) {
    forall l {:trigger Explored(t, l, s)} :: l in s && l !in base ==> Explored(t, l, s)
  }

  lemma ClosedTogether(t: Tree, base: set<Loc>, middle: set<Loc>, s: set<Loc>)
    requires middle <= s && Closed(t, base, middle) && Closed(t, middle, s)
    ensures Closed(t, base, s)
  {
    forall l | l in s && l !in base ensures Explored(t, l, s) {
      assert l in middle ==> Explored(t, l, middle);
    }
  }

  lemma SameObjectWithLessFuel(t: Tree, path: Path, fuel: nat)
    requires ValidTree(t) && fuel <= LINK_LIMIT && !Walk(t, [], path, fuel).Failed?
    ensures Walk(t, [], path, fuel).Found? <==> Lookup(t, path).Found?
    ensures Walk(t, [], path, fuel).Found? ==>
              Walk(t, [], path, fuel).loc == Lookup(t, path).loc && Walk(t, [], path, fuel).fuel <= fuel
  {
    WalkIsFuelMonotone(t, [], path, fuel, LINK_LIMIT - fuel);
    WalkFindsObjects(t, [], path, fuel);
  }

  /** What following one component adds to the links followed so far. */
  lemma {:induction false} ComponentFollows(t: Tree, path: Path, j: nat, fuel: nat)
    requires ValidTree(t) && j < |path| && fuel <= LINK_LIMIT
    requires !Walk(t, [], path[..j + 1], fuel).Failed?
    ensures !Walk(t, [], path[..j], fuel).Failed?
    ensures NamesLink(t, path, j) ==>
              && Walk(t, [], path[..j], fuel).Found?
              && Walk(t, [], path[..j], fuel).fuel <= fuel
    ensures NamesLink(t, path, j) ==>
              var left := Walk(t, [], path[..j], fuel).fuel;
              var target := TargetPath(t, LinkAt(t, path, j));
              && 0 < left
              && !Walk(t, [], target, left - 1).Failed?
              && Followed(t, [], path[..j + 1], fuel) ==
                 Followed(t, [], path[..j], fuel) + ({LinkAt(t, path, j)} + Followed(t, [], target, left - 1))
    ensures !NamesLink(t, path, j) ==>
              Followed(t, [], path[..j + 1], fuel) == Followed(t, [], path[..j], fuel)
  {
    WalkOneMore(t, path, j, fuel);
    SameObjectWithLessFuel(t, path[..j], fuel);
    if Walk(t, [], path[..j], fuel).Found? {
      var Found(dir, left) := Walk(t, [], path[..j], fuel);
      if NamesLink(t, path, j) {
        StepThroughLink(t, dir, path[j].name, left);
      } else {
        StepElsewhere(t, dir, path[j], left);
      }
    }
  }

  /** The link that component `i` leads through, with the fuel left for its target. */
  lemma TargetStaysWithin(t: Tree, path: Path, i: nat, fuel: nat, s: set<Loc>)
    requires ValidTree(t) && i < |path| && fuel <= LINK_LIMIT
    requires !Walk(t, [], path[..i + 1], fuel).Failed?
    requires NamesLink(t, path, i) && LinkAt(t, path, i) in s && Closed(t, {}, s)
    ensures var target := TargetPath(t, LinkAt(t, path, i));
            && Walk(t, [], path[..i], fuel).Found?
            && 0 < Walk(t, [], path[..i], fuel).fuel <= fuel
            && Followed(t, [], target, Walk(t, [], path[..i], fuel).fuel - 1) <= s
    decreases fuel, i + 1, 0
  {
    ComponentFollows(t, path, i, fuel);
    var link := LinkAt(t, path, i);
    var target := TargetPath(t, link);
    assert Explored(t, link, s);
    assert target[..|target|] == target;
    LookupStaysWithin(t, target, |target|, Walk(t, [], path[..i], fuel).fuel - 1, s);
  }

  /** Completeness, despite the pruning of links already seen: if the links a path names are in `s`
      and every link in `s` has its own target's links in `s`, then the whole lookup stays in `s`. */
  lemma {:induction false} LookupStaysWithin(t: Tree, path: Path, j: nat, fuel: nat, s: set<Loc>)
    requires ValidTree(t) && j <= |path| && fuel <= LINK_LIMIT
    requires !Walk(t, [], path[..j], fuel).Failed?
    requires DirectLinks(t, path, j) <= s
    requires Closed(t, {}, s)
    ensures Followed(t, [], path[..j], fuel) <= s
    decreases fuel, j, 1
  {
    if j == 0 {
      assert path[..0] == [];
    } else {
      ComponentFollows(t, path, j - 1, fuel);
      LookupStaysWithin(t, path, j - 1, fuel, s);
      if NamesLink(t, path, j - 1) {
        TargetStaysWithin(t, path, j - 1, fuel, s);
      }
    }
  }

  /** The part of `path` that discovery inspects: all of it, or what precedes its final name. */
  function Inspected(path: Path, includeFinal: bool): Path {
    if includeFinal then path else path[..FinalName(path)]
  }

  /** The position of the last named component, or the length if there is none. */
  function FinalName(path: Path): (n: nat)
    ensures n <= |path|
    ensures n < |path| ==> path[n].Name?
    ensures forall i :: n < i < |path| ==> !path[i].Name?
    ensures n == |path| ==> forall i :: 0 <= i < |path| ==> !path[i].Name?
  {
    if path == [] then 0
    else if path[|path| - 1].Name? then |path| - 1
    else
      var n := FinalName(path[..|path| - 1]);
      if n == |path| - 1 then |path| else n
  }

  datatype Lstat = Entry(key: Loc) | NotFound | InspectFailed

  /** `symlink_metadata`: the parent is followed, the final entry is not. */
  function SymlinkMetadata(t: Tree, parent: Path, name: string): Lstat {
    match Lookup(t, parent)
    case Missing => NotFound
    case Failed => InspectFailed
    case Found(dir, _) =>
      if !IsDir(t, dir) then InspectFailed
      else if dir + [name] !in t then NotFound
      else Entry(dir + [name])
  }

  datatype Progress = Continue | Break | Fail

  predicate NoDuplicates(s: seq<Loc>) {
    forall i, j :: 0 <= i < j < |s| ==> s[i] != s[j]
  }

  /** The accumulators that one traversal shares with its recursive visits. */
  class NamespaceDiscovery {
    var dependencies: seq<Loc>
    var seen: set<Loc>

    ghost predicate Valid(t: Tree)
      reads this
    {
      && NoDuplicates(dependencies)
      && (forall l :: l in seen <==> l in dependencies)
      && seen <= Links(t)
    }

    constructor ()
      ensures dependencies == [] && seen == {}
    {
      dependencies, seen := [], {};
    }

    method Insert(t: Tree, dependency: Loc) returns (firstVisit: bool)
      requires Valid(t) && IsLink(t, dependency)
      modifies this
      ensures Valid(t)
      ensures firstVisit <==> dependency !in old(seen)
      ensures seen == old(seen) + {dependency}
      ensures dependencies == if firstVisit then old(dependencies) + [dependency] else old(dependencies)
    {
      firstVisit := dependency !in seen;
      seen := seen + {dependency};
      if firstVisit {
        dependencies := dependencies + [dependency];
      }
    }

    /** Record one link and, on its first visit, everything its target leads to. */
    method Visit(t: Tree, key: Loc, depth: nat) returns (ok: bool)
      requires ValidTree(t) && Valid(t) && IsLink(t, key)
      modifies this
      decreases Links(t) - seen, 0
      ensures Valid(t) && old(dependencies) <= dependencies && old(seen) <= seen && key in seen
      ensures ok ==> Closed(t, old(seen), seen)
      ensures depth < MAX_DEPTH && !Walk(t, [], TargetPath(t, key), MAX_DEPTH - depth - 1).Failed? ==>
                && ok
                && seen - old(seen) <= {key} + Followed(t, [], TargetPath(t, key), MAX_DEPTH - depth - 1)
    {
      var firstVisit := Insert(t, key);
      ok := true;
      if firstVisit {
        ghost var withKey := seen;
        ok := Discover(t, TargetPath(t, key), true, depth + 1);
        if ok {
          assert Explored(t, key, seen);
          forall l | l in seen && l !in old(seen) ensures Explored(t, l, seen) {
            assert l == key || l !in withKey;
          }
        }
      }
    }

    /** Inspect one named component below the prefix already walked. */
    method Inspect(t: Tree, p: Path, index: nat, depth: nat) returns (progress: Progress)
      requires ValidTree(t) && Valid(t) && depth <= MAX_DEPTH && index < |p| && p[index].Name?
      modifies this
      decreases Links(t) - seen, 1
      ensures Valid(t) && old(dependencies) <= dependencies && old(seen) <= seen
      ensures progress == Break ==> DirectLinks(t, p, |p|) == DirectLinks(t, p, index)
      ensures progress == Break ==> forall j :: index <= j < |p| ==> Passable(t, p, j)
      ensures progress == Continue ==> Passable(t, p, index)
      ensures progress == Continue ==> LinksAt(t, p, index) <= seen
      ensures progress != Fail ==> Closed(t, old(seen), seen)
      ensures !Walk(t, [], p, MAX_DEPTH - depth).Failed? ==>
                progress != Fail && seen - old(seen) <= Followed(t, [], p, MAX_DEPTH - depth)
    {
      var metadata := SymlinkMetadata(t, p[..index], p[index].name);
      if metadata.NotFound? {
        NothingPastBreak(t, p, index);
        NothingFailsPastBreak(t, p, index);
        return Break;
      }
      if metadata.InspectFailed? {
        InspectionFailureIsLookupFailure(t, p, index, MAX_DEPTH - depth);
        return Fail;
      }
      progress := Continue;
      if t[metadata.key].Link? {
        assert NamesLink(t, p, index) && LinkAt(t, p, index) == metadata.key;
        if !Walk(t, [], p, MAX_DEPTH - depth).Failed? {
          VisitedLinkIsFollowed(t, p, index, MAX_DEPTH - depth);
        }
        var visited := Visit(t, metadata.key, depth);
        if !visited {
          progress := Fail;
        }
      }
    }

    method Discover(t: Tree, path: Path, includeFinal: bool, depth: nat) returns (ok: bool)
      requires ValidTree(t) && Valid(t) && IsAbsolute(path)
      modifies this
      decreases Links(t) - seen, 2
      ensures Valid(t) && old(dependencies) <= dependencies && old(seen) <= seen
      ensures ok ==> var p := Inspected(path, includeFinal); DirectLinks(t, p, |p|) <= seen && AllPassable(t, p)
      ensures ok ==> Closed(t, old(seen), seen)
      ensures depth <= MAX_DEPTH && !Walk(t, [], Inspected(path, includeFinal), MAX_DEPTH - depth).Failed? ==>
                && ok
                && seen - old(seen) <= Followed(t, [], Inspected(path, includeFinal), MAX_DEPTH - depth)
    {
      if depth > MAX_DEPTH {
        return false;
      }
      var p := Inspected(path, includeFinal);
      ghost var walks := !Walk(t, [], p, MAX_DEPTH - depth).Failed?;
      ghost var follows := Followed(t, [], p, MAX_DEPTH - depth);
      for index := 0 to |p|
        invariant Valid(t) && old(dependencies) <= dependencies && old(seen) <= seen
        invariant DirectLinks(t, p, index) <= seen
        invariant forall j :: 0 <= j < index ==> Passable(t, p, j)
        invariant Closed(t, old(seen), seen)
        invariant walks ==> seen - old(seen) <= follows
      {
        if p[index].Name? {
          ghost var soFar := seen;
          var progress := Inspect(t, p, index, depth);
          if progress == Fail {
            return false;
          }
          ClosedTogether(t, old(seen), soFar, seen);
          if progress == Break {
            break;
          }
        }
      }
      ok := true;
    }
  }

  /** With enough fuel for the bounded walk, the full lookup of a prefix gives the same answer. */
  lemma LookupAgrees(t: Tree, p: Path, j: nat, fuel: nat)
    requires j <= |p| && fuel <= LINK_LIMIT
    ensures !Walk(t, [], p, fuel).Failed? ==>
              && !Walk(t, [], p[..j], fuel).Failed?
              && !Lookup(t, p[..j]).Failed?
              && (Lookup(t, p[..j]).Found? <==> Walk(t, [], p[..j], fuel).Found?)
  {
    PrefixOutcome(t, p, j, fuel);
    if !Walk(t, [], p[..j], fuel).Failed? {
      WalkIsFuelMonotone(t, [], p[..j], fuel, LINK_LIMIT - fuel);
    }
  }

  lemma NothingPastBreak(t: Tree, p: Path, j: nat)
    requires j < |p| && p[j].Name? && SymlinkMetadata(t, p[..j], p[j].name).NotFound?
    ensures DirectLinks(t, p, |p|) == DirectLinks(t, p, j)
  {
    if Lookup(t, p[..j]).Found? {
      WalkOneMore(t, p, j, LINK_LIMIT);
      NothingPastMissing(t, p, j + 1, |p|);
    } else {
      NothingPastMissing(t, p, j, |p|);
    }
  }

  lemma NothingFailsPastBreak(t: Tree, p: Path, j: nat)
    requires j < |p| && p[j].Name? && SymlinkMetadata(t, p[..j], p[j].name).NotFound?
    ensures forall k :: j <= k < |p| ==> Passable(t, p, k)
  {
    WalkOneMore(t, p, j, LINK_LIMIT);
    forall k | j < k < |p| ensures Lookup(t, p[..k]).Missing? {
      PrefixOutcome(t, p[..k], j + 1, LINK_LIMIT);
      assert p[..k][..j + 1] == p[..j + 1];
    }
  }

  lemma InspectionFailureIsLookupFailure(t: Tree, p: Path, j: nat, fuel: nat)
    requires j < |p| && p[j].Name? && fuel <= LINK_LIMIT
    requires SymlinkMetadata(t, p[..j], p[j].name).InspectFailed?
    ensures Walk(t, [], p, fuel).Failed?
  {
    if !Walk(t, [], p, fuel).Failed? {
      LookupAgrees(t, p, j, fuel);
      WalkIsFuelMonotone(t, [], p[..j], fuel, LINK_LIMIT - fuel);
      WalkOneMore(t, p, j, fuel);
      PrefixOutcome(t, p, j + 1, fuel);
    }
  }

  /** A link met on a path whose bounded walk succeeds is followed by that walk, and so is
      everything its target leads to, within the smaller bound of the recursive visit. */
  lemma VisitedLinkIsFollowed(t: Tree, p: Path, j: nat, fuel: nat)
    requires ValidTree(t) && j < |p| && fuel <= LINK_LIMIT && NamesLink(t, p, j)
    requires !Walk(t, [], p, fuel).Failed?
    ensures LinkAt(t, p, j) in Followed(t, [], p, fuel)
    ensures fuel > 0
    ensures var target := TargetPath(t, LinkAt(t, p, j));
            && !Walk(t, [], target, fuel - 1).Failed?
            && Followed(t, [], target, fuel - 1) <= Followed(t, [], p, fuel)
  {
    LookupAgrees(t, p, j, fuel);
    LookupAgrees(t, p, j + 1, fuel);
    ComponentFollows(t, p, j, fuel);
    PrefixOutcome(t, p, j + 1, fuel);
    WalkIsFuelMonotone(t, [], p[..j], fuel, LINK_LIMIT - fuel);
    var left := Walk(t, [], p[..j], fuel).fuel;
    WalkIsFuelMonotone(t, [], TargetPath(t, LinkAt(t, p, j)), left - 1, fuel - left);
  }

  /** The full traversal of one pathname. Whenever the pathname's lookup does not fail outright
      (it may be missing: a prospective path), the list is exactly the set of links that the
      lookup follows, each named once by its canonical parent and its own entry name. */
  method NamespaceSymlinkDependencies(t: Tree, path: Path) returns (ok: bool, dependencies: seq<Loc>)
    requires ValidTree(t) && IsAbsolute(path)
    ensures NoDuplicates(dependencies)
    ensures forall l :: l in dependencies ==> IsLink(t, l) && IsDir(t, ParentOf(l))
    ensures !Lookup(t, path).Failed? ==> ok
    ensures ok ==> AllPassable(t, path) && forall l :: l in dependencies ==> AllPassable(t, TargetPath(t, l))
    ensures !Lookup(t, path).Failed? ==> forall l :: l in dependencies <==> l in Followed(t, [], path, LINK_LIMIT)
  {
    var discovery := new NamespaceDiscovery();
    ok := discovery.Discover(t, path, true, 0);
    dependencies := discovery.dependencies;
    assert forall l :: l in dependencies ==> Housed(t, l);
    if ok {
      forall l | l in dependencies ensures AllPassable(t, TargetPath(t, l)) {
        assert Explored(t, l, discovery.seen);
      }
    }
    if !Lookup(t, path).Failed? {
      assert path[..|path|] == path;
      LookupStaysWithin(t, path, |path|, LINK_LIMIT, discovery.seen);
    }
  }
}
