/** Building a claim's identity from a pathname, and what conflicts the identity then detects. */
module ClaimIdentity {
  import opened Wrappers
  import opened Paths
  import opened Claims
  import opened FileTree
  import opened Resolution
  import opened Discovery

  datatype PathResolutionSemantics = FollowReferent | NamespaceObject

  datatype IdentityError = BadFinalEntry | DependenciesFailed | ResolutionFailed(error: ResolveError)

  datatype Inode = Inode(dev: nat, ino: nat)

  /** The pathname handed to resolution: the parent when the final entry itself is claimed. */
  function Traversed(path: Path, semantics: PathResolutionSemantics): Path
    requires path != []
  {
    if semantics.FollowReferent? then path else path[..|path| - 1]
  }

  function ToPaths(locs: seq<Loc>): seq<Path> {
    seq(|locs|, i requires 0 <= i < |locs| => ToPath(locs[i]))
  }

  /** The identity names what the tree resolves the path to, and depends on exactly the links that
      the traversed path's lookup follows. */
  ghost predicate Identifies(t: Tree, path: Path, semantics: PathResolutionSemantics, id: ResolvedPathIdentity)
    requires path != []
  {
    var traversed := Traversed(path, semantics);
    var resolution := TreeResolution(t, traversed);
    && id.original == path && id.namespacePath == path
    && resolution.Ok?
    && id.canonicalExistingAncestor == resolution.value.canonicalExistingAncestor
    && (if semantics.FollowReferent? then
          id.resolvedIoPath == resolution.value.resolvedIoPath && id.suffix == resolution.value.suffix
        else
          && id.resolvedIoPath == resolution.value.resolvedIoPath + [path[|path| - 1]]
          && id.suffix == resolution.value.suffix + [path[|path| - 1]])
    && NamesLinks(id.namespaceDependencies, Followed(t, [], traversed, LINK_LIMIT))
  }

  /** The pathnames are those of these links, all of them and no others. */
  ghost predicate NamesLinks(paths: seq<Path>, links: set<Loc>) {
    && (forall l :: ToPath(l) in paths <==> l in links)
    && (forall d :: d in paths ==> exists l :: l in links && d == ToPath(l))
  }

  lemma ToPathsMembers(locs: seq<Loc>, links: set<Loc>)
    requires forall l :: l in locs <==> l in links
    ensures NamesLinks(ToPaths(locs), links)
  {
    forall l ensures ToPath(l) in ToPaths(locs) <==> l in links {
      if l in locs {
        var i :| 0 <= i < |locs| && locs[i] == l;
        assert ToPaths(locs)[i] == ToPath(l);
      }
      if ToPath(l) in ToPaths(locs) {
        var i :| 0 <= i < |locs| && ToPaths(locs)[i] == ToPath(l);
        ToPathIsInjective(l, locs[i]);
      }
    }
    forall d | d in ToPaths(locs) ensures exists l :: l in links && d == ToPath(l) {
      var i :| 0 <= i < |locs| && ToPaths(locs)[i] == d;
      assert locs[i] in links;
    }
  }

  /** The inode recorded for conflict detection: that of a regular file that the resolved path leads to,
      or of a file or link that is claimed as an entry. */
  function ClaimedInode(t: Tree, inodes: Loc -> Inode, resolved: Path, semantics: PathResolutionSemantics)
    : Option<Inode>
    requires resolved != []
  {
    match semantics
    case FollowReferent =>
      var at := Lookup(t, resolved);
      if at.Found? && at.loc in t && t[at.loc].File? then Some(inodes(at.loc)) else None
    case NamespaceObject =>
      var front, last := resolved[..|resolved| - 1], resolved[|resolved| - 1];
      var parent := Lookup(t, front);
      if !parent.Found? || !last.Name? || !IsDir(t, parent.loc) || parent.loc + [last.name] !in t then None
      else if t[parent.loc + [last.name]].Dir? then None
      else Some(inodes(parent.loc + [last.name]))
  }

  /** The identity records this inode, or none. */
  predicate Records(id: ResolvedPathIdentity, inode: Option<Inode>) {
    && id.dev == (if inode.Some? then Some(inode.value.dev) else None)
    && id.ino == (if inode.Some? then Some(inode.value.ino) else None)
  }

  /** The files whose inode tells aliases apart: regular files, and links that are claimed as entries. */
  predicate BearsInode(t: Tree, loc: Loc, semantics: PathResolutionSemantics) {
    loc in t && (t[loc].File? || (t[loc].Link? && semantics.NamespaceObject?))
  }

  /** Where a claimed path leads: the object it is found at, or where its missing part leads lexically;
      for the entry itself, the name in the directory that its parent path leads to. */
  ghost function Destination(t: Tree, path: Path): Loc
    requires TreeResolution(t, path).Ok?
  {
    if Lookup(t, path).Found? then Lookup(t, path).loc else Landing(AnchorOf(t, path), MissingPart(t, path))
  }

  ghost function Subject(t: Tree, path: Path, semantics: PathResolutionSemantics): Loc
    requires path != [] && TreeResolution(t, Traversed(path, semantics)).Ok?
    requires semantics.NamespaceObject? ==> path[|path| - 1].Name?
  {
    if semantics.FollowReferent? then Destination(t, path)
    else Destination(t, path[..|path| - 1]) + [path[|path| - 1].name]
  }

  lemma DestinationIsResolved(t: Tree, path: Path)
    requires TreeResolution(t, path).Ok?
    ensures TreeResolution(t, path).value.resolvedIoPath == ToPath(Destination(t, path))
  {
    if Lookup(t, path).Missing? {
      var tail := MissingPart(t, path);
      LexicalIsNames(tail);
      ToPathOfNames(AnchorOf(t, path), Lexical(tail));
    }
  }

  /** What is recorded is told by the tree: a path that is found records its object's inode exactly if
      that is a regular file, an entry of a directory that is found exactly if it is a file or a link. */
  lemma FilesAreRecorded(t: Tree, inodes: Loc -> Inode, path: Path, semantics: PathResolutionSemantics, resolved: Path)
    requires ValidTree(t) && path != [] && TreeResolution(t, Traversed(path, semantics)).Ok?
    requires semantics.NamespaceObject? ==> path[|path| - 1].Name?
    requires resolved == ToPath(Subject(t, path, semantics)) && Lookup(t, Traversed(path, semantics)).Found?
    ensures var loc := Subject(t, path, semantics);
            ClaimedInode(t, inodes, resolved, semantics) ==
              if BearsInode(t, loc, semantics) then Some(inodes(loc)) else None
  {
    var traversed := Traversed(path, semantics);
    var at := Lookup(t, traversed).loc;
    WalkFindsObjects(t, [], traversed, LINK_LIMIT);
    CanonicalPathsAreFixed(t, at, LINK_LIMIT);
    if semantics.NamespaceObject? {
      var loc := Subject(t, path, semantics);
      assert Housed(t, loc) && ParentOf(loc) == at;
      ToPathGrows(loc);
    }
  }

  method ResolveWithSemantics(t: Tree, inodes: Loc -> Inode, path: Path, semantics: PathResolutionSemantics)
    returns (r: Result<ResolvedPathIdentity, IdentityError>)
    requires ValidTree(t) && ValidPath(path) && IsAbsolute(path)
    ensures r.Ok? ==> Identifies(t, path, semantics, r.value)
    ensures r.Ok? <==>
              && (semantics.NamespaceObject? ==> path[|path| - 1].Name?)
              && TreeResolution(t, Traversed(path, semantics)).Ok?
    ensures r.Ok? ==> Records(r.value, ClaimedInode(t, inodes, r.value.resolvedIoPath, semantics))
    ensures r.Ok? && semantics.FollowReferent? && Lookup(t, path).Found? ==>
              var loc := Lookup(t, path).loc;
              if loc in t && t[loc].File? then
                r.value.dev == Some(inodes(loc).dev) && r.value.ino == Some(inodes(loc).ino)
              else
                r.value.dev == None && r.value.ino == None
    ensures r.Ok? && semantics.NamespaceObject? && Lookup(t, path[..|path| - 1]).Found? ==>
              var loc := Lookup(t, path[..|path| - 1]).loc + [path[|path| - 1].name];
              if loc in t && (t[loc].File? || t[loc].Link?) then
                r.value.dev == Some(inodes(loc).dev) && r.value.ino == Some(inodes(loc).ino)
              else
                r.value.dev == None && r.value.ino == None
  {
    var final := path[|path| - 1];
    if semantics.NamespaceObject? && !final.Name? {
      return Err(BadFinalEntry);
    }
    var traversed := Traversed(path, semantics);
    var found, dependencies := NamespaceSymlinkDependencies(t, traversed);
    if !found {
      return Err(DependenciesFailed);
    }
    var resolution := ResolveFollowReferentOrdered(t, traversed);
    if resolution.Err? {
      return Err(ResolutionFailed(resolution.error));
    }
    ToPathsMembers(dependencies, Followed(t, [], traversed, LINK_LIMIT));
    var own := if semantics.NamespaceObject? then [final] else [];
    var resolved := resolution.value.resolvedIoPath + own;
    assert resolution.value.suffix + [] == resolution.value.suffix;
    assert resolution.value.resolvedIoPath + [] == resolution.value.resolvedIoPath;
    var inode := ClaimedInode(t, inodes, resolved, semantics);
    SubjectIsResolved(t, path, semantics);
    if Lookup(t, traversed).Found? {
      FilesAreRecorded(t, inodes, path, semantics, resolved);
    }
    r := Ok(ResolvedPathIdentity(
              path, path, ToPaths(dependencies), resolved,
              resolution.value.canonicalExistingAncestor, resolution.value.suffix + own,
              if inode.Some? then Some(inode.value.dev) else None,
              if inode.Some? then Some(inode.value.ino) else None));
  }

  lemma SubjectIsResolved(t: Tree, path: Path, semantics: PathResolutionSemantics)
    requires path != [] && TreeResolution(t, Traversed(path, semantics)).Ok?
    requires semantics.NamespaceObject? ==> path[|path| - 1].Name?
    ensures ToPath(Subject(t, path, semantics)) ==
            TreeResolution(t, Traversed(path, semantics)).value.resolvedIoPath
            + if semantics.NamespaceObject? then [path[|path| - 1]] else []
  {
    DestinationIsResolved(t, Traversed(path, semantics));
    if semantics.NamespaceObject? {
      ToPathGrows(Subject(t, path, semantics));
    }
  }

  /** Whatever resolution builds has absolute pathnames throughout. */
  lemma IdentifiedClaimsArePlaced(t: Tree, path: Path, semantics: PathResolutionSemantics, claim: PathClaim)
    requires IsAbsolute(path) && Identifies(t, path, semantics, claim.identity)
    ensures claim.Placed()
  {
    var deps := claim.identity.namespaceDependencies;
    var r := TreeResolution(t, Traversed(path, semantics));
    assert IsAbsolute(r.value.resolvedIoPath);
    forall i | 0 <= i < |deps| ensures IsAbsolute(deps[i]) {
      assert deps[i] in deps;
    }
  }

  /** The claimed path leads where the claim says, now if it exists and whenever it is created. */
  ghost predicate Anticipates(t: Tree, path: Path) {
    Lookup(t, path).Missing? ==> LandsAsResolved(t, path)
  }

  /** A claim knows the object that its path leads to in any later tree. */
  lemma ClaimsKnowTheirObject(t: Tree, later: Tree, path: Path, claim: PathClaim)
    requires ValidTree(t) && path != [] && Identifies(t, path, FollowReferent, claim.identity)
    requires Grows(t, later) && Lookup(later, path).Found? && Anticipates(t, path)
    ensures claim.Resolved() == ToPath(Lookup(later, path).loc)
  {
    LaterLookupLandsAsResolved(t, later, path);
  }

  /** Two claims on one object conflict if either writes, whatever spellings and links they use, and
      whether the object existed when they were made or is there only later. */
  lemma AliasesCannotHideAConflict(t: Tree, u: Tree, later: Tree, p: Path, q: Path, a: PathClaim, b: PathClaim)
    requires ValidTree(t) && ValidTree(u) && p != [] && q != []
    requires Identifies(t, p, FollowReferent, a.identity) && Identifies(u, q, FollowReferent, b.identity)
    requires Grows(t, later) && Grows(u, later) && Anticipates(t, p) && Anticipates(u, q)
    requires Lookup(later, p).Found? && Lookup(later, q).Found? && Lookup(later, p).loc == Lookup(later, q).loc
    requires a.mode == Write || b.mode == Write
    ensures a.ConflictsWith(b)
  {
    ClaimsKnowTheirObject(t, later, p, a);
    ClaimsKnowTheirObject(u, later, q, b);
  }

  /** A subtree claim conflicts with a claim on any object that is or comes to be inside its directory. */
  lemma SubtreeClaimsGuardTheirContents(t: Tree, u: Tree, later: Tree, p: Path, q: Path, a: PathClaim, b: PathClaim)
    requires ValidTree(t) && ValidTree(u) && p != [] && q != []
    requires Identifies(t, p, FollowReferent, a.identity) && Identifies(u, q, FollowReferent, b.identity)
    requires Grows(t, later) && Grows(u, later) && Anticipates(t, p) && Anticipates(u, q)
    requires Lookup(later, p).Found? && Lookup(later, q).Found? && Lookup(later, p).loc <= Lookup(later, q).loc
    requires a.scope == Subtree && (a.mode == Write || b.mode == Write)
    ensures a.ConflictsWith(b)
  {
    ClaimsKnowTheirObject(t, later, p, a);
    ClaimsKnowTheirObject(u, later, q, b);
    var outer, inner := Lookup(later, p).loc, Lookup(later, q).loc;
    assert ToPath(inner)[..|ToPath(outer)|] == ToPath(outer);
  }

  // ---- Where a dangling link hides a conflict. ----

  /** `/dir/n` for a directory `/dir`. */
  lemma TwoNames(t: Tree, cur: Loc, dir: string, n: string, fuel: nat)
    requires [dir] in t && t[[dir]].Dir? && fuel > 0
    ensures var path := [Root, Name(dir), Name(n)];
            && ([dir, n] !in t ==> Walk(t, cur, path, fuel).Missing? && Followed(t, cur, path, fuel) == {})
            && ([dir, n] in t && !t[[dir, n]].Link? ==>
                  Walk(t, cur, path, fuel) == Found([dir, n], fuel) && Followed(t, cur, path, fuel) == {})
            && (IsLink(t, [dir, n]) ==>
                  && Walk(t, cur, path, fuel) == Walk(t, [dir], t[[dir, n]].target, fuel - 1)
                  && Followed(t, cur, path, fuel) == {[dir, n]} + Followed(t, [dir], t[[dir, n]].target, fuel - 1))
  {
    assert [] + [dir] == [dir] && [dir] + [n] == [dir, n];
    assert [Root, Name(dir), Name(n)] == [Root] + ([Name(dir)] + ([Name(n)] + []));
    StepToRoot(t, cur, [Name(dir)] + ([Name(n)] + []), fuel);
    StepDown(t, [], dir, [Name(n)] + [], fuel);
    StepDown(t, [dir], n, [], fuel);
    if IsLink(t, [dir, n]) {
      assert t[[dir, n]].target + [] == t[[dir, n]].target;
    }
  }

  lemma DirectoryIsFound(t: Tree, dir: string)
    requires [dir] in t && t[[dir]].Dir?
    ensures Lookup(t, [Root, Name(dir)]) == Found([dir], LINK_LIMIT)
  {
    assert [Root, Name(dir)] == [Root] + ([Name(dir)] + []) && [] + [dir] == [dir];
    StepToRoot(t, [], [Name(dir)] + [], LINK_LIMIT);
    StepDown(t, [], dir, [], LINK_LIMIT);
  }

  lemma CutOfTwoNames(dir: string, n: string, path: Path)
    requires path == [Root, Name(dir), Name(n)]
    ensures path[..2] == [Root, Name(dir)] && path[..3] == path && path[2..] == [Name(n)]
    ensures path == ToPath([dir]) + [Name(n)]
  {
    assert ToPath([dir]) == [Root, Name(dir)];
  }

  lemma {:induction false} MissingNameResolves(t: Tree, dir: string, n: string, path: Path)
    requires path == [Root, Name(dir), Name(n)]
    requires [dir] in t && t[[dir]].Dir? && Lookup(t, path).Missing?
    ensures TreeResolution(t, path) == Ok(OrderedPathResolution(path, ToPath([dir]), [Name(n)]))
  {
    CutOfTwoNames(dir, n, path);
    DirectoryIsFound(t, dir);
    NamesResolveBehind(t, path, 2, [dir], [Name(n)]);
  }

  // ---- Coverage by namespace alone. ----

  /** An exact write claim on an existing directory `/dir`, by the path `/n` that leads to it. */
  function ClaimOn(n: string, dir: string, dependencies: seq<Path>): PathClaim {
    var path, resolved := [Root, Name(n)], [Root, Name(dir)];
    PathClaim(ResolvedPathIdentity(path, path, dependencies, resolved, resolved, [], None, None), Write, Exact)
  }

  /** `/n` in a tree where it is a directory, or a link to the directory `/dir`. */
  lemma OneNameIsClaimed(t: Tree, n: string, dir: string)
    requires [dir] in t && t[[dir]].Dir?
    ensures Identifies(t, [Root, Name(dir)], FollowReferent, ClaimOn(dir, dir, []).identity)
    ensures [n] in t && t[[n]] == Link([Root, Name(dir)]) ==>
              Identifies(t, [Root, Name(n)], FollowReferent, ClaimOn(n, dir, [[Root, Name(n)]]).identity)
  {
    assert [] + [dir] == [dir] && [] + [n] == [n];
    assert [Root, Name(dir)] == [Root] + ([Name(dir)] + []) && [Root, Name(n)] == [Root] + ([Name(n)] + []);
    StepToRoot(t, [], [Name(dir)] + [], LINK_LIMIT);
    StepDown(t, [], dir, [], LINK_LIMIT);
    assert ToPath([dir]) == [Root, Name(dir)];
    if [n] in t && t[[n]] == Link([Root, Name(dir)]) {
      StepToRoot(t, [], [Name(n)] + [], LINK_LIMIT);
      StepDown(t, [], n, [], LINK_LIMIT);
      assert [Root, Name(dir)] + [] == [Root, Name(dir)];
      StepToRoot(t, [], [Name(dir)] + [], LINK_LIMIT - 1);
      StepDown(t, [], dir, [], LINK_LIMIT - 1);
      assert ToPath([n]) == [Root, Name(n)];
      DependencyOfOneLink([n], [Root, Name(n)]);
    }
  }

  /** The link `/link` led to `/other` when `a` was made and leads to `/target` when `b` and `c` are.
      `a` covers `b`, by its namespace path alone; but `c` conflicts with `b` and not with `a`. */
  lemma NamespaceOnlyCoverageFails() returns (t: Tree, u: Tree, a: PathClaim, b: PathClaim, c: PathClaim)
    ensures ValidTree(t) && ValidTree(u) && t.Keys == u.Keys
    ensures a.Namespace() != [] && Identifies(t, a.Namespace(), FollowReferent, a.identity)
    ensures b.Namespace() != [] && Identifies(u, b.Namespace(), FollowReferent, b.identity)
    ensures c.Namespace() != [] && Identifies(u, c.Namespace(), FollowReferent, c.identity)
    ensures a.Covers(b) && c.ConflictsWith(b) && !c.ConflictsWith(a)
  {
    var link, other, target := [Root, Name("link")], [Root, Name("other")], [Root, Name("target")];
    t := map[["other"] := Dir, ["target"] := Dir, ["link"] := Link(other)];
    u := map[["other"] := Dir, ["target"] := Dir, ["link"] := Link(target)];
    a, b, c := ClaimOn("link", "other", [link]), ClaimOn("link", "target", [link]), ClaimOn("target", "target", []);
    OneNameIsClaimed(t, "link", "other");
    OneNameIsClaimed(u, "link", "target");
    CoveredByNamespaceAlone(a, b, c);
  }

  lemma CoveredByNamespaceAlone(a: PathClaim, b: PathClaim, c: PathClaim)
    requires a == ClaimOn("link", "other", [[Root, Name("link")]])
    requires b == ClaimOn("link", "target", [[Root, Name("link")]]) && c == ClaimOn("target", "target", [])
    ensures a.Covers(b) && c.ConflictsWith(b) && !c.ConflictsWith(a)
  {
    assert c.Resolved()[1] != a.Resolved()[1] && c.Resolved()[1] != a.Namespace()[1];
  }

  /** A write claim on a path of this name, as resolution makes it of a missing path. */
  function WriteClaim(dir: string, n: string, dependencies: seq<Path>): PathClaim {
    var path, anchor := [Root, Name(dir), Name(n)], [Root, Name(dir)];
    PathClaim(ResolvedPathIdentity(path, path, dependencies, path, anchor, [Name(n)], None, None), Write, Exact)
  }

  /** A claim on a dangling link to `/b/m` is on the link, and on nothing else. */
  lemma DanglingLinkIsClaimed(t: Tree)
    requires ["a"] in t && t[["a"]].Dir? && ["b"] in t && t[["b"]].Dir? && ["b", "m"] !in t
    requires ["a", "link"] in t && t[["a", "link"]] == Link([Root, Name("b"), Name("m")])
    ensures var link := [Root, Name("a"), Name("link")];
            Identifies(t, link, FollowReferent, WriteClaim("a", "link", [link]).identity)
  {
    DanglingLinkIsFollowed(t);
    MissingNameIsClaimedBy(t, "a", "link", [[Root, Name("a"), Name("link")]], {["a", "link"]});
  }

  lemma DanglingLinkIsFollowed(t: Tree)
    requires ["a"] in t && t[["a"]].Dir? && ["b"] in t && t[["b"]].Dir? && ["b", "m"] !in t
    requires ["a", "link"] in t && t[["a", "link"]] == Link([Root, Name("b"), Name("m")])
    ensures var link := [Root, Name("a"), Name("link")];
            && Lookup(t, link).Missing? && Followed(t, [], link, LINK_LIMIT) == {["a", "link"]}
            && NamesLinks([link], {["a", "link"]})
  {
    TwoNames(t, [], "a", "link", LINK_LIMIT);
    TwoNames(t, ["a"], "b", "m", LINK_LIMIT - 1);
    assert ToPath(["a", "link"]) == [Root, Name("a"), Name("link")];
    DependencyOfOneLink(["a", "link"], [Root, Name("a"), Name("link")]);
  }

  lemma MissingNameIsClaimedBy(t: Tree, dir: string, n: string, dependencies: seq<Path>, links: set<Loc>)
    requires var path := [Root, Name(dir), Name(n)];
             && [dir] in t && t[[dir]].Dir? && Lookup(t, path).Missing? && Followed(t, [], path, LINK_LIMIT) == links
    requires NamesLinks(dependencies, links)
    ensures Identifies(t, [Root, Name(dir), Name(n)], FollowReferent, WriteClaim(dir, n, dependencies).identity)
  {
    MissingNameResolves(t, dir, n, [Root, Name(dir), Name(n)]);
    assert ToPath([dir]) == [Root, Name(dir)];
  }

  lemma MissingNameIsClaimed(t: Tree)
    requires ["b"] in t && t[["b"]].Dir? && ["b", "m"] !in t
    ensures Identifies(t, [Root, Name("b"), Name("m")], FollowReferent, WriteClaim("b", "m", []).identity)
  {
    TwoNames(t, [], "b", "m", LINK_LIMIT);
    MissingNameIsClaimedBy(t, "b", "m", [], {});
  }

  lemma BothLeadToTheFile(t: Tree)
    requires ["a"] in t && t[["a"]].Dir? && ["b"] in t && t[["b"]].Dir? && ["b", "m"] in t && t[["b", "m"]].File?
    requires ["a", "link"] in t && t[["a", "link"]] == Link([Root, Name("b"), Name("m")])
    ensures Lookup(t, [Root, Name("a"), Name("link")]) == Found(["b", "m"], LINK_LIMIT - 1)
    ensures Lookup(t, [Root, Name("b"), Name("m")]) == Found(["b", "m"], LINK_LIMIT)
  {
    TwoNames(t, [], "a", "link", LINK_LIMIT);
    TwoNames(t, ["a"], "b", "m", LINK_LIMIT - 1);
    TwoNames(t, [], "b", "m", LINK_LIMIT);
  }

  lemma NoConflictBetween(a: PathClaim, b: PathClaim)
    requires a == WriteClaim("a", "link", [[Root, Name("a"), Name("link")]]) && b == WriteClaim("b", "m", [])
    ensures !a.ConflictsWith(b)
  {
    assert a.Resolved()[1] != b.Resolved()[1];
  }

  /** The dangling link `/a/link` to `/b/m`: write claims on both paths do not conflict, and once `/b/m`
      has been created both paths lead to it. */
  lemma DanglingLinksHideAConflict() returns (t: Tree, later: Tree, a: PathClaim, b: PathClaim)
    ensures ValidTree(t) && ValidTree(later) && Grows(t, later)
    ensures a.Namespace() != [] && Identifies(t, a.Namespace(), FollowReferent, a.identity)
    ensures b.Namespace() != [] && Identifies(t, b.Namespace(), FollowReferent, b.identity)
    ensures a.mode == Write && b.mode == Write && !a.ConflictsWith(b)
    ensures Lookup(later, a.Namespace()).Found? && Lookup(later, b.Namespace()).Found?
    ensures Lookup(later, a.Namespace()).loc == Lookup(later, b.Namespace()).loc
  {
    var link, m := [Root, Name("a"), Name("link")], [Root, Name("b"), Name("m")];
    a, b := WriteClaim("a", "link", [link]), WriteClaim("b", "m", []);
    t, later := DanglingTrees();
    DanglingLinkIsClaimed(t);
    MissingNameIsClaimed(t);
    NoConflictBetween(a, b);
    BothLeadToTheFile(later);
  }

  lemma DanglingTrees() returns (t: Tree, later: Tree)
    ensures ValidTree(t) && ValidTree(later) && Grows(t, later)
    ensures ["a"] in t && t[["a"]].Dir? && ["b"] in t && t[["b"]].Dir? && ["b", "m"] !in t
    ensures ["a", "link"] in t && t[["a", "link"]] == Link([Root, Name("b"), Name("m")])
    ensures ["b", "m"] in later && later[["b", "m"]].File?
  {
    t := map[["a"] := Dir, ["b"] := Dir, ["a", "link"] := Link([Root, Name("b"), Name("m")])];
    later := t[["b", "m"] := File];
    assert ParentOf(["a", "link"]) == ["a"] && ParentOf(["b", "m"]) == ["b"];
  }

  lemma DependencyOfOneLink(link: Loc, path: Path)
    requires ToPath(link) == path
    ensures NamesLinks([path], {link})
  {
    assert link in {link};
    forall l | ToPath(l) in [path] ensures l == link {
      ToPathIsInjective(l, link);
    }
  }

  /** Replacing any link that an admitted path's lookup follows conflicts with that path's claim,
      even a read claim, and even when the link occurs only inside another link's target. */
  lemma ReplacingAFollowedLinkConflicts(t: Tree, p: Path, q: Path, link: Loc, reader: PathClaim, writer: PathClaim)
    requires ValidTree(t) && p != [] && q != []
    requires Identifies(t, p, FollowReferent, reader.identity)
    requires Identifies(t, q, NamespaceObject, writer.identity) && writer.mode == Write
    requires link in Followed(t, [], p, LINK_LIMIT)
    requires link != [] && q[|q| - 1] == Name(link[|link| - 1])
    requires Lookup(t, q[..|q| - 1]).Found? && Lookup(t, q[..|q| - 1]).loc == ParentOf(link)
    ensures writer.ConflictsWith(reader) && reader.ConflictsWith(writer)
  {
    ToPathGrows(link);
    assert writer.Resolved() == ToPath(link);
    var i :| 0 <= i < |reader.identity.namespaceDependencies|
      && reader.identity.namespaceDependencies[i] == ToPath(link);
    assert writer.WriteTouches(reader.identity.namespaceDependencies[i]);
    assert writer.TouchesSomeDependency(reader);
    ConflictIsSymmetric(writer, reader);
  }
}
