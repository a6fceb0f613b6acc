/** The verdicts on claims that resolution has built, told by the trees they were built in: what is found,
    which links are followed, and which files share an inode. */
module ClaimVerdicts {
  import opened Wrappers
  import opened Paths
  import opened Claims
  import opened FileTree
  import opened Resolution
  import opened ClaimIdentity

  /** What `ResolveWithSemantics` makes of a path in this tree. */
  ghost predicate Made(t: Tree, inodes: Loc -> Inode, path: Path, semantics: PathResolutionSemantics,
                       id: ResolvedPathIdentity)
  {
    && ValidTree(t) && IsAbsolute(path) && (semantics.NamespaceObject? ==> path[|path| - 1].Name?)
    && Identifies(t, path, semantics, id)
    && Records(id, ClaimedInode(t, inodes, id.resolvedIoPath, semantics))
  }

  /** The links that making the claim depended on. */
  ghost function LinksOf(t: Tree, path: Path, semantics: PathResolutionSemantics): set<Loc>
    requires path != []
  {
    Followed(t, [], Traversed(path, semantics), LINK_LIMIT)
  }

  /** `outer` is `inner`, or a directory on the way to it when all below `outer` is claimed too. */
  predicate Reaches<T(==)>(outer: seq<T>, scope: ClaimScope, inner: seq<T>) {
    outer == inner || (scope == Subtree && |outer| <= |inner| && inner[..|outer|] == outer)
  }

  /** Neither of the two is within what is claimed with the other. */
  predicate Apart<T(==)>(x: seq<T>, xScope: ClaimScope, y: seq<T>, yScope: ClaimScope) {
    !Reaches(x, xScope, y) && !Reaches(y, yScope, x)
  }

  lemma PathsReachAsLocs(outer: Loc, scope: ClaimScope, inner: Loc)
    ensures Reaches(ToPath(outer), scope, ToPath(inner)) <==> Reaches(outer, scope, inner)
  {
    if |outer| <= |inner| {
      assert ToPath(inner)[..|outer| + 1] == ToPath(inner[..|outer|]);
      if ToPath(inner)[..|outer| + 1] == ToPath(outer) {
        ToPathIsInjective(inner[..|outer|], outer);
      }
    }
    if ToPath(outer) == ToPath(inner) {
      ToPathIsInjective(outer, inner);
    }
  }

  /** Readers share everything. */
  lemma ReadersNeverConflict(a: PathClaim, b: PathClaim)
    requires a.mode == Read && b.mode == Read
    ensures !a.ConflictsWith(b)
  {}

  /** The writer reaches one of these links, by its own spelling or where it leads. */
  ghost predicate ReachesLink(claim: PathClaim, path: Path, subject: Loc, links: set<Loc>) {
    exists l :: l in links && (Reaches(path, claim.scope, ToPath(l)) || Reaches(subject, claim.scope, l))
  }

  lemma TouchedDependenciesAreLinks(claim: PathClaim, path: Path, subject: Loc, other: PathClaim, links: set<Loc>)
    requires claim.Namespace() == path && claim.Resolved() == ToPath(subject)
    requires NamesLinks(other.identity.namespaceDependencies, links)
    ensures claim.TouchesSomeDependency(other) <==> claim.mode == Write && ReachesLink(claim, path, subject, links)
  {
    var deps := other.identity.namespaceDependencies;
    if claim.TouchesSomeDependency(other) {
      var i :| 0 <= i < |deps| && claim.WriteTouches(deps[i]);
      assert deps[i] in deps;
      var l :| l in links && deps[i] == ToPath(l);
      PathsReachAsLocs(subject, claim.scope, l);
      assert Reaches(path, claim.scope, ToPath(l)) || Reaches(subject, claim.scope, l);
    }
    if claim.mode == Write && ReachesLink(claim, path, subject, links) {
      var l :| l in links && (Reaches(path, claim.scope, ToPath(l)) || Reaches(subject, claim.scope, l));
      PathsReachAsLocs(subject, claim.scope, l);
      var i :| 0 <= i < |deps| && deps[i] == ToPath(l);
      assert claim.WriteTouches(deps[i]);
    }
  }

  lemma ClaimLeadsToSubject(t: Tree, inodes: Loc -> Inode, path: Path, semantics: PathResolutionSemantics, c: PathClaim)
    requires Made(t, inodes, path, semantics, c.identity)
    ensures c.Resolved() == ToPath(Subject(t, path, semantics)) && c.Namespace() == path
    ensures NamesLinks(c.identity.namespaceDependencies, LinksOf(t, path, semantics))
  {
    SubjectIsResolved(t, path, semantics);
  }

  lemma MeetingIsReaching(a: PathClaim, b: PathClaim, left: Path, right: Path)
    ensures a.Meets(b, left, right) <==> !Apart(left, a.scope, right, b.scope)
  {}

  lemma ConflictHasFourReasons(a: PathClaim, b: PathClaim)
    requires a.Namespace() != [] && b.Namespace() != []
    ensures a.ConflictsWith(b) <==>
            && (a.mode == Write || b.mode == Write)
            && (|| a.SameInode(b)
                || !Apart(a.Resolved(), a.scope, b.Resolved(), b.scope)
                || !Apart(a.Namespace(), a.scope, b.Namespace(), b.scope)
                || a.TouchesSomeDependency(b) || b.TouchesSomeDependency(a))
  {
    MeetingIsReaching(a, b, a.Resolved(), b.Resolved());
    MeetingIsReaching(a, b, a.Namespace(), b.Namespace());
    hide PathClaim.Meets, Apart, PathClaim.TouchesSomeDependency;
  }

  /** Two claims conflict exactly if one writes and they share an inode, or one reaches the other where they
      lead or as they are spelled, or a writer reaches a link that the other depends on. */
  lemma ConflictIsExactly(t: Tree, i: Loc -> Inode, p: Path, pSemantics: PathResolutionSemantics, a: PathClaim,
                          u: Tree, j: Loc -> Inode, q: Path, qSemantics: PathResolutionSemantics, b: PathClaim)
    requires Made(t, i, p, pSemantics, a.identity) && Made(u, j, q, qSemantics, b.identity)
    ensures var x, y := Subject(t, p, pSemantics), Subject(u, q, qSemantics);
            a.ConflictsWith(b) <==>
            && (a.mode == Write || b.mode == Write)
            && (|| (a.identity.dev.Some? && a.identity.ino.Some?
                    && a.identity.dev == b.identity.dev && a.identity.ino == b.identity.ino)
                || !Apart(x, a.scope, y, b.scope)
                || !Apart(p, a.scope, q, b.scope)
                || (a.mode == Write && ReachesLink(a, p, x, LinksOf(u, q, qSemantics)))
                || (b.mode == Write && ReachesLink(b, q, y, LinksOf(t, p, pSemantics))))
  {
    var x, y := Subject(t, p, pSemantics), Subject(u, q, qSemantics);
    ClaimLeadsToSubject(t, i, p, pSemantics, a);
    ClaimLeadsToSubject(u, j, q, qSemantics, b);
    PathsReachAsLocs(x, a.scope, y);
    PathsReachAsLocs(y, b.scope, x);
    TouchedDependenciesAreLinks(a, p, x, b, LinksOf(u, q, qSemantics));
    TouchedDependenciesAreLinks(b, q, y, a, LinksOf(t, p, pSemantics));
    ConflictHasFourReasons(a, b);
    hide Identifies, Records, Subject, ClaimedInode, Reaches, ReachesLink, Made, PathClaim.ConflictsWith,
      PathClaim.TouchesSomeDependency, LinksOf;
  }

  /** Looking the path up finds this: the object it leads to, or its last name in the directory before it. */
  ghost predicate IsFoundAt(t: Tree, path: Path, semantics: PathResolutionSemantics, loc: Loc) {
    && path != []
    && match semantics
       case FollowReferent => Lookup(t, path).Found? && loc == Lookup(t, path).loc
       case NamespaceObject =>
         && path[|path| - 1].Name? && Lookup(t, path[..|path| - 1]).Found?
         && loc == Lookup(t, path[..|path| - 1]).loc + [path[|path| - 1].name]
  }

  lemma FoundClaimsRecordTheirFile(t: Tree, inodes: Loc -> Inode, path: Path, semantics: PathResolutionSemantics,
                                   c: PathClaim, loc: Loc)
    requires Made(t, inodes, path, semantics, c.identity) && IsFoundAt(t, path, semantics, loc)
    ensures Subject(t, path, semantics) == loc
    ensures if loc in t && (t[loc].File? || (t[loc].Link? && semantics.NamespaceObject?)) then
              c.identity.dev == Some(inodes(loc).dev) && c.identity.ino == Some(inodes(loc).ino)
            else
              c.identity.dev == None && c.identity.ino == None
  {
    SubjectIsResolved(t, path, semantics);
    FilesAreRecorded(t, inodes, path, semantics, c.Resolved());
  }

  /** Hard links cannot hide a conflict: claims on two names of one file conflict if either writes. */
  lemma HardLinksConflict(t: Tree, i: Loc -> Inode, p: Path, pSemantics: PathResolutionSemantics, a: PathClaim, x: Loc,
                          u: Tree, j: Loc -> Inode, q: Path, qSemantics: PathResolutionSemantics, b: PathClaim, y: Loc)
    requires Made(t, i, p, pSemantics, a.identity) && IsFoundAt(t, p, pSemantics, x)
    requires Made(u, j, q, qSemantics, b.identity) && IsFoundAt(u, q, qSemantics, y)
    requires x in t && t[x].File? && y in u && u[y].File? && i(x) == j(y)
    requires a.mode == Write || b.mode == Write
    ensures a.ConflictsWith(b)
  {
    FoundClaimsRecordTheirFile(t, i, p, pSemantics, a, x);
    FoundClaimsRecordTheirFile(u, j, q, qSemantics, b, y);
    ConflictIsExactly(t, i, p, pSemantics, a, u, j, q, qSemantics, b);
  }

  /** A writer that reaches none of the links another path's lookup follows. */
  ghost predicate SparesLinks(claim: PathClaim, path: Path, loc: Loc, links: set<Loc>) {
    forall l :: l in links ==> !Reaches(path, claim.scope, ToPath(l)) && !Reaches(loc, claim.scope, l)
  }

  /** Claims on files or directories that lie apart, under spellings that lie apart, do not conflict unless the
      two files are hard links or a writer reaches a link that leads to the other. */
  lemma SeparatedClaimsDoNotConflict(t: Tree, i: Loc -> Inode, p: Path, a: PathClaim,
                                     u: Tree, j: Loc -> Inode, q: Path, b: PathClaim)
    requires Made(t, i, p, FollowReferent, a.identity) && Made(u, j, q, FollowReferent, b.identity)
    requires Lookup(t, p).Found? && Lookup(u, q).Found?
    requires var x, y := Lookup(t, p).loc, Lookup(u, q).loc;
             && (x in t && t[x].File? && y in u && u[y].File? ==> i(x) != j(y))
             && Apart(x, a.scope, y, b.scope) && Apart(p, a.scope, q, b.scope)
             && (a.mode == Write ==> SparesLinks(a, p, x, Followed(u, [], q, LINK_LIMIT)))
             && (b.mode == Write ==> SparesLinks(b, q, y, Followed(t, [], p, LINK_LIMIT)))
    ensures !a.ConflictsWith(b)
  {
    var x, y := Lookup(t, p).loc, Lookup(u, q).loc;
    FoundClaimsRecordTheirFile(t, i, p, FollowReferent, a, x);
    FoundClaimsRecordTheirFile(u, j, q, FollowReferent, b, y);
    ConflictIsExactly(t, i, p, FollowReferent, a, u, j, q, FollowReferent, b);
  }

  // ---- Coverage. ----

  /** Each of these links is one that `claim` depends on itself, or one that it reaches. */
  ghost predicate LinksCovered(claim: PathClaim, path: Path, subject: Loc, own: set<Loc>, links: set<Loc>) {
    forall l :: l in links ==>
      l in own || Reaches(path, claim.scope, ToPath(l)) || Reaches(subject, claim.scope, l)
  }

  lemma CoveredDependenciesAreLinks(claim: PathClaim, path: Path, subject: Loc, own: set<Loc>, other: PathClaim,
                                    links: set<Loc>)
    requires claim.Namespace() == path && path != [] && claim.Resolved() == ToPath(subject)
    requires NamesLinks(claim.identity.namespaceDependencies, own)
    requires NamesLinks(other.identity.namespaceDependencies, links)
    ensures var deps := other.identity.namespaceDependencies;
            (exists k :: 0 <= k < |deps| && !claim.CoversDependency(deps[k])) <==>
            !LinksCovered(claim, path, subject, own, links)
  {
    var deps := other.identity.namespaceDependencies;
    forall l ensures claim.CoversDependency(ToPath(l)) <==>
                     l in own || Reaches(path, claim.scope, ToPath(l)) || Reaches(subject, claim.scope, l)
    {
      PathsReachAsLocs(subject, claim.scope, l);
    }
    if k :| 0 <= k < |deps| && !claim.CoversDependency(deps[k]) {
      assert deps[k] in deps;
      var l :| l in links && deps[k] == ToPath(l);
      assert !claim.CoversDependency(ToPath(l));
    }
    if !LinksCovered(claim, path, subject, own, links) {
      var l :| l in links
        && !(l in own || Reaches(path, claim.scope, ToPath(l)) || Reaches(subject, claim.scope, l));
      assert ToPath(l) in deps;
      var k :| 0 <= k < |deps| && deps[k] == ToPath(l);
      assert !claim.CoversDependency(deps[k]);
    }
  }

  lemma CoverageHasThreeConditions(a: PathClaim, b: PathClaim)
    requires a.Namespace() != [] && b.Namespace() != []
    ensures var deps := b.identity.namespaceDependencies;
            a.Covers(b) <==>
            && (b.mode == Write ==> a.mode == Write) && (b.scope == Subtree ==> a.scope == Subtree)
            && !(exists k :: 0 <= k < |deps| && !a.CoversDependency(deps[k]))
            && (Reaches(a.Resolved(), a.scope, b.Resolved()) || Reaches(a.Namespace(), a.scope, b.Namespace()))
  {}

  /** One claim covers another exactly if it is as strong and as broad, each link the other depends on is one of
      its own or within its reach, and it reaches the other where they lead or as they are spelled. */
  lemma CoverageIsExactly(t: Tree, i: Loc -> Inode, p: Path, pSemantics: PathResolutionSemantics, a: PathClaim,
                          u: Tree, j: Loc -> Inode, q: Path, qSemantics: PathResolutionSemantics, b: PathClaim)
    requires Made(t, i, p, pSemantics, a.identity) && Made(u, j, q, qSemantics, b.identity)
    ensures var x, y := Subject(t, p, pSemantics), Subject(u, q, qSemantics);
            a.Covers(b) <==>
            && (b.mode == Write ==> a.mode == Write) && (b.scope == Subtree ==> a.scope == Subtree)
            && LinksCovered(a, p, x, LinksOf(t, p, pSemantics), LinksOf(u, q, qSemantics))
            && (Reaches(x, a.scope, y) || Reaches(p, a.scope, q))
  {
    var x, y := Subject(t, p, pSemantics), Subject(u, q, qSemantics);
    ClaimLeadsToSubject(t, i, p, pSemantics, a);
    ClaimLeadsToSubject(u, j, q, qSemantics, b);
    PathsReachAsLocs(x, a.scope, y);
    CoveredDependenciesAreLinks(a, p, x, LinksOf(t, p, pSemantics), b, LinksOf(u, q, qSemantics));
    CoverageHasThreeConditions(a, b);
    hide Identifies, Records, Subject, ClaimedInode, LinksCovered, Made, LinksOf, PathClaim.CoversDependency, Reaches,
      PathClaim.Covers;
  }
}
