/** Ordered resolution of a claimed pathname, existing or prospective. */
module Resolution {
  import opened Wrappers
  import opened Paths
  import opened FileTree

  datatype OrderedPathResolution = OrderedPathResolution(
    resolvedIoPath: Path,
    canonicalExistingAncestor: Path,
    suffix: Path)

  datatype ResolveError =
    | NotAbsolute
    | NoExistingAncestor
    | EscapesAncestor
    | NewRoot
    | CanonicalizeFailed
    | NoCanonicalIdentity

  /** Splitting a pathname yields its root, if any, in front only. */
  predicate ValidPath(path: Path) {
    forall i :: 0 < i < |path| ==> path[i] != Root
  }

  /** Names entered minus names left. */
  function Depth(steps: Path): int {
    if steps == [] then 0
    else
      var last := steps[|steps| - 1];
      Depth(steps[..|steps| - 1]) + (if last.Name? then 1 else if last.Parent? then -1 else 0)
  }

  /** Some prefix leaves more names than it entered. */
  ghost predicate Climbs(steps: Path) {
    exists j :: 0 <= j <= |steps| && Depth(steps[..j]) < 0
  }

  /** The names still entered after all steps. */
  function Lexical(steps: Path): Path {
    if steps == [] then []
    else
      var before, last := Lexical(steps[..|steps| - 1]), steps[|steps| - 1];
      if last.Name? then before + [last]
      else if last.Parent? && before != [] then before[..|before| - 1]
      else before
  }

  predicate OnlyNames(path: Path) {
    forall i :: 0 <= i < |path| ==> path[i].Name?
  }

  lemma {:induction false} LexicalIsNames(steps: Path)
    ensures OnlyNames(Lexical(steps))
  {
    if steps != [] {
      LexicalIsNames(steps[..|steps| - 1]);
    }
  }

  lemma ClimbsOneMore(steps: Path, j: nat)
    requires j < |steps|
    ensures Climbs(steps[..j + 1]) <==> Climbs(steps[..j]) || Depth(steps[..j + 1]) < 0
  {
    forall i | 0 <= i <= j ensures steps[..j + 1][..i] == steps[..j][..i] == steps[..i] {}
    assert steps[..j + 1][..j + 1] == steps[..j + 1];
    if Climbs(steps[..j]) {
      var i :| 0 <= i <= j && Depth(steps[..j][..i]) < 0;
      assert Depth(steps[..j + 1][..i]) < 0;
    }
    if Climbs(steps[..j + 1]) {
      var i :| 0 <= i <= j + 1 && Depth(steps[..j + 1][..i]) < 0;
      assert i <= j ==> Depth(steps[..j][..i]) < 0;
    }
  }

  lemma ClimbsIsMonotone(steps: Path, j: nat)
    requires j <= |steps| && Climbs(steps[..j])
    ensures Climbs(steps)
  {
    var i :| 0 <= i <= j && Depth(steps[..j][..i]) < 0;
    assert steps[..j][..i] == steps[..i];
  }

  /** The prospective tail is normalized lexically and may not climb out. */
  method NormalizeProspective(steps: Path) returns (r: Result<Path, ResolveError>)
    ensures r.Ok? <==> Root !in steps && !Climbs(steps)
    ensures r.Ok? ==> r.value == Lexical(steps)
    ensures r.Err? && Root !in steps ==> r.error == EscapesAncestor
  {
    var prospective: Path := [];
    assert steps[..0] == [];
    for i := 0 to |steps|
      invariant Root !in steps[..i] && !Climbs(steps[..i])
      invariant prospective == Lexical(steps[..i]) && |prospective| == Depth(steps[..i])
    {
      assert steps[..i + 1][..i] == steps[..i];
      ClimbsOneMore(steps, i);
      match steps[i] {
        case Name(_) =>
          prospective := prospective + [steps[i]];
        case Parent =>
          if prospective == [] {
            ClimbsIsMonotone(steps, i + 1);
            return Err(EscapesAncestor);
          }
          prospective := prospective[..|prospective| - 1];
        case Root =>
          return Err(NewRoot);
      }
    }
    assert steps[..|steps|] == steps;
    r := Ok(prospective);
  }

  /** How many components of a missing path lead to an existing object. */
  ghost function ExistingPrefix(t: Tree, path: Path): (k: nat)
    requires Lookup(t, path).Missing?
    ensures k < |path| && Lookup(t, path[..k]).Found? && Lookup(t, path[..k + 1]).Missing?
  {
    assert path[..|path|] == path;
    LastFound(t, path, |path|)
  }

  ghost function LastFound(t: Tree, path: Path, bound: nat): (k: nat)
    requires bound <= |path| && Lookup(t, path[..bound]).Missing?
    ensures k < bound && Lookup(t, path[..k]).Found? && Lookup(t, path[..k + 1]).Missing?
  {
    assert bound != 0 by { assert path[..0] == []; }
    assert path[..bound][..bound - 1] == path[..bound - 1];
    PrefixOutcome(t, path[..bound], bound - 1, LINK_LIMIT);
    if Lookup(t, path[..bound - 1]).Found? then bound - 1 else LastFound(t, path, bound - 1)
  }

  lemma ExistingPrefixIsUnique(t: Tree, path: Path, k: nat)
    requires k < |path| && Lookup(t, path[..k]).Found? && Lookup(t, path[..k + 1]).Missing?
    ensures Lookup(t, path).Missing? && ExistingPrefix(t, path) == k
  {
    PrefixOutcome(t, path, k + 1, LINK_LIMIT);
    var e := ExistingPrefix(t, path);
    if e < k {
      assert path[..k][..e + 1] == path[..e + 1];
      PrefixOutcome(t, path[..k], e + 1, LINK_LIMIT);
    } else if k < e {
      assert path[..e][..k + 1] == path[..k + 1];
      PrefixOutcome(t, path[..e], k + 1, LINK_LIMIT);
    }
  }

  /** What the file tree itself says a path resolves to, existing or prospective. */
  ghost function TreeResolution(t: Tree, path: Path): Result<OrderedPathResolution, ResolveError> {
    match Lookup(t, path)
    case Found(loc, _) => Ok(OrderedPathResolution(ToPath(loc), ToPath(loc), []))
    case Failed => Err(CanonicalizeFailed)
    case Missing =>
      var k := ExistingPrefix(t, path);
      var anchor, tail := ToPath(Lookup(t, path[..k]).loc), path[k..];
      if Climbs(tail) then Err(EscapesAncestor)
      else Ok(OrderedPathResolution(anchor + Lexical(tail), anchor, Lexical(tail)))
  }

  lemma RootExists(t: Tree)
    ensures Lookup(t, [Root]) == Found([], LINK_LIMIT)
  {
    assert [Root][1..] == [];
  }

  /** Component by component, each prefix is canonicalized before `..` is applied to it. */
  method ResolveFollowReferentOrdered(t: Tree, absolute: Path)
    returns (r: Result<OrderedPathResolution, ResolveError>)
    requires ValidPath(absolute)
    ensures r == if IsAbsolute(absolute) then TreeResolution(t, absolute) else Err(NotAbsolute)
  {
    if !IsAbsolute(absolute) {
      return Err(NotAbsolute);
    }
    var rawPrefix: Path := [];
    var canonicalCurrent: Option<Loc> := None;
    for index := 0 to |absolute|
      invariant rawPrefix == absolute[..index]
      invariant Lookup(t, rawPrefix).Found?
      invariant index > 0 ==> canonicalCurrent == Some(Lookup(t, rawPrefix).loc)
    {
      PrefixOutcome(t, absolute, index + 1, LINK_LIMIT);
      rawPrefix := rawPrefix + [absolute[index]];
      assert rawPrefix == absolute[..index + 1];
      match Lookup(t, rawPrefix) {
        case Found(canonical, _) =>
          canonicalCurrent := Some(canonical);
        case Missing =>
          RootExists(t);
          assert index > 0 by { assert absolute[..1] == [Root]; }
          ExistingPrefixIsUnique(t, absolute, index);
          assert Root !in absolute[index..];
          var suffix := NormalizeProspective(absolute[index..]);
          match suffix {
            case Err(error) => return Err(error);
            case Ok(names) =>
              var anchor := ToPath(canonicalCurrent.value);
              return Ok(OrderedPathResolution(anchor + names, anchor, names));
          }
        case Failed =>
          return Err(CanonicalizeFailed);
      }
    }
    assert rawPrefix == absolute;
    var canonical := ToPath(canonicalCurrent.value);
    r := Ok(OrderedPathResolution(canonical, canonical, []));
  }

  function NamesOf(path: Path): Loc
    requires OnlyNames(path)
  {
    seq(|path|, i requires 0 <= i < |path| => path[i].name)
  }

  /** Where the walk stands after `steps`, if the names on the way are ordinary directories. */
  function Landing(anchor: Loc, steps: Path): Loc {
    LexicalIsNames(steps);
    anchor + NamesOf(Lexical(steps))
  }

  lemma NamesOfAppended(path: Path, last: Component)
    requires OnlyNames(path) && last.Name?
    ensures OnlyNames(path + [last]) && NamesOf(path + [last]) == NamesOf(path) + [last.name]
  {}

  lemma NamesOfShortened(path: Path)
    requires OnlyNames(path) && path != []
    ensures OnlyNames(path[..|path| - 1])
    ensures NamesOf(path[..|path| - 1]) == NamesOf(path)[..|path| - 1]
  {}

  lemma LandingEnters(anchor: Loc, front: Path, last: Component)
    requires last.Name?
    ensures Landing(anchor, front + [last]) == Landing(anchor, front) + [last.name]
  {
    assert (front + [last])[..|front|] == front;
    LexicalIsNames(front);
    NamesOfAppended(Lexical(front), last);
  }

  lemma LandingLeaves(anchor: Loc, front: Path, last: Component)
    requires last.Parent? && Lexical(front) != []
    ensures Landing(anchor, front + [last]) == ParentOf(Landing(anchor, front))
  {
    assert (front + [last])[..|front|] == front;
    LexicalIsNames(front);
    NamesOfShortened(Lexical(front));
    var names := NamesOf(Lexical(front));
    assert (anchor + names)[..|anchor + names| - 1] == anchor + names[..|names| - 1];
  }

  lemma {:induction false} LexicalDepth(steps: Path)
    requires !Climbs(steps)
    ensures |Lexical(steps)| == Depth(steps)
  {
    if steps != [] {
      var n := |steps| - 1;
      assert steps[..n + 1] == steps;
      ClimbsOneMore(steps, n);
      LexicalDepth(steps[..n]);
    }
  }

  // ---- What a later lookup of a missing path finds. ----

  /** Everything in `t` is still there, and what has been added is directories and files. */
  ghost predicate Grows(t: Tree, later: Tree) {
    && (forall loc :: loc in t ==> loc in later && later[loc] == t[loc])
    && (forall loc :: loc in later && loc !in t ==> !later[loc].Link?)
  }

  /** The lookup that follows the links of `t` and takes it that missing names will be there. */
  function Future(t: Tree, cur: Loc, rest: Path, fuel: nat): Outcome
    decreases fuel, |rest|
  {
    if rest == [] then Found(cur, fuel)
    else if rest[0].Root? then Future(t, [], rest[1..], fuel)
    else if cur in t && !t[cur].Dir? then Failed
    else if rest[0].Parent? then Future(t, ParentOf(cur), rest[1..], fuel)
    else
      var entry := cur + [rest[0].name];
      if !IsLink(t, entry) then Future(t, entry, rest[1..], fuel)
      else if fuel == 0 then Failed
      else Future(t, cur, t[entry].target + rest[1..], fuel - 1)
  }

  /** Whatever is added, a later lookup that finds something finds what was to be expected. */
  lemma {:induction false} LaterLookupIsDetermined(t: Tree, later: Tree, cur: Loc, rest: Path, fuel: nat)
    requires ValidTree(t) && Grows(t, later) && Walk(later, cur, rest, fuel).Found?
    ensures Walk(later, cur, rest, fuel) == Future(t, cur, rest, fuel)
    decreases fuel, |rest|
  {
    if rest != [] {
      assert Housed(t, cur);
      match rest[0]
      case Root => LaterLookupIsDetermined(t, later, [], rest[1..], fuel);
      case Parent => LaterLookupIsDetermined(t, later, ParentOf(cur), rest[1..], fuel);
      case Name(n) =>
        match later[cur + [n]]
        case Dir => LaterLookupIsDetermined(t, later, cur + [n], rest[1..], fuel);
        case File => LaterLookupIsDetermined(t, later, cur + [n], rest[1..], fuel);
        case Link(target) => LaterLookupIsDetermined(t, later, cur, target + rest[1..], fuel - 1);
    }
  }

  /** What is found stays where it was found. */
  lemma {:induction false} FoundStaysFound(t: Tree, later: Tree, cur: Loc, rest: Path, fuel: nat)
    requires Grows(t, later) && Walk(t, cur, rest, fuel).Found?
    ensures Walk(later, cur, rest, fuel) == Walk(t, cur, rest, fuel)
    decreases fuel, |rest|
  {
    if rest != [] {
      match rest[0]
      case Root => FoundStaysFound(t, later, [], rest[1..], fuel);
      case Parent => FoundStaysFound(t, later, ParentOf(cur), rest[1..], fuel);
      case Name(n) =>
        match t[cur + [n]]
        case Dir => FoundStaysFound(t, later, cur + [n], rest[1..], fuel);
        case File => FoundStaysFound(t, later, cur + [n], rest[1..], fuel);
        case Link(target) => FoundStaysFound(t, later, cur, target + rest[1..], fuel - 1);
    }
  }

  /** The path resolves to where every later lookup of it lands. */
  ghost predicate LandsAsResolved(t: Tree, path: Path) {
    var r, future := TreeResolution(t, path), Future(t, [], path, LINK_LIMIT);
    r.Ok? && future.Found? && ToPath(future.loc) == r.value.resolvedIoPath
  }

  /** For every later tree in which the path exists: its lookup lands on the resolved path if and only
      if the lookup that was to be expected does. A path that exists already always does. */
  lemma LaterLookupLandsAsResolved(t: Tree, later: Tree, path: Path)
    requires ValidTree(t) && Grows(t, later) && Lookup(later, path).Found?
    requires TreeResolution(t, path).Ok?
    ensures ToPath(Lookup(later, path).loc) == TreeResolution(t, path).value.resolvedIoPath <==>
              LandsAsResolved(t, path)
    ensures Lookup(t, path).Found? ==> LandsAsResolved(t, path)
  {
    LaterLookupIsDetermined(t, later, [], path, LINK_LIMIT);
    if Lookup(t, path).Found? {
      FoundStaysFound(t, later, [], path, LINK_LIMIT);
    }
  }

  /** The object that the missing part of a path hangs from. */
  ghost function AnchorOf(t: Tree, path: Path): Loc
    requires Lookup(t, path).Missing?
  {
    Lookup(t, path[..ExistingPrefix(t, path)]).loc
  }

  ghost function MissingPart(t: Tree, path: Path): Path
    requires Lookup(t, path).Missing?
  {
    path[ExistingPrefix(t, path)..]
  }

  /** None of the names on the lexical way is a link. */
  predicate MeetsNoLink(t: Tree, anchor: Loc, steps: Path) {
    steps == []
    || (MeetsNoLink(t, anchor, steps[..|steps| - 1])
        && (steps[|steps| - 1].Name? ==> !IsLink(t, Landing(anchor, steps))))
  }

  /** A walk that meets no link lands where the lexical form says. */
  lemma {:induction false} LexicalWayIsWalked(t: Tree, anchor: Loc, steps: Path, fuel: nat)
    requires Root !in steps && !Climbs(steps) && MeetsNoLink(t, anchor, steps)
    requires Walk(t, anchor, steps, fuel).Found?
    ensures Walk(t, anchor, steps, fuel) == Found(Landing(anchor, steps), fuel)
    decreases |steps|
  {
    if steps != [] {
      var n := |steps| - 1;
      var front, last := steps[..n], steps[n];
      assert steps == front + [last] && steps[..n + 1] == steps;
      ClimbsOneMore(steps, n);
      WalkComposes(t, anchor, front, [last], fuel);
      LexicalWayIsWalked(t, anchor, front, fuel);
      LexicalDepth(front);
      LexicalDepth(steps);
      if last.Name? {
        LandingEnters(anchor, front, last);
        EnterObject(t, Landing(anchor, front), last.name, fuel);
      } else {
        LandingLeaves(anchor, front, last);
        assert [last][1..] == [];
      }
    }
  }

  lemma ToPathOfNames(anchor: Loc, names: Path)
    requires OnlyNames(names)
    ensures ToPath(anchor + NamesOf(names)) == ToPath(anchor) + names
  {}

  /** The first missing component names an entry all the same: a dangling link. */
  ghost predicate FirstMissingIsAnEntry(t: Tree, path: Path)
    requires Lookup(t, path).Missing?
  {
    var tail := MissingPart(t, path);
    tail != [] && tail[0].Name? && AnchorOf(t, path) + [tail[0].name] in t
  }

  /** The first missing component is a name in the anchor, and at most a dangling link is there. */
  lemma FirstMissing(t: Tree, path: Path)
    requires ValidPath(path) && Lookup(t, path).Missing?
    ensures var anchor, tail := AnchorOf(t, path), MissingPart(t, path);
            && tail != [] && tail[0].Name? && Root !in tail
            && (anchor + [tail[0].name] in t ==> IsLink(t, anchor + [tail[0].name]))
  {
    var k := ExistingPrefix(t, path);
    WalkOneMore(t, path, k, LINK_LIMIT);
    assert [path[k]][1..] == [];
    RootExists(t);
    assert path[..1] == [path[0]];
  }

  lemma {:induction false} GrowthAddsNoLink(t: Tree, later: Tree, anchor: Loc, steps: Path)
    requires Grows(t, later) && MeetsNoLink(t, anchor, steps)
    ensures MeetsNoLink(later, anchor, steps)
  {
    if steps != [] {
      GrowthAddsNoLink(t, later, anchor, steps[..|steps| - 1]);
    }
  }

  /** The prospective suffix is where the path leads once the missing names have been created, whatever
      else has been, if no name on its way is a link of today. */
  lemma ProspectiveSuffixIsTheFutureLookup(t: Tree, later: Tree, path: Path)
    requires ValidTree(t) && ValidPath(path) && Grows(t, later)
    requires Lookup(t, path).Missing? && TreeResolution(t, path).Ok? && Lookup(later, path).Found?
    requires MeetsNoLink(t, AnchorOf(t, path), MissingPart(t, path))
    ensures ToPath(Lookup(later, path).loc) == TreeResolution(t, path).value.resolvedIoPath
    ensures LandsAsResolved(t, path)
  {
    var k := ExistingPrefix(t, path);
    var anchor, tail := AnchorOf(t, path), MissingPart(t, path);
    FirstMissing(t, path);
    FoundStaysFound(t, later, [], path[..k], LINK_LIMIT);
    assert path == path[..k] + tail;
    WalkComposes(later, [], path[..k], tail, LINK_LIMIT);
    GrowthAddsNoLink(t, later, anchor, tail);
    LexicalWayIsWalked(later, anchor, tail, Lookup(t, path[..k]).fuel);
    LexicalIsNames(tail);
    ToPathOfNames(anchor, Lexical(tail));
    LaterLookupLandsAsResolved(t, later, path);
  }

  lemma {:induction false} NothingBelowTheMissing(t: Tree, loc: Loc, below: Loc)
    requires ValidTree(t) && loc != [] && loc !in t && loc <= below
    ensures below !in t
    decreases |below|
  {
    assert Housed(t, below);
    if loc != below {
      assert loc <= ParentOf(below);
      NothingBelowTheMissing(t, loc, ParentOf(below));
    }
  }

  /** Nothing is found below a link. */
  lemma {:induction false} NoObjectBelowALink(t: Tree, link: Loc, below: Loc)
    requires ValidTree(t) && IsLink(t, link) && link <= below
    ensures !IsObject(t, below)
    decreases |below|
  {
    assert Housed(t, below) && Housed(t, link);
    if link != below {
      assert link <= ParentOf(below);
      NoObjectBelowALink(t, link, ParentOf(below));
    }
  }

  lemma {:induction false} LexicalOfNames(path: Path)
    requires OnlyNames(path)
    ensures Lexical(path) == path && !Climbs(path)
  {
    if path != [] {
      var n := |path| - 1;
      LexicalOfNames(path[..n]);
      assert path[..n] + [path[n]] == path && path[..n + 1] == path;
      ClimbsOneMore(path, n);
      LexicalDepth(path[..n]);
    }
  }

  lemma {:induction false} NewNamesMeetNoLink(t: Tree, anchor: Loc, names: Path)
    requires ValidTree(t) && OnlyNames(names) && (names != [] ==> anchor + [names[0].name] !in t)
    ensures MeetsNoLink(t, anchor, names)
    decreases |names|
  {
    if names != [] {
      NewNamesMeetNoLink(t, anchor, names[..|names| - 1]);
      LexicalOfNames(names);
      assert anchor + [names[0].name] <= Landing(anchor, names);
      NothingBelowTheMissing(t, anchor + [names[0].name], Landing(anchor, names));
    }
  }

  lemma LinksLeadAway(t: Tree, anchor: Loc, names: Path, found: Loc)
    requires ValidTree(t) && OnlyNames(names) && names != [] && IsLink(t, anchor + [names[0].name])
             && IsObject(t, found)
    ensures ToPath(found) != ToPath(anchor) + names
  {
    ToPathOfNames(anchor, names);
    if ToPath(found) == ToPath(anchor) + names {
      ToPathIsInjective(found, anchor + NamesOf(names));
      assert anchor + [names[0].name] <= found;
      NoObjectBelowALink(t, anchor + [names[0].name], found);
    }
  }

  /** Where the missing part has no `..`, the later lookup lands on the resolved path exactly if the
      first missing component names no entry: a dangling link leads away from it. */
  lemma DanglingLinksDecide(t: Tree, later: Tree, path: Path)
    requires ValidTree(t) && ValidTree(later) && ValidPath(path) && Grows(t, later)
    requires Lookup(t, path).Missing? && OnlyNames(MissingPart(t, path)) && Lookup(later, path).Found?
    ensures TreeResolution(t, path).Ok?
    ensures ToPath(Lookup(later, path).loc) == TreeResolution(t, path).value.resolvedIoPath
            <==> !FirstMissingIsAnEntry(t, path)
  {
    MissingNamesResolve(t, path);
    if FirstMissingIsAnEntry(t, path) {
      DanglingLinkLeadsAway(t, later, path);
    } else {
      FirstMissing(t, path);
      NewNamesMeetNoLink(t, AnchorOf(t, path), MissingPart(t, path));
      ProspectiveSuffixIsTheFutureLookup(t, later, path);
    }
  }

  /** Missing names resolve to themselves behind the anchor. */
  lemma MissingNamesResolve(t: Tree, path: Path)
    requires Lookup(t, path).Missing? && OnlyNames(MissingPart(t, path))
    ensures var anchor, tail := ToPath(AnchorOf(t, path)), MissingPart(t, path);
            TreeResolution(t, path) == Ok(OrderedPathResolution(anchor + tail, anchor, tail))
  {
    LexicalOfNames(MissingPart(t, path));
  }

  lemma NamesResolveBehind(t: Tree, path: Path, k: nat, anchor: Loc, names: Path)
    requires k < |path| && path[k..] == names && OnlyNames(names)
    requires Lookup(t, path[..k]).Found? && Lookup(t, path[..k]).loc == anchor && Lookup(t, path[..k + 1]).Missing?
    ensures TreeResolution(t, path) == Ok(OrderedPathResolution(ToPath(anchor) + names, ToPath(anchor), names))
  {
    ExistingPrefixIsUnique(t, path, k);
    MissingNamesResolve(t, path);
  }

  lemma DanglingLinkLeadsAway(t: Tree, later: Tree, path: Path)
    requires ValidTree(later) && ValidPath(path) && Grows(t, later) && Lookup(t, path).Missing?
    requires OnlyNames(MissingPart(t, path)) && Lookup(later, path).Found? && FirstMissingIsAnEntry(t, path)
    ensures ToPath(Lookup(later, path).loc) != ToPath(AnchorOf(t, path)) + MissingPart(t, path)
  {
    FirstMissing(t, path);
    WalkFindsObjects(later, [], path, LINK_LIMIT);
    LinksLeadAway(later, AnchorOf(t, path), MissingPart(t, path), Lookup(later, path).loc);
  }

  lemma LexicalOneMore(front: Path, last: Component)
    ensures last.Name? ==> Lexical(front + [last]) == Lexical(front) + [last]
    ensures last.Parent? && Lexical(front) != [] ==> Lexical(front + [last]) == Lexical(front)[..|Lexical(front)| - 1]
    ensures Depth(front + [last]) == Depth(front) + (if last.Name? then 1 else if last.Parent? then -1 else 0)
    ensures Climbs(front + [last]) <==> Climbs(front) || Depth(front + [last]) < 0
  {
    assert (front + [last])[..|front|] == front && (front + [last])[..|front| + 1] == front + [last];
    ClimbsOneMore(front + [last], |front|);
  }

  lemma ThereAndBack(a: string, b: string)
    ensures Lexical([Name(a), Parent, Name(b)]) == [Name(b)] && !Climbs([Name(a), Parent, Name(b)])
  {
    LexicalOneMore([], Name(a));
    LexicalOneMore([Name(a)], Parent);
    LexicalOneMore([Name(a), Parent], Name(b));
    assert [] + [Name(a)] == [Name(a)] && [Name(a)] + [Parent] == [Name(a), Parent];
    assert [Name(a), Parent] + [Name(b)] == [Name(a), Parent, Name(b)];
  }

  /** Resolving `/a/../b` where `/a` is missing. */
  lemma ResolvesBack(t: Tree, a: string, b: string)
    requires Walk(t, [], [Name(a)], LINK_LIMIT).Missing?
    ensures var path := [Root, Name(a), Parent, Name(b)];
            && Lookup(t, path).Missing? && (FirstMissingIsAnEntry(t, path) <==> [a] in t)
            && TreeResolution(t, path) == Ok(OrderedPathResolution([Root, Name(b)], [Root], [Name(b)]))
  {
    var path := [Root, Name(a), Parent, Name(b)];
    assert path[..1] == [Root] + [] && path[..2] == [Root] + [Name(a)];
    StepToRoot(t, [], [], LINK_LIMIT);
    StepToRoot(t, [], [Name(a)], LINK_LIMIT);
    ExistingPrefixIsUnique(t, path, 1);
    ThereAndBack(a, b);
    assert AnchorOf(t, path) == [] && [] + [a] == [a];
    assert path[1..] == [Name(a), Parent, Name(b)] && ToPath([]) == [Root] && [Root] + [Name(b)] == [Root, Name(b)];
  }

  /** Looking up `/a/../b` where `/a` leads to some directory below the root. */
  lemma FindsBack(t: Tree, a: string, b: string, dir: string, fuel: nat)
    requires Walk(t, [], [Name(a)], LINK_LIMIT) == Found([dir], fuel) && IsDir(t, [dir])
    ensures Lookup(t, [Root, Name(a), Parent, Name(b)]) == Walk(t, [], [Name(b)], fuel)
  {
    var path := [Root, Name(a), Parent, Name(b)];
    assert path == [Root] + ([Name(a)] + ([Parent] + [Name(b)]));
    StepToRoot(t, [], [Name(a)] + ([Parent] + [Name(b)]), LINK_LIMIT);
    WalkComposes(t, [], [Name(a)], [Parent] + [Name(b)], LINK_LIMIT);
    StepUp(t, [dir], [Name(b)], fuel);
  }

  /** What a single name leads to, through at most one link. */
  lemma OneName(t: Tree, n: string, fuel: nat)
    requires fuel > 0
    ensures [n] !in t ==> Walk(t, [], [Name(n)], fuel).Missing?
    ensures [n] in t && !t[[n]].Link? ==> Walk(t, [], [Name(n)], fuel) == Found([n], fuel)
    ensures IsLink(t, [n]) ==> Walk(t, [], [Name(n)], fuel) == Walk(t, [], t[[n]].target, fuel - 1)
  {
    assert [] + [n] == [n] && [Name(n)] + [] == [Name(n)];
    StepDown(t, [], n, [], fuel);
    if IsLink(t, [n]) {
      assert t[[n]].target + [] == t[[n]].target;
    }
  }

  lemma LandingSettles(t: Tree, later: Tree, path: Path, found: Loc, resolved: Path)
    requires ValidTree(t) && Grows(t, later) && Lookup(later, path).Found? && Lookup(later, path).loc == found
    requires TreeResolution(t, path).Ok? && TreeResolution(t, path).value.resolvedIoPath == resolved
    ensures LandsAsResolved(t, path) <==> ToPath(found) == resolved
  {
    LaterLookupLandsAsResolved(t, later, path);
  }

  lemma LinkToANeighbour(t: Tree, later: Tree)
    requires ValidTree(t) && Grows(t, later)
    requires ["m"] in t && t[["m"]] == Link([Name("x")]) && ["x"] !in t
    requires ["x"] in later && later[["x"]].Dir? && ["q"] in later && later[["q"]].File?
    ensures var path := [Root, Name("m"), Parent, Name("q")];
            && Lookup(t, path).Missing? && Lookup(later, path).Found?
            && FirstMissingIsAnEntry(t, path) && LandsAsResolved(t, path)
  {
    var path := [Root, Name("m"), Parent, Name("q")];
    OneName(t, "m", LINK_LIMIT);
    OneName(t, "x", LINK_LIMIT - 1);
    ResolvesBack(t, "m", "q");
    OneName(later, "m", LINK_LIMIT);
    OneName(later, "x", LINK_LIMIT - 1);
    FindsBack(later, "m", "q", "x", LINK_LIMIT - 1);
    OneName(later, "q", LINK_LIMIT - 1);
    assert ToPath(["q"]) == [Root, Name("q")];
    LandingSettles(t, later, path, ["q"], [Root, Name("q")]);
  }

  lemma LinkNextDoor(t: Tree, later: Tree)
    requires ValidTree(t) && Grows(t, later)
    requires ["m"] in t && t[["m"]] == Link([Name("b")]) && ["n"] !in t
    requires ["n"] in later && later[["n"]].Dir? && ["b"] in later && later[["b"]].File?
    ensures var path := [Root, Name("n"), Parent, Name("m")];
            && Lookup(t, path).Missing? && Lookup(later, path).Found? && !FirstMissingIsAnEntry(t, path)
            && TreeResolution(t, path).Ok? && !LandsAsResolved(t, path)
  {
    var path := [Root, Name("n"), Parent, Name("m")];
    OneName(t, "n", LINK_LIMIT);
    ResolvesBack(t, "n", "m");
    OneName(later, "n", LINK_LIMIT);
    FindsBack(later, "n", "m", "n", LINK_LIMIT);
    OneName(later, "m", LINK_LIMIT);
    OneName(later, "b", LINK_LIMIT - 1);
    assert ToPath(["b"]) == [Root, Name("b")];
    LandingSettles(t, later, path, ["b"], [Root, Name("m")]);
  }

  /** With `..` in the missing part the first missing component does not decide. Here it is a dangling
      link, but `..` leaves its referent again, and the later lookup lands on the resolved path. */
  lemma DotDotLeavesTheReferent() returns (t: Tree, later: Tree, path: Path)
    ensures ValidTree(t) && ValidTree(later) && ValidPath(path) && Grows(t, later)
    ensures Lookup(t, path).Missing? && Lookup(later, path).Found? && FirstMissingIsAnEntry(t, path)
    ensures LandsAsResolved(t, path)
  {
    t, path := map[["m"] := Link([Name("x")])], [Root, Name("m"), Parent, Name("q")];
    later := t[["x"] := Dir][["q"] := File];
    LinkToANeighbour(t, later);
  }

  /** Here it is no entry, but `..` leads back to the anchor and on through a link. */
  lemma DotDotLeadsToALink() returns (t: Tree, later: Tree, path: Path)
    ensures ValidTree(t) && ValidTree(later) && ValidPath(path) && Grows(t, later)
    ensures Lookup(t, path).Missing? && Lookup(later, path).Found? && !FirstMissingIsAnEntry(t, path)
    ensures TreeResolution(t, path).Ok? && !LandsAsResolved(t, path)
  {
    t, path := map[["m"] := Link([Name("b")])], [Root, Name("n"), Parent, Name("m")];
    later := t[["n"] := Dir][["b"] := File];
    LinkNextDoor(t, later);
  }

  /** A resolved path lies under its ancestor, and only names follow the ancestor. */
  lemma ResolvedPathLiesUnderAncestor(t: Tree, path: Path)
    ensures var r := TreeResolution(t, path);
            r.Ok? ==>
              && r.value.resolvedIoPath == r.value.canonicalExistingAncestor + r.value.suffix
              && OnlyNames(r.value.suffix)
  {
    if Lookup(t, path).Missing? {
      LexicalIsNames(path[ExistingPrefix(t, path)..]);
    }
  }
}
