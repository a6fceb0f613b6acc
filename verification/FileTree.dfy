/** A finite file tree with symbolic links and the kernel's component-by-component lookup. */
module FileTree {
  import opened Paths

  datatype Node = Dir | File | Link(target: Path)

  /** A canonical location: the names below the root, with no `..` and no alias. */
  type Loc = seq<string>

  /** Every object but the root directory. */
  type Tree = map<Loc, Node>

  /** The number of links one lookup may follow before it fails with a loop error. */
  const LINK_LIMIT: nat := 40

  predicate IsDir(t: Tree, loc: Loc) {
    loc == [] || (loc in t && t[loc].Dir?)
  }

  predicate IsLink(t: Tree, loc: Loc) {
    loc in t && t[loc].Link?
  }

  function ParentOf(loc: Loc): Loc {
    if loc == [] then [] else loc[..|loc| - 1]
  }

  /** The object sits in a directory. */
  predicate Housed(t: Tree, loc: Loc) {
    loc in t ==> loc != [] && IsDir(t, ParentOf(loc))
  }

  ghost predicate ValidTree(t: Tree) {
    forall loc {:trigger Housed(t, loc)} :: Housed(t, loc)
  }

  function ToPath(loc: Loc): Path {
    [Root] + seq(|loc|, i requires 0 <= i < |loc| => Name(loc[i]))
  }

  lemma ToPathIsInjective(a: Loc, b: Loc)
    requires ToPath(a) == ToPath(b)
    ensures a == b
  {
    forall i | 0 <= i < |a| ensures a[i] == b[i] {
      assert ToPath(a)[i + 1] == Name(a[i]) && ToPath(b)[i + 1] == Name(b[i]);
    }
  }

  /** The pathname of a link's referent, read from the directory that holds the link. */
  function TargetPath(t: Tree, link: Loc): Path
    requires IsLink(t, link)
  {
    Join(ToPath(ParentOf(link)), t[link].target)
  }

  /** `Missing` is the not-found error; `Failed` is any other (not a directory, too many links). */
  datatype Outcome = Found(loc: Loc, fuel: nat) | Missing | Failed

  /** Walk `rest` from `cur`, following every link, with at most `fuel` links to follow. */
  function Walk(t: Tree, cur: Loc, rest: Path, fuel: nat): Outcome
    decreases fuel, |rest|
  {
    if rest == [] then Found(cur, fuel)
    else match rest[0]
      case Root => Walk(t, [], rest[1..], fuel)
      case Parent => if IsDir(t, cur) then Walk(t, ParentOf(cur), rest[1..], fuel) else Failed
      case Name(n) =>
        if !IsDir(t, cur) then Failed
        else if cur + [n] !in t then Missing
        else match t[cur + [n]]
          case Dir => Walk(t, cur + [n], rest[1..], fuel)
          case File => Walk(t, cur + [n], rest[1..], fuel)
          case Link(target) => if fuel == 0 then Failed else Walk(t, cur, target + rest[1..], fuel - 1)
  }

  /** The links that `Walk` follows. */
  function Followed(t: Tree, cur: Loc, rest: Path, fuel: nat): set<Loc>
    decreases fuel, |rest|
  {
    if rest == [] then {}
    else match rest[0]
      case Root => Followed(t, [], rest[1..], fuel)
      case Parent => if IsDir(t, cur) then Followed(t, ParentOf(cur), rest[1..], fuel) else {}
      case Name(n) =>
        if !IsDir(t, cur) || cur + [n] !in t then {}
        else match t[cur + [n]]
          case Dir => Followed(t, cur + [n], rest[1..], fuel)
          case File => Followed(t, cur + [n], rest[1..], fuel)
          case Link(target) =>
            if fuel == 0 then {} else {cur + [n]} + Followed(t, cur, target + rest[1..], fuel - 1)
  }

  /** What `canonicalize` and `metadata` look up. */
  function Lookup(t: Tree, path: Path): Outcome {
    Walk(t, [], path, LINK_LIMIT)
  }

  /** Walking `a` and then `b` is walking `a + b`. */
  lemma {:induction false} WalkComposes(t: Tree, cur: Loc, a: Path, b: Path, fuel: nat)
    ensures Walk(t, cur, a + b, fuel) ==
            (match Walk(t, cur, a, fuel) case Found(c, f) => Walk(t, c, b, f) case other => other)
    ensures Followed(t, cur, a + b, fuel) == Followed(t, cur, a, fuel) +
            (match Walk(t, cur, a, fuel) case Found(c, f) => Followed(t, c, b, f) case _ => {})
    decreases fuel, |a|
  {
    if a == [] {
      assert a + b == b;
    } else {
      assert (a + b)[1..] == a[1..] + b;
      match a[0]
      case Root => WalkComposes(t, [], a[1..], b, fuel);
      case Parent => WalkComposes(t, ParentOf(cur), a[1..], b, fuel);
      case Name(n) =>
        if IsDir(t, cur) && cur + [n] in t {
          match t[cur + [n]]
          case Dir => WalkComposes(t, cur + [n], a[1..], b, fuel);
          case File => WalkComposes(t, cur + [n], a[1..], b, fuel);
          case Link(target) =>
            assert target + (a[1..] + b) == (target + a[1..]) + b;
            if fuel > 0 {
              WalkComposes(t, cur, target + a[1..], b, fuel - 1);
            }
        }
    }
  }

  /** More fuel changes neither the object found nor the links followed. */
  lemma {:induction false} WalkIsFuelMonotone(t: Tree, cur: Loc, rest: Path, fuel: nat, more: nat)
    requires !Walk(t, cur, rest, fuel).Failed?
    ensures Walk(t, cur, rest, fuel + more) ==
            (match Walk(t, cur, rest, fuel) case Found(c, f) => Found(c, f + more) case other => other)
    ensures Followed(t, cur, rest, fuel + more) == Followed(t, cur, rest, fuel)
    decreases fuel, |rest|
  {
    if rest != [] {
      match rest[0]
      case Root => WalkIsFuelMonotone(t, [], rest[1..], fuel, more);
      case Parent => WalkIsFuelMonotone(t, ParentOf(cur), rest[1..], fuel, more);
      case Name(n) =>
        if cur + [n] in t {
          match t[cur + [n]]
          case Dir => WalkIsFuelMonotone(t, cur + [n], rest[1..], fuel, more);
          case File => WalkIsFuelMonotone(t, cur + [n], rest[1..], fuel, more);
          case Link(target) => WalkIsFuelMonotone(t, cur, target + rest[1..], fuel - 1, more);
        }
    }
  }

  /** An existing object that is not a link: what a lookup can arrive at. */
  predicate IsObject(t: Tree, loc: Loc) {
    loc == [] || (loc in t && !t[loc].Link?)
  }

  lemma {:induction false} WalkFindsObjects(t: Tree, cur: Loc, rest: Path, fuel: nat)
    requires ValidTree(t) && IsObject(t, cur)
    ensures var r := Walk(t, cur, rest, fuel); r.Found? ==> IsObject(t, r.loc) && r.fuel <= fuel
    decreases fuel, |rest|
  {
    if rest != [] {
      assert Housed(t, cur);
      match rest[0]
      case Root => WalkFindsObjects(t, [], rest[1..], fuel);
      case Parent => if IsDir(t, cur) { WalkFindsObjects(t, ParentOf(cur), rest[1..], fuel); }
      case Name(n) =>
        if IsDir(t, cur) && cur + [n] in t {
          match t[cur + [n]]
          case Dir => WalkFindsObjects(t, cur + [n], rest[1..], fuel);
          case File => WalkFindsObjects(t, cur + [n], rest[1..], fuel);
          case Link(target) => if fuel > 0 { WalkFindsObjects(t, cur, target + rest[1..], fuel - 1); }
        }
    }
  }

  /** Entering one object that is not a link. */
  lemma EnterObject(t: Tree, dir: Loc, n: string, fuel: nat)
    requires IsDir(t, dir) && dir + [n] in t && !t[dir + [n]].Link?
    ensures Walk(t, dir, [Name(n)], fuel) == Found(dir + [n], fuel)
    ensures Followed(t, dir, [Name(n)], fuel) == {}
  {
    assert [Name(n)][1..] == [];
  }

  lemma ToPathGrows(loc: Loc)
    requires loc != []
    ensures ToPath(loc) == ToPath(ParentOf(loc)) + [Name(loc[|loc| - 1])]
  {}

  /** Canonical pathnames are fixed points: their lookup follows no link and lands where it says. */
  lemma {:induction false} CanonicalPathsAreFixed(t: Tree, loc: Loc, fuel: nat)
    requires ValidTree(t) && IsObject(t, loc)
    ensures Walk(t, [], ToPath(loc), fuel) == Found(loc, fuel)
    ensures Followed(t, [], ToPath(loc), fuel) == {}
    decreases |loc|
  {
    if loc == [] {
      assert ToPath(loc) == [Root];
      assert Walk(t, [], [Root][1..], fuel) == Found([], fuel);
    } else {
      var parent, last := ParentOf(loc), loc[|loc| - 1];
      assert parent + [last] == loc;
      assert Housed(t, loc);
      ToPathGrows(loc);
      CanonicalPathsAreFixed(t, parent, fuel);
      EnterObject(t, parent, last, fuel);
      WalkComposes(t, [], ToPath(parent), [Name(last)], fuel);
    }
  }

  lemma CanonicalizationIsIdempotent(t: Tree, path: Path)
    requires ValidTree(t) && Lookup(t, path).Found?
    ensures var c := Lookup(t, path).loc; Lookup(t, ToPath(c)) == Found(c, LINK_LIMIT)
  {
    WalkFindsObjects(t, [], path, LINK_LIMIT);
    CanonicalPathsAreFixed(t, Lookup(t, path).loc, LINK_LIMIT);
  }

  /** Following a link found in directory `dir` is looking up its target pathname. */
  lemma LinkWalkIsTargetWalk(t: Tree, dir: Loc, n: string, fuel: nat)
    requires ValidTree(t) && IsDir(t, dir) && IsLink(t, dir + [n])
    ensures Walk(t, [], TargetPath(t, dir + [n]), fuel) == Walk(t, dir, t[dir + [n]].target, fuel)
    ensures Followed(t, [], TargetPath(t, dir + [n]), fuel) == Followed(t, dir, t[dir + [n]].target, fuel)
  {
    assert ParentOf(dir + [n]) == dir;
    var target := t[dir + [n]].target;
    if !IsAbsolute(target) {
      CanonicalPathsAreFixed(t, dir, fuel);
      WalkComposes(t, [], ToPath(dir), target, fuel);
    }
  }

  // ---- One step at a time. ----

  lemma StepToRoot(t: Tree, cur: Loc, rest: Path, fuel: nat)
    ensures Walk(t, cur, [Root] + rest, fuel) == Walk(t, [], rest, fuel)
    ensures Followed(t, cur, [Root] + rest, fuel) == Followed(t, [], rest, fuel)
  {
    assert ([Root] + rest)[1..] == rest;
  }

  lemma StepUp(t: Tree, cur: Loc, rest: Path, fuel: nat)
    requires IsDir(t, cur)
    ensures Walk(t, cur, [Parent] + rest, fuel) == Walk(t, ParentOf(cur), rest, fuel)
  {
    assert ([Parent] + rest)[1..] == rest;
  }

  /** A name in a directory: entered, followed, or missed. */
  lemma StepDown(t: Tree, cur: Loc, n: string, rest: Path, fuel: nat)
    requires IsDir(t, cur)
    ensures cur + [n] !in t ==>
              Walk(t, cur, [Name(n)] + rest, fuel) == Missing && Followed(t, cur, [Name(n)] + rest, fuel) == {}
    ensures cur + [n] in t && !t[cur + [n]].Link? ==>
              && Walk(t, cur, [Name(n)] + rest, fuel) == Walk(t, cur + [n], rest, fuel)
              && Followed(t, cur, [Name(n)] + rest, fuel) == Followed(t, cur + [n], rest, fuel)
    ensures IsLink(t, cur + [n]) && fuel > 0 ==>
              && Walk(t, cur, [Name(n)] + rest, fuel) == Walk(t, cur, t[cur + [n]].target + rest, fuel - 1)
              && Followed(t, cur, [Name(n)] + rest, fuel) ==
                   {cur + [n]} + Followed(t, cur, t[cur + [n]].target + rest, fuel - 1)
  {
    assert ([Name(n)] + rest)[1..] == rest;
  }

  /** One component past a successful prefix. */
  lemma WalkOneMore(t: Tree, path: Path, j: nat, fuel: nat)
    requires j < |path|
    ensures Walk(t, [], path[..j + 1], fuel) ==
            (match Walk(t, [], path[..j], fuel) case Found(c, f) => Walk(t, c, [path[j]], f) case other => other)
    ensures Followed(t, [], path[..j + 1], fuel) == Followed(t, [], path[..j], fuel) +
            (match Walk(t, [], path[..j], fuel) case Found(c, f) => Followed(t, c, [path[j]], f) case _ => {})
  {
    assert path[..j + 1] == path[..j] + [path[j]];
    WalkComposes(t, [], path[..j], [path[j]], fuel);
  }

  /** A prefix fails no later than the whole, and follows no other links. */
  lemma PrefixOutcome(t: Tree, path: Path, j: nat, fuel: nat)
    requires j <= |path|
    ensures !Walk(t, [], path[..j], fuel).Found? ==> Walk(t, [], path, fuel) == Walk(t, [], path[..j], fuel)
    ensures Followed(t, [], path[..j], fuel) <= Followed(t, [], path, fuel)
  {
    assert path == path[..j] + path[j..];
    WalkComposes(t, [], path[..j], path[j..], fuel);
  }
}
