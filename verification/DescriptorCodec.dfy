/** The interning descriptor codec: schema-3 storage of claims, and its schema-2 predecessor. */
module DescriptorCodec {
  import opened Wrappers
  import opened Paths
  import opened Claims

  /** Path indexes are 32-bit unsigned. */
  const MAX_PATHS: nat := 0x1_0000_0000

  datatype CodecError = TooManyPaths | IndexOutsideTable | UnsupportedSchema

  datatype CompactPathClaimV3 = CompactPathClaimV3(
    original: nat,
    namespacePath: nat,
    namespaceDependencies: seq<nat>,
    resolvedIoPath: nat,
    canonicalExistingAncestor: nat,
    suffix: nat,
    dev: Option<nat>,
    ino: Option<nat>,
    mode: ClaimMode,
    scope: ClaimScope)

  datatype CompactResolvedPathIdentityV2 = CompactResolvedPathIdentityV2(
    original: nat,
    namespacePath: nat,
    namespaceDependencies: seq<nat>,
    resolvedIoPath: nat,
    canonicalExistingAncestor: nat,
    suffix: nat,
    dev: Option<nat>,
    ino: Option<nat>)

  datatype CompactPathClaimV2 = CompactPathClaimV2(
    identity: CompactResolvedPathIdentityV2,
    mode: ClaimMode,
    scope: ClaimScope)

  /** Which storage schema a descriptor was written with, and its claim section. */
  datatype Wire =
    | WireV1(claims1: seq<PathClaim>)
    | WireV2(paths2: seq<Path>, claims2: seq<CompactPathClaimV2>)
    | WireV3(paths: seq<Path>, claims: seq<CompactPathClaimV3>)
    | WireOther(schema: nat)

  function CompactPath(paths: seq<Path>, index: nat): Result<Path, CodecError> {
    if index < |paths| then Ok(paths[index]) else Err(IndexOutsideTable)
  }

  function CompactPathList(paths: seq<Path>, indexes: seq<nat>): Result<seq<Path>, CodecError> {
    if indexes == [] then Ok([])
    else match CompactPath(paths, indexes[0])
      case Err(e) => Err(e)
      case Ok(first) =>
        match CompactPathList(paths, indexes[1..])
        case Err(e) => Err(e)
        case Ok(rest) => Ok([first] + rest)
  }

  function ExpandIdentity(paths: seq<Path>, original: nat, namespacePath: nat, dependencies: seq<nat>,
                          resolved: nat, ancestor: nat, suffix: nat, dev: Option<nat>, ino: Option<nat>)
    : Result<ResolvedPathIdentity, CodecError>
  {
    match (CompactPath(paths, original), CompactPath(paths, namespacePath), CompactPathList(paths, dependencies),
           CompactPath(paths, resolved), CompactPath(paths, ancestor), CompactPath(paths, suffix))
    case (Ok(o), Ok(n), Ok(d), Ok(r), Ok(a), Ok(s)) => Ok(ResolvedPathIdentity(o, n, d, r, a, s, dev, ino))
    case _ => Err(IndexOutsideTable)
  }

  function ExpandClaimV3(paths: seq<Path>, c: CompactPathClaimV3): Result<PathClaim, CodecError> {
    match ExpandIdentity(paths, c.original, c.namespacePath, c.namespaceDependencies, c.resolvedIoPath,
                         c.canonicalExistingAncestor, c.suffix, c.dev, c.ino)
    case Err(e) => Err(e)
    case Ok(identity) => Ok(PathClaim(identity, c.mode, c.scope))
  }

  function ExpandClaimV2(paths: seq<Path>, c: CompactPathClaimV2): Result<PathClaim, CodecError> {
    var i := c.identity;
    match ExpandIdentity(paths, i.original, i.namespacePath, i.namespaceDependencies, i.resolvedIoPath,
                         i.canonicalExistingAncestor, i.suffix, i.dev, i.ino)
    case Err(e) => Err(e)
    case Ok(identity) => Ok(PathClaim(identity, c.mode, c.scope))
  }

  function ExpandClaimsV3(paths: seq<Path>, cs: seq<CompactPathClaimV3>): Result<seq<PathClaim>, CodecError> {
    if cs == [] then Ok([])
    else match (ExpandClaimV3(paths, cs[0]), ExpandClaimsV3(paths, cs[1..]))
      case (Ok(first), Ok(rest)) => Ok([first] + rest)
      case _ => Err(IndexOutsideTable)
  }

  function ExpandClaimsV2(paths: seq<Path>, cs: seq<CompactPathClaimV2>): Result<seq<PathClaim>, CodecError> {
    if cs == [] then Ok([])
    else match (ExpandClaimV2(paths, cs[0]), ExpandClaimsV2(paths, cs[1..]))
      case (Ok(first), Ok(rest)) => Ok([first] + rest)
      case _ => Err(IndexOutsideTable)
  }

  function DecodeClaims(wire: Wire): Result<seq<PathClaim>, CodecError> {
    match wire
    case WireV1(claims) => Ok(claims)
    case WireV2(paths, claims) => ExpandClaimsV2(paths, claims)
    case WireV3(paths, claims) => ExpandClaimsV3(paths, claims)
    case WireOther(_) => Err(UnsupportedSchema)
  }

  // ---- Expansion rejects exactly the out-of-range indexes. ----

  predicate IndexesInRange(paths: seq<Path>, c: CompactPathClaimV3) {
    && c.original < |paths| && c.namespacePath < |paths| && c.resolvedIoPath < |paths|
    && c.canonicalExistingAncestor < |paths| && c.suffix < |paths|
    && forall i :: 0 <= i < |c.namespaceDependencies| ==> c.namespaceDependencies[i] < |paths|
  }

  lemma {:induction false} CompactPathListReadsEachIndex(paths: seq<Path>, indexes: seq<nat>)
    ensures var r := CompactPathList(paths, indexes);
            && (r.Ok? <==> forall i :: 0 <= i < |indexes| ==> indexes[i] < |paths|)
            && (r.Ok? ==> |r.value| == |indexes| && forall i :: 0 <= i < |indexes| ==> r.value[i] == paths[indexes[i]])
  {
    if indexes != [] {
      CompactPathListReadsEachIndex(paths, indexes[1..]);
      assert forall i :: 1 <= i < |indexes| ==> indexes[i] == indexes[1..][i - 1];
    }
  }

  lemma {:induction false} ExpansionRejectsExactlyOutOfRange(paths: seq<Path>, cs: seq<CompactPathClaimV3>)
    ensures ExpandClaimsV3(paths, cs).Ok? <==> forall i :: 0 <= i < |cs| ==> IndexesInRange(paths, cs[i])
  {
    if cs != [] {
      CompactPathListReadsEachIndex(paths, cs[0].namespaceDependencies);
      assert ExpandClaimV3(paths, cs[0]).Ok? <==> IndexesInRange(paths, cs[0]);
      ExpansionRejectsExactlyOutOfRange(paths, cs[1..]);
      assert forall i :: 1 <= i < |cs| ==> cs[i] == cs[1..][i - 1];
    }
  }

  // ---- Schema 2 and schema 3 describe the same claims. ----

  function ToV2(c: CompactPathClaimV3): CompactPathClaimV2 {
    CompactPathClaimV2(
      CompactResolvedPathIdentityV2(c.original, c.namespacePath, c.namespaceDependencies, c.resolvedIoPath,
                                    c.canonicalExistingAncestor, c.suffix, c.dev, c.ino),
      c.mode, c.scope)
  }

  function ToV2List(cs: seq<CompactPathClaimV3>): seq<CompactPathClaimV2> {
    seq(|cs|, i requires 0 <= i < |cs| => ToV2(cs[i]))
  }

  lemma {:induction false} SchemasAgree(paths: seq<Path>, cs: seq<CompactPathClaimV3>)
    ensures DecodeClaims(WireV2(paths, ToV2List(cs))) == DecodeClaims(WireV3(paths, cs))
  {
    if cs != [] {
      SchemasAgree(paths, cs[1..]);
      assert ToV2List(cs)[1..] == ToV2List(cs[1..]);
    }
  }

  // ---- Interning never makes an earlier index stale. ----

  lemma {:induction false} ListSurvivesGrowth(paths: seq<Path>, grown: seq<Path>, indexes: seq<nat>)
    requires paths <= grown && CompactPathList(paths, indexes).Ok?
    ensures CompactPathList(grown, indexes) == CompactPathList(paths, indexes)
  {
    if indexes != [] {
      ListSurvivesGrowth(paths, grown, indexes[1..]);
    }
  }

  lemma ClaimSurvivesGrowth(paths: seq<Path>, grown: seq<Path>, c: CompactPathClaimV3)
    requires paths <= grown && ExpandClaimV3(paths, c).Ok?
    ensures ExpandClaimV3(grown, c) == ExpandClaimV3(paths, c)
  {
    ListSurvivesGrowth(paths, grown, c.namespaceDependencies);
  }

  lemma {:induction false} ClaimsSurviveGrowth(paths: seq<Path>, grown: seq<Path>, cs: seq<CompactPathClaimV3>)
    requires paths <= grown && ExpandClaimsV3(paths, cs).Ok?
    ensures ExpandClaimsV3(grown, cs) == ExpandClaimsV3(paths, cs)
  {
    if cs != [] {
      ClaimSurvivesGrowth(paths, grown, cs[0]);
      ClaimsSurviveGrowth(paths, grown, cs[1..]);
    }
  }

  lemma {:induction false} ListExtends(paths: seq<Path>, indexes: seq<nat>, last: nat)
    requires CompactPathList(paths, indexes).Ok? && last < |paths|
    ensures CompactPathList(paths, indexes + [last]) == Ok(CompactPathList(paths, indexes).value + [paths[last]])
  {
    if indexes == [] {
      assert indexes + [last] == [last] && [last][1..] == [];
      assert [] + [paths[last]] == [paths[last]] + [];
    } else {
      assert (indexes + [last])[1..] == indexes[1..] + [last];
      ListExtends(paths, indexes[1..], last);
      var first, rest := paths[indexes[0]], CompactPathList(paths, indexes[1..]).value;
      assert [first] + (rest + [paths[last]]) == ([first] + rest) + [paths[last]];
    }
  }

  lemma {:induction false} ClaimsExtend(paths: seq<Path>, cs: seq<CompactPathClaimV3>, last: CompactPathClaimV3)
    requires ExpandClaimsV3(paths, cs).Ok? && ExpandClaimV3(paths, last).Ok?
    ensures ExpandClaimsV3(paths, cs + [last]) ==
            Ok(ExpandClaimsV3(paths, cs).value + [ExpandClaimV3(paths, last).value])
  {
    if cs == [] {
      assert cs + [last] == [last] && [last][1..] == [];
      var claim := ExpandClaimV3(paths, last).value;
      assert [] + [claim] == [claim] + [];
    } else {
      assert (cs + [last])[1..] == cs[1..] + [last];
      ClaimsExtend(paths, cs[1..], last);
      var first, rest := ExpandClaimV3(paths, cs[0]).value, ExpandClaimsV3(paths, cs[1..]).value;
      var claim := ExpandClaimV3(paths, last).value;
      assert [first] + (rest + [claim]) == ([first] + rest) + [claim];
    }
  }

  lemma NextIndex(paths: seq<Path>, grown: seq<Path>, out: seq<nat>, list: seq<Path>, i: nat, index: nat)
    requires i < |list| && paths <= grown
    requires CompactPathList(paths, out) == Ok(list[..i])
    requires index < |grown| && grown[index] == list[i]
    ensures CompactPathList(grown, out + [index]) == Ok(list[..i + 1])
  {
    ListSurvivesGrowth(paths, grown, out);
    ListExtends(grown, out, index);
    assert list[..i + 1] == list[..i] + [list[i]];
  }

  lemma NextClaim(paths: seq<Path>, grown: seq<Path>, out: seq<CompactPathClaimV3>, claims: seq<PathClaim>, i: nat,
                  c: CompactPathClaimV3)
    requires i < |claims| && paths <= grown
    requires ExpandClaimsV3(paths, out) == Ok(claims[..i])
    requires ExpandClaimV3(grown, c) == Ok(claims[i])
    ensures ExpandClaimsV3(grown, out + [c]) == Ok(claims[..i + 1])
  {
    ClaimsSurviveGrowth(paths, grown, out);
    ClaimsExtend(grown, out, c);
    assert claims[..i + 1] == claims[..i] + [claims[i]];
  }

  // ---- Which paths a list of claims mentions. ----

  function PathsOfList(list: seq<Path>): set<Path> {
    set p | p in list
  }

  function PathsOfClaim(c: PathClaim): set<Path> {
    var i := c.identity;
    {i.original, i.namespacePath} + PathsOfList(i.namespaceDependencies)
    + ({i.resolvedIoPath, i.canonicalExistingAncestor} + {i.suffix})
  }

  /** `known`, extended by the pathnames of one identity in the order they are interned. */
  function WithPathsOf(known: set<Path>, i: ResolvedPathIdentity): set<Path> {
    (known + {i.original, i.namespacePath}) + PathsOfList(i.namespaceDependencies)
    + ({i.resolvedIoPath, i.canonicalExistingAncestor} + {i.suffix})
  }

  function PathsOfClaims(cs: seq<PathClaim>): set<Path> {
    set c, p | c in cs && p in PathsOfClaim(c) :: p
  }

  predicate DuplicateFree(s: seq<Path>) {
    forall i, j :: 0 <= i < j < |s| ==> s[i] != s[j]
  }

  lemma PathsOfListStep(list: seq<Path>, i: nat)
    requires i < |list|
    ensures PathsOfList(list[..i + 1]) == PathsOfList(list[..i]) + {list[i]}
    ensures PathsOfList(list[..i + 1]) <= PathsOfList(list)
  {
    assert list[..i + 1] == list[..i] + [list[i]];
  }

  lemma PathsOfClaimsStep(cs: seq<PathClaim>, i: nat)
    requires i < |cs|
    ensures PathsOfClaims(cs[..i + 1]) == PathsOfClaims(cs[..i]) + PathsOfClaim(cs[i])
    ensures PathsOfClaims(cs[..i + 1]) <= PathsOfClaims(cs)
  {
    assert cs[..i + 1] == cs[..i] + [cs[i]];
    var here := PathsOfClaims(cs[..i]) + PathsOfClaim(cs[i]);
    forall p ensures p in PathsOfClaims(cs[..i + 1]) <==> p in here {
      if p in PathsOfClaim(cs[i]) {
        assert cs[i] in cs[..i + 1];
      }
      if p in PathsOfClaims(cs[..i]) {
        var c :| c in cs[..i] && p in PathsOfClaim(c);
        assert c in cs[..i + 1];
      }
      if p in PathsOfClaims(cs[..i + 1]) {
        var c :| c in cs[..i + 1] && p in PathsOfClaim(c);
        assert c in cs[..i] || c == cs[i];
      }
    }
  }

  lemma SubsetIsNoLarger(a: set<Path>, b: set<Path>)
    requires a <= b
    ensures |a| <= |b|
  {
    var rest := b - a;
    assert b == a + rest;
  }

  /** A full table that misses a wanted path proves that there are too many. */
  lemma OverflowExceeds(known: set<Path>, wanted: set<Path>)
    requires |known| == MAX_PATHS && known <= wanted && known != wanted
    ensures |wanted| > MAX_PATHS
  {
    var p :| p in wanted && p !in known;
    SubsetIsNoLarger(known + {p}, wanted);
  }

  /** Each pathname field of `c` indexes the corresponding pathname of `identity`. */
  predicate FieldsMatch(paths: seq<Path>, c: CompactPathClaimV3, identity: ResolvedPathIdentity) {
    && CompactPath(paths, c.original) == Ok(identity.original)
    && CompactPath(paths, c.namespacePath) == Ok(identity.namespacePath)
    && CompactPathList(paths, c.namespaceDependencies) == Ok(identity.namespaceDependencies)
    && CompactPath(paths, c.resolvedIoPath) == Ok(identity.resolvedIoPath)
    && CompactPath(paths, c.canonicalExistingAncestor) == Ok(identity.canonicalExistingAncestor)
    && CompactPath(paths, c.suffix) == Ok(identity.suffix)
  }

  /** Matching fields and the claim's own data expand to the claim. */
  lemma FieldsExpand(paths: seq<Path>, c: CompactPathClaimV3, claim: PathClaim)
    requires FieldsMatch(paths, c, claim.identity)
    requires c.dev == claim.identity.dev && c.ino == claim.identity.ino && c.mode == claim.mode
             && c.scope == claim.scope
    ensures ExpandClaimV3(paths, c) == Ok(claim)
  {}

  lemma ClaimPathsAre(start: set<Path>, claim: PathClaim)
    ensures start + PathsOfClaim(claim) == WithPathsOf(start, claim.identity)
  {}

  /** The descriptor-level path table under construction. */
  class DescriptorPathInterner {
    var paths: seq<Path>
    var indexes: map<Path, nat>

    ghost predicate Valid()
      reads this
    {
      && |indexes.Keys| == |paths| <= MAX_PATHS
      && (forall p :: p in indexes ==> indexes[p] < |paths| && paths[indexes[p]] == p)
      && (forall i :: 0 <= i < |paths| ==> paths[i] in indexes && indexes[paths[i]] == i)
    }

    /** The table is full and some wanted path is not in it. */
    ghost predicate Overflowing(earlier: set<Path>, wanted: set<Path>)
      reads this
    {
      |indexes.Keys| == MAX_PATHS && indexes.Keys < earlier + wanted
    }

    constructor ()
      ensures Valid() && paths == [] && indexes.Keys == {}
    {
      paths, indexes := [], map[];
    }

    method Intern(path: Path) returns (r: Result<nat, CodecError>)
      requires Valid()
      modifies this
      ensures Valid() && old(paths) <= paths
      ensures r.Ok? ==> indexes.Keys == old(indexes.Keys) + {path}
      ensures r.Ok? ==> r.value < |paths| && paths[r.value] == path
      ensures r.Err? ==> r == Err(TooManyPaths) && paths == old(paths) && indexes == old(indexes)
      ensures r.Err? <==> path !in old(indexes) && |old(paths)| == MAX_PATHS
    {
      if path in indexes {
        return Ok(indexes[path]);
      }
      if |paths| >= MAX_PATHS {
        return Err(TooManyPaths);
      }
      var index := |paths|;
      paths := paths + [path];
      indexes := indexes[path := index];
      assert indexes.Keys == old(indexes.Keys) + {path};
      r := Ok(index);
    }

    method InternAll(list: seq<Path>) returns (r: Result<seq<nat>, CodecError>)
      requires Valid()
      modifies this
      ensures Valid() && old(paths) <= paths
      ensures r.Ok? ==> CompactPathList(paths, r.value) == Ok(list)
      ensures r.Ok? ==> indexes.Keys == old(indexes.Keys) + PathsOfList(list)
      ensures r.Err? ==> Overflowing(old(indexes.Keys), PathsOfList(list))
    {
      var out := [];
      for i := 0 to |list|
        invariant Valid() && old(paths) <= paths
        invariant CompactPathList(paths, out) == Ok(list[..i])
        invariant indexes.Keys == old(indexes.Keys) + PathsOfList(list[..i])
      {
        ghost var before := paths;
        PathsOfListStep(list, i);
        var index := Intern(list[i]);
        if index.Err? {
          assert list[i] !in indexes.Keys && list[i] in PathsOfList(list);
          return Err(index.error);
        }
        NextIndex(before, paths, out, list, i, index.value);
        out := out + [index.value];
      }
      assert list[..|list|] == list;
      r := Ok(out);
    }

    /** The two pathnames that precede the dependency list. */
    method InternTwo(a: Path, b: Path) returns (r: Result<(nat, nat), CodecError>)
      requires Valid()
      modifies this
      ensures Valid() && old(paths) <= paths
      ensures r.Ok? ==> CompactPath(paths, r.value.0) == Ok(a) && CompactPath(paths, r.value.1) == Ok(b)
      ensures r.Ok? ==> indexes.Keys == old(indexes.Keys) + {a, b}
      ensures r.Err? ==> Overflowing(old(indexes.Keys), {a, b})
    {
      var first := Intern(a);
      if first.Err? {
        assert a !in indexes.Keys;
        return Err(first.error);
      }
      var second := Intern(b);
      if second.Err? {
        assert b !in indexes.Keys;
        return Err(second.error);
      }
      r := Ok((first.value, second.value));
    }

    /** The six pathname fields of one identity, interned in field order. */
    method CompactPaths(identity: ResolvedPathIdentity) returns (r: Result<CompactPathClaimV3, CodecError>)
      requires Valid()
      modifies this
      ensures Valid() && old(paths) <= paths
      ensures r.Ok? ==> FieldsMatch(paths, r.value, identity)
      ensures r.Ok? ==> indexes.Keys == WithPathsOf(old(indexes.Keys), identity)
      ensures r.Err? ==> |indexes.Keys| == MAX_PATHS && indexes.Keys < WithPathsOf(old(indexes.Keys), identity)
    {
      var front := InternTwo(identity.original, identity.namespacePath);
      if front.Err? { return Err(TooManyPaths); }
      var dependencies := InternAll(identity.namespaceDependencies);
      if dependencies.Err? { return Err(TooManyPaths); }
      var tail := InternTail(identity.resolvedIoPath, identity.canonicalExistingAncestor, identity.suffix,
                             dependencies.value, identity.namespaceDependencies);
      if tail.Err? { return Err(TooManyPaths); }
      r := Ok(CompactPathClaimV3.CompactPathClaimV3(
                front.value.0, front.value.1, dependencies.value, tail.value.0, tail.value.1, tail.value.2,
                None, None, Read, Exact));
    }

    method CompactClaimV3(claim: PathClaim) returns (r: Result<CompactPathClaimV3, CodecError>)
      requires Valid()
      modifies this
      ensures Valid() && old(paths) <= paths
      ensures r.Ok? ==> ExpandClaimV3(paths, r.value) == Ok(claim)
      ensures r.Ok? ==> indexes.Keys == old(indexes.Keys) + PathsOfClaim(claim)
      ensures r.Err? ==> Overflowing(old(indexes.Keys), PathsOfClaim(claim))
    {
      var identity := claim.identity;
      ghost var start := indexes.Keys;
      var compact := CompactPaths(identity);
      ClaimPathsAre(start, claim);
      if compact.Err? { return Err(TooManyPaths); }
      var full := compact.value.(dev := identity.dev, ino := identity.ino, mode := claim.mode, scope := claim.scope);
      FieldsExpand(paths, full, claim);
      r := Ok(full);
    }

    /** The pathnames that follow the dependency list, whose indexes stay good meanwhile. */
    method InternTail(a: Path, b: Path, c: Path, ghost indexList: seq<nat>, ghost list: seq<Path>)
      returns (r: Result<(nat, nat, nat), CodecError>)
      requires Valid() && CompactPathList(paths, indexList) == Ok(list)
      modifies this
      ensures Valid() && old(paths) <= paths && CompactPathList(paths, indexList) == Ok(list)
      ensures r.Ok? ==> CompactPath(paths, r.value.0) == Ok(a) && CompactPath(paths, r.value.1) == Ok(b)
                        && CompactPath(paths, r.value.2) == Ok(c)
      ensures r.Ok? ==> indexes.Keys == old(indexes.Keys) + ({a, b} + {c})
      ensures r.Err? ==> Overflowing(old(indexes.Keys), {a, b} + {c})
    {
      var back := InternTwo(a, b);
      ListSurvivesGrowth(old(paths), paths, indexList);
      if back.Err? {
        return Err(TooManyPaths);
      }
      ghost var middle := paths;
      var last := Intern(c);
      ListSurvivesGrowth(middle, paths, indexList);
      if last.Err? {
        assert c !in indexes.Keys;
        return Err(TooManyPaths);
      }
      r := Ok((back.value.0, back.value.1, last.value));
    }
  }

  lemma TooManyAltogether(known: set<Path>, claims: seq<PathClaim>, i: nat)
    requires i < |claims| && |known| == MAX_PATHS && known < PathsOfClaims(claims[..i]) + PathsOfClaim(claims[i])
    ensures |PathsOfClaims(claims)| > MAX_PATHS
  {
    PathsOfClaimsStep(claims, i);
    OverflowExceeds(known, PathsOfClaims(claims[..i + 1]));
    SubsetIsNoLarger(PathsOfClaims(claims[..i + 1]), PathsOfClaims(claims));
  }

  /** Encoding succeeds exactly when the claims mention at most 2^32 distinct paths, and then
      decoding returns the same claims. */
  method EncodeClaims(claims: seq<PathClaim>) returns (r: Result<Wire, CodecError>)
    ensures r.Ok? ==> r.value.WireV3? && DecodeClaims(r.value) == Ok(claims)
    ensures r.Ok? ==> DuplicateFree(r.value.paths)
    ensures r.Ok? ==> forall p :: p in r.value.paths <==> p in PathsOfClaims(claims)
    ensures r.Ok? <==> |PathsOfClaims(claims)| <= MAX_PATHS
    ensures r.Err? ==> r == Err(TooManyPaths)
  {
    var interner := new DescriptorPathInterner();
    var out := [];
    for i := 0 to |claims|
      invariant interner.Valid() && fresh(interner)
      invariant ExpandClaimsV3(interner.paths, out) == Ok(claims[..i])
      invariant interner.indexes.Keys == PathsOfClaims(claims[..i])
    {
      ghost var before := interner.paths;
      PathsOfClaimsStep(claims, i);
      var compact := interner.CompactClaimV3(claims[i]);
      if compact.Err? {
        TooManyAltogether(interner.indexes.Keys, claims, i);
        return Err(TooManyPaths);
      }
      NextClaim(before, interner.paths, out, claims, i, compact.value);
      out := out + [compact.value];
    }
    assert claims[..|claims|] == claims;
    r := Ok(WireV3(interner.paths, out));
  }
}
