/** Where the root package version stands: told by the lines themselves, and found by the rewriters' tests. */
module SourceSites {
  import opened Wrappers
  import opened Sequences
  import opened Text
  import opened Lines
  import opened Assignments
  import opened LineRewriting

  const VERSION := "version"

  function Canonical(line: string): string
    requires Assigns(line, VERSION)
  {
    Parse(line).Canonical()
  }

  // ---- What a version line looks like to the other tests. ----

  lemma {:induction false} TrimEndReaches(s: string, k: nat)
    requires k < |s| && !IsWhiteSpace(s[k])
    ensures |TrimEnd(s)| > k
    decreases |s|
  {
    if IsWhiteSpace(s[|s| - 1]) {
      assert s[..|s| - 1][k] == s[k];
      TrimEndReaches(s[..|s| - 1], k);
    }
  }

  lemma {:induction false} TrimStartExtends(s: string, n: nat)
    requires n <= |s| && TrimStart(s[..n]) != ""
    ensures TrimStart(s) == TrimStart(s[..n]) + s[n..]
    decreases n
  {
    if IsWhiteSpace(s[0]) {
      assert s[..n][1..] == s[1..][..n - 1] && s[1..][n - 1..] == s[n..];
      TrimStartExtends(s[1..], n - 1);
    }
  }

  lemma TrimEndKeepsTheStart(s: string)
    requires s != "" && !IsWhiteSpace(s[0])
    ensures TrimEnd(s) != "" && TrimEnd(s)[0] == s[0]
  {
    TrimEndReaches(s, 0);
    TrimEndSplits(s);
  }

  lemma StartsLikeVersion(t: string)
    requires TrimEnd(t) == VERSION
    ensures t != "" && t[0] == 'v'
  {
    TrimEndSplits(t);
    assert t[..|VERSION|][0] == t[0];
  }

  /** Text whose part before an equals sign trims to `version` starts with a `v`. */
  lemma VersionComesFirst(s: string, eq: nat)
    requires eq < |s| && Trim(s[..eq]) == VERSION
    ensures TrimStart(s) != "" && TrimStart(s)[0] == 'v' && Trim(s) != "" && Trim(s)[0] == 'v'
  {
    StartsLikeVersion(TrimStart(s[..eq]));
    TrimStartExtends(s, eq);
    TrimEndKeepsTheStart(TrimStart(s));
  }

  lemma VersionLines(line: string)
    requires Assigns(line, VERSION)
    ensures Trim(line) != "" && Trim(line)[0] == 'v' && TrimStart(line) != "" && TrimStart(line)[0] == 'v'
    ensures Trim(Body(line)) != "" && Trim(Body(line))[0] == 'v'
  {
    var eq := Find(Body(line), '=');
    LineIsBodyAndEnding(line);
    assert line[..eq] == Body(line)[..eq];
    VersionComesFirst(Body(line), eq);
    VersionComesFirst(line, eq);
  }

  // ---- The tests. ----

  predicate IsHeader(line: string) {
    var t := Trim(Body(line));
    t != "" && t[0] == '[' && t[|t| - 1] == ']'
  }

  predicate Within(line: string, inPackage: bool) {
    if IsHeader(line) then Trim(Body(line)) == "[package]" else inPackage
  }

  predicate StartsPackage(line: string) { Trim(line) == "[[package]]" }

  predicate NamesRoot(line: string) { Trim(line) == "name = \"tonepoet\"" }

  predicate HasSource(line: string) { "source =" <= TrimStart(line) }

  function CanonicalOrSame(line: string): string {
    if Assigns(line, VERSION) then Canonical(line) else line
  }

  function SourceTests(): Tests {
    Tests((line, before) => Within(line, before), line => StartsPackage(line), line => NamesRoot(line),
          line => HasSource(line), line => Assigns(line, VERSION), line => CanonicalOrSame(line))
  }

  lemma VersionLinesAreNothingElse(line: string, b: bool)
    requires Assigns(line, VERSION)
    ensures Within(line, b) == b && !StartsPackage(line) && !NamesRoot(line) && !HasSource(line)
  {
    VersionLines(line);
  }

  // ---- The same, by the letters on the line. ----

  predicate OpensPackageTable(line: string) { Reads(line, "[package]") }

  predicate OpensBlock(line: string) { Reads(line, "[[package]]") }

  predicate TellsRootName(line: string) { Reads(line, "name = \"tonepoet\"") }

  /** The line opens a table of the manifest. */
  ghost predicate Bracketed(line: string) {
    exists inner :: Reads(line, "[" + inner + "]")
  }

  /** `version` and blanks, and then the first equals sign. */
  predicate AssignsVersion(line: string) {
    exists eq :: 0 <= eq < |line| && line[eq] == '=' && '=' !in line[..eq] && Reads(line[..eq], "version")
  }

  /** Behind its blanks the line starts with `source =`. */
  predicate TellsSource(line: string) {
    exists n :: 0 <= n <= |line| && Blank(line[..n]) && "source =" <= line[n..]
  }

  /** The ending of a line is blank. */
  lemma EndingIsBlank(line: string)
    ensures var n := |Body(line)|; n <= |line| && line[..n] == Body(line) && Blank(line[n..])
    ensures forall k :: |Body(line)| <= k < |line| ==> line[k] != '='
  {}

  /** A blank ending more or less makes no difference to what a line reads. */
  lemma EndingsAreNotRead(line: string, t: string, n: nat, end: nat)
    requires Tight(t) && end <= |line| && Blank(line[end..])
    ensures ReadsAt(line[..end], t, n) <==> ReadsAt(line, t, n)
  {
    if n + |t| <= end {
      SliceOfPrefix(line, end, n, n + |t|);
    }
    if ReadsAt(line[..end], t, n) {
      BlankInTwo(line, n + |t|, end);
    }
    if ReadsAt(line, t, n) {
      var last := n + |t| - 1;
      assert line[last] == line[n..n + |t|][|t| - 1];
      forall k | end <= k < |line| ensures IsWhiteSpace(line[k]) { assert line[end..][k - end] == line[k]; }
      assert n + |t| <= end;
      var rest := line[n + |t|..end];
      forall k | 0 <= k < |rest| ensures IsWhiteSpace(rest[k]) {
        assert rest[k] == line[n + |t|..][k];
      }
    }
  }

  lemma BodyReads(line: string, t: string)
    requires Tight(t)
    ensures Reads(Body(line), t) <==> Reads(line, t)
  {
    EndingIsBlank(line);
    forall n: nat ensures ReadsAt(Body(line), t, n) <==> ReadsAt(line, t, n) {
      EndingsAreNotRead(line, t, n, |Body(line)|);
    }
    hide IsWhiteSpace, Body, Tight;
    assert forall n: nat :: ReadsAt(Body(line), t, n) ==> n <= |Body(line)|;
  }

  lemma BlankInTwo(line: string, a: nat, b: nat)
    requires a <= b <= |line| && Blank(line[..b][a..]) && Blank(line[b..])
    ensures Blank(line[a..])
  {
    forall k | 0 <= k < |line[a..]| ensures IsWhiteSpace(line[a..][k]) {
      if k < b - a {
        assert line[a..][k] == line[..b][a..][k];
      } else {
        assert line[a..][k] == line[b..][k - (b - a)];
      }
    }
  }

  lemma OpenersRead(line: string)
    ensures StartsPackage(line) <==> OpensBlock(line)
  {
    TrimReads(line, "[[package]]");
  }

  /** The tests read what the letters say. */
  lemma TestsRead(line: string)
    ensures IsHeader(line) <==> Bracketed(line)
    ensures Trim(Body(line)) == "[package]" <==> OpensPackageTable(line)
    ensures StartsPackage(line) <==> OpensBlock(line)
    ensures NamesRoot(line) <==> TellsRootName(line)
    ensures Assigns(line, VERSION) <==> AssignsVersion(line)
    ensures HasSource(line) <==> TellsSource(line)
  {
    HeadersAreBracketed(line);
    TrimReads(Body(line), "[package]");
    BodyReads(line, "[package]");
    OpenersRead(line);
    TrimReads(line, "name = \"tonepoet\"");
    VersionIsAssigned(line);
    SourceIsTold(line);
  }

  lemma HeadersAreBracketed(line: string)
    ensures IsHeader(line) <==> Bracketed(line)
  {
    var t := Trim(Body(line));
    if IsHeader(line) {
      assert |t| > 1;
      var inner := t[1..|t| - 1];
      assert t == "[" + inner + "]";
      TrimReads(Body(line), t);
      BodyReads(line, t);
    }
    if inner :| Reads(line, "[" + inner + "]") {
      TrimReads(Body(line), "[" + inner + "]");
      BodyReads(line, "[" + inner + "]");
    }
  }

  lemma VersionIsAssigned(line: string)
    ensures Assigns(line, VERSION) <==> AssignsVersion(line)
  {
    EndingIsBlank(line);
    var body := Body(line);
    var eq := Find(body, '=');
    if eq < |body| {
      assert line[..eq] == body[..eq] && line[eq] == body[eq];
      TrimReads(body[..eq], VERSION);
    }
    if at :| 0 <= at < |line| && line[at] == '=' && '=' !in line[..at] && Reads(line[..at], "version") {
      assert at < |body| && body[at] == '=';
      forall k | 0 <= k < at ensures line[k] != '=' { assert line[..at][k] == line[k]; }
    }
  }

  lemma SourceIsTold(line: string)
    ensures HasSource(line) <==> TellsSource(line)
  {
    TrimStartSplits(line);
    if HasSource(line) {
      var n := |line| - |TrimStart(line)|;
      assert line[n..] == TrimStart(line);
    }
    if n :| 0 <= n <= |line| && Blank(line[..n]) && "source =" <= line[n..] {
      assert line == line[..n] + line[n..] && line[n..][0] == "source ="[0];
      TrimStartOfBlank(line[..n], line[n..]);
    }
  }

  // ---- The manifest. ----

  /** The last line before `i` that opens a table opens the package table. */
  ghost predicate InPackageTable(lines: seq<string>, i: nat) {
    && i <= |lines|
    && exists h :: 0 <= h < i && OpensPackageTable(lines[h]) && forall k :: h < k < i ==> !Bracketed(lines[k])
  }

  /** Line `i` assigns the version of the package. */
  ghost predicate IsPackageVersion(lines: seq<string>, i: nat) {
    i < |lines| && AssignsVersion(lines[i]) && InPackageTable(lines, i)
  }

  /** The first such line. */
  ghost predicate FirstPackageVersion(lines: seq<string>, i: nat) {
    IsPackageVersion(lines, i) && forall k: nat :: k < i ==> !IsPackageVersion(lines, k)
  }

  ghost predicate NoPackageVersion(lines: seq<string>) {
    forall i: nat :: !IsPackageVersion(lines, i)
  }

  lemma PackageLinesAreBracketed(line: string)
    requires OpensPackageTable(line)
    ensures Bracketed(line)
  {
    assert "[package]" == "[" + "package" + "]";
  }

  lemma OneLineFurther(lines: seq<string>, n: nat)
    requires n < |lines|
    ensures InPackageTable(lines, n + 1) <==>
            if Bracketed(lines[n]) then OpensPackageTable(lines[n]) else InPackageTable(lines, n)
  {
    if OpensPackageTable(lines[n]) {
      PackageLinesAreBracketed(lines[n]);
    }
    hide OpensPackageTable, Bracketed;
  }

  /** The loop's flag says whether the next line is in the package table. */
  lemma FlagTellsTheTable(lines: seq<string>, n: nat)
    requires n < |lines|
    ensures Within(lines[n], InPackageTable(lines, n)) == InPackageTable(lines, n + 1)
  {
    TestsRead(lines[n]);
    OneLineFurther(lines, n);
    hide OpensPackageTable, Bracketed, IsHeader, InPackageTable;
  }

  /** The manifest's site is the first package version. */
  lemma {:induction false} ManifestSiteIsFirst(lines: seq<string>, from: nat)
    requires from <= |lines| && forall k: nat :: k < from ==> !IsPackageVersion(lines, k)
    ensures var site := ManifestSite(SourceTests(), lines, from, InPackageTable(lines, from));
            if site.Some? then FirstPackageVersion(lines, site.value)
            else NoPackageVersion(lines)
    decreases |lines| - from
  {
    hide Bracketed, IsHeader, Assigns, AssignsVersion, Within, InPackageTable, CanonicalOrSame;
    if from < |lines| {
      FlagTellsTheTable(lines, from);
      TestsRead(lines[from]);
      if Assigns(lines[from], VERSION) {
        VersionLinesAreNothingElse(lines[from], InPackageTable(lines, from));
      }
      if !IsPackageVersion(lines, from) {
        ManifestSiteIsFirst(lines, from + 1);
      }
    }
  }

  // ---- The lock file. ----

  /** Line `k` is in the block that line `h` opens. */
  predicate InBlock(lines: seq<string>, h: nat, k: nat) {
    h < k < |lines| && forall j :: h < j <= k ==> !OpensBlock(lines[j])
  }

  /** Line `h` opens a block for the root package: it has the name and no source. */
  ghost predicate OpensRoot(lines: seq<string>, h: nat) {
    && h < |lines| && OpensBlock(lines[h])
    && (exists k: nat :: InBlock(lines, h, k) && TellsRootName(lines[k]))
    && (forall k: nat :: InBlock(lines, h, k) ==> !TellsSource(lines[k]))
  }

  /** Line `i` is the first in its block to assign a version. */
  predicate IsVersionOf(lines: seq<string>, h: nat, i: nat) {
    InBlock(lines, h, i) && AssignsVersion(lines[i]) && forall k :: h < k < i ==> !AssignsVersion(lines[k])
  }

  ghost function Roots(lines: seq<string>, from: nat): set<nat> {
    set h: nat | from <= h < |lines| && OpensRoot(lines, h)
  }

  /** No line of the block assigns a version. */
  ghost predicate Unversioned(lines: seq<string>, h: nat) {
    forall i: nat :: !IsVersionOf(lines, h, i)
  }

  lemma BlockLines(lines: seq<string>, h: nat, end: nat)
    requires h < |lines| && end == BlockEnd(SourceTests(), lines, h + 1)
    ensures forall k: nat :: InBlock(lines, h, k) <==> h < k < end
  {
    hide OpensBlock, StartsPackage;
    forall j | 0 <= j < |lines| ensures StartsPackage(lines[j]) <==> OpensBlock(lines[j]) {
      OpenersRead(lines[j]);
    }
  }

  lemma RootBlocksAreOpened(lines: seq<string>, h: nat, end: nat)
    requires h < |lines| && OpensBlock(lines[h]) && end == BlockEnd(SourceTests(), lines, h + 1)
    ensures IsRootBlock(SourceTests(), lines[h..end]) <==> OpensRoot(lines, h)
  {
    hide OpensBlock, TellsRootName, NamesRoot, HasSource, TellsSource, InBlock, BlockEnd;
    BlockLines(lines, h, end);
    OpenersAreNothingElse(lines[h]);
    var block := lines[h..end];
    forall k | 0 <= k < |block|
      ensures NamesRoot(block[k]) <==> TellsRootName(lines[h + k])
      ensures HasSource(block[k]) <==> TellsSource(lines[h + k])
    {
      TestsRead(lines[h + k]);
    }
    RootBlockIsRoot(lines, h, end, block);
  }

  lemma RootBlockIsRoot(lines: seq<string>, h: nat, end: nat, block: seq<string>)
    requires h < end <= |lines| && OpensBlock(lines[h]) && |block| == end - h
    requires !NamesRoot(block[0]) && !HasSource(block[0])
    requires forall k: nat :: InBlock(lines, h, k) <==> h < k < end
    requires forall k :: 0 <= k < |block| ==> (NamesRoot(block[k]) <==> TellsRootName(lines[h + k]))
    requires forall k :: 0 <= k < |block| ==> (HasSource(block[k]) <==> TellsSource(lines[h + k]))
    ensures IsRootBlock(SourceTests(), block) <==> OpensRoot(lines, h)
  {
    hide OpensBlock, TellsRootName, NamesRoot, HasSource, TellsSource, InBlock;
    if OpensRoot(lines, h) {
      var k: nat :| InBlock(lines, h, k) && TellsRootName(lines[k]);
      assert NamesRoot(block[k - h]);
      forall j | 0 < j < |block| ensures !HasSource(block[j]) { assert InBlock(lines, h, h + j); }
    }
    if IsRootBlock(SourceTests(), block) {
      var k :| 0 <= k < |block| && NamesRoot(block[k]);
      assert InBlock(lines, h, h + k);
      forall j: nat | InBlock(lines, h, j) ensures !TellsSource(lines[j]) { assert !HasSource(block[j - h]); }
    }
  }

  lemma OpenersAreNothingElse(line: string)
    requires OpensBlock(line)
    ensures !NamesRoot(line) && !HasSource(line) && !Assigns(line, VERSION)
  {
    TestsRead(line);
    TrimEndSplits(TrimStart(line));
    assert TrimStart(line)[0] == Trim(line)[0];
    if Assigns(line, VERSION) {
      VersionLinesAreNothingElse(line, true);
    }
  }

  /** Within a block the site is the first line that assigns a version. */
  lemma {:induction false} InsideSiteIsFirst(lines: seq<string>, h: nat, end: nat, n: nat)
    requires h <= end <= |lines| && n <= end - h
    ensures var site := ManifestSite(Inside(SourceTests()), lines[h..end], n, true);
            && (site.Some? ==> site.value < end - h && AssignsVersion(lines[h + site.value]))
            && forall k :: h + n <= k < (if site.Some? then h + site.value else end) ==> !AssignsVersion(lines[k])
    decreases end - h - n
  {
    hide AssignsVersion, Assigns, CanonicalOrSame;
    if n < end - h {
      assert lines[h..end][n] == lines[h + n];
      VersionIsAssigned(lines[h + n]);
      if !Assigns(lines[h + n], VERSION) {
        InsideSiteIsFirst(lines, h, end, n + 1);
      }
    }
  }

  lemma InsideSiteIsTheVersion(lines: seq<string>, h: nat, end: nat, site: Option<nat>)
    requires h < end <= |lines| && !AssignsVersion(lines[h])
    requires forall k: nat :: InBlock(lines, h, k) <==> h < k < end
    requires site.Some? ==> h <= site.value < end && AssignsVersion(lines[site.value])
    requires forall k :: h <= k < (if site.Some? then site.value else end) ==> !AssignsVersion(lines[k])
    ensures site.None? <==> Unversioned(lines, h)
    ensures forall i: nat :: site == Some(i) <==> IsVersionOf(lines, h, i)
  {
    hide AssignsVersion, InBlock;
    if site.Some? {
      assert IsVersionOf(lines, h, site.value);
    }
  }

  lemma VersionOfBlock(lines: seq<string>, h: nat, end: nat)
    requires h < |lines| && OpensBlock(lines[h]) && end == BlockEnd(SourceTests(), lines, h + 1)
    ensures var site := Shift(ManifestSite(Inside(SourceTests()), lines[h..end], 0, true), h);
            && (site.None? <==> Unversioned(lines, h))
            && forall i: nat :: site == Some(i) <==> IsVersionOf(lines, h, i)
  {
    hide OpensBlock, Assigns, AssignsVersion, InBlock, BlockEnd, ManifestSite, Unversioned, IsVersionOf;
    BlockLines(lines, h, end);
    OpenersAreNothingElse(lines[h]);
    VersionIsAssigned(lines[h]);
    InsideSiteIsFirst(lines, h, end, 0);
    var site := ManifestSite(Inside(SourceTests()), lines[h..end], 0, true);
    InsideSiteIsTheVersion(lines, h, end, Shift(site, h));
  }

  lemma RootsSplit(lines: seq<string>, h: nat, end: nat)
    requires h < end <= |lines| && forall j: nat :: h < j < end ==> !OpensRoot(lines, j)
    ensures Roots(lines, h) == (if OpensRoot(lines, h) then {h} else {}) + Roots(lines, end)
    ensures h !in Roots(lines, end)
  {
    hide OpensRoot;
  }

  lemma RootsFromBlock(lines: seq<string>, h: nat, end: nat)
    requires h < |lines| && end == BlockEnd(SourceTests(), lines, h + 1)
    ensures Roots(lines, h) == (if OpensRoot(lines, h) then {h} else {}) + Roots(lines, end)
    ensures h !in Roots(lines, end)
  {
    hide Roots, BlockEnd, StartsPackage, OpensBlock, InBlock, TellsRootName, TellsSource;
    forall j: nat | h < j < end ensures !OpensRoot(lines, j) {
      OpenersRead(lines[j]);
    }
    RootsSplit(lines, h, end);
  }

  /** The sites are the versions of the blocks these lines open, one for each. */
  ghost predicate SitesOf(lines: seq<string>, roots: set<nat>, sites: seq<Option<nat>>) {
    && |sites| == |roots|
    && (None in sites <==> exists h :: h in roots && Unversioned(lines, h))
    && forall i: nat :: Some(i) in sites <==> exists h :: h in roots && IsVersionOf(lines, h, i)
  }

  lemma OneMoreSite(lines: seq<string>, h: nat, site: Option<nat>, roots: set<nat>, sites: seq<Option<nat>>)
    requires SitesOf(lines, roots, sites) && h !in roots
    requires site.None? <==> Unversioned(lines, h)
    requires forall i: nat :: site == Some(i) <==> IsVersionOf(lines, h, i)
    ensures SitesOf(lines, {h} + roots, [site] + sites)
  {
    hide Unversioned, IsVersionOf;
    forall s ensures s in [site] + sites <==> s == site || s in sites {
      if s == site { assert ([site] + sites)[0] == s; }
      if s in sites {
        var k :| 0 <= k < |sites| && sites[k] == s;
        assert ([site] + sites)[k + 1] == s;
      }
    }
    forall k ensures k in {h} + roots <==> k == h || k in roots {}
  }

  lemma PlainLineOpensNothing(lines: seq<string>, n: nat)
    requires n < |lines| && !StartsPackage(lines[n])
    ensures Roots(lines, n) == Roots(lines, n + 1)
  {
    OpenersRead(lines[n]);
    assert !OpensRoot(lines, n);
    hide OpensRoot, StartsPackage, OpensBlock;
  }

  /** The lock rewriter's sites are the versions of the root blocks, one for each. */
  lemma {:induction false} LockSitesAreTheRoots(lines: seq<string>, from: nat)
    requires from <= |lines|
    ensures SitesOf(lines, Roots(lines, from), RootSites(SourceTests(), lines, from))
    decreases |lines| - from
  {
    hide OpensRoot, OpensBlock, StartsPackage, Unversioned, IsVersionOf, IsRootBlock;
    if from < |lines| {
      OpenersRead(lines[from]);
      if !StartsPackage(lines[from]) {
        LockSitesAreTheRoots(lines, from + 1);
        PlainLineOpensNothing(lines, from);
        RootSitesSkip(SourceTests(), lines, from);
      } else {
        var end := BlockEnd(SourceTests(), lines, from + 1);
        LockSitesAreTheRoots(lines, end);
        BlockAddsItsSite(lines, from, end);
      }
    }
  }

  lemma BlockAddsItsSite(lines: seq<string>, h: nat, end: nat)
    requires h < |lines| && OpensBlock(lines[h]) && end == BlockEnd(SourceTests(), lines, h + 1)
    requires SitesOf(lines, Roots(lines, end), RootSites(SourceTests(), lines, end))
    ensures SitesOf(lines, Roots(lines, h), RootSites(SourceTests(), lines, h))
  {
    OpenersRead(lines[h]);
    RootSitesUnfold(SourceTests(), lines, h);
    RootBlocksAreOpened(lines, h, end);
    VersionOfBlock(lines, h, end);
    RootsFromBlock(lines, h, end);
    hide OpensRoot, IsVersionOf, Unversioned, RootSites, IsRootBlock, ManifestSite, BlockEnd, Roots, BlockText,
      LockText, OpensBlock, SitesOf;
    var site := Shift(ManifestSite(Inside(SourceTests()), lines[h..end], 0, true), h);
    if OpensRoot(lines, h) {
      OneMoreSite(lines, h, site, Roots(lines, end), RootSites(SourceTests(), lines, end));
    } else {
      assert {} + Roots(lines, end) == Roots(lines, end);
    }
  }
}
