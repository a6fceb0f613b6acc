/** The byte stream that the source lock hashes: every path and content framed by its length, the two
    Cargo files in their canonical form. */
module HashPreimage {
  import opened Wrappers
  import opened Bytes
  import opened Sequences
  import opened SourceLock

  const LENGTH_BYTES: nat := 8

  /** A path and its content, both short enough for a 64-bit length. */
  datatype AnyFile = File(path: seq<Byte>, content: seq<Byte>)

  type File = f: AnyFile | |f.path| < Power(LENGTH_BYTES) && |f.content| < Power(LENGTH_BYTES) witness File([], [])

  function Power(k: nat): (n: nat)
    ensures n > 0
  {
    if k == 0 then 1 else 256 * Power(k - 1)
  }

  /** The low `k` bytes of a number, most significant first. */
  function BigEndian(n: nat, k: nat): (b: seq<Byte>)
    ensures |b| == k
  {
    if k == 0 then [] else BigEndian(n / 256, k - 1) + [n % 256]
  }

  lemma {:induction false} BigEndianIsInjective(m: nat, n: nat, k: nat)
    requires m < Power(k) && n < Power(k) && BigEndian(m, k) == BigEndian(n, k)
    ensures m == n
  {
    if k > 0 {
      var a, b := BigEndian(m / 256, k - 1), BigEndian(n / 256, k - 1);
      assert (a + [m % 256])[..k - 1] == a && (b + [n % 256])[..k - 1] == b;
      assert (a + [m % 256])[k - 1] == m % 256 && (b + [n % 256])[k - 1] == n % 256;
      BigEndianIsInjective(m / 256, n / 256, k - 1);
    }
  }

  /** The number that these digits to the base 256 spell, the first the most significant. */
  function Number(digits: seq<Byte>): nat {
    if digits == [] then 0 else Number(digits[..|digits| - 1]) * 256 + digits[|digits| - 1]
  }

  lemma {:induction false} BigEndianSpells(n: nat, k: nat)
    requires n < Power(k)
    ensures Number(BigEndian(n, k)) == n
  {
    if k > 0 {
      var front := BigEndian(n / 256, k - 1);
      BigEndianSpells(n / 256, k - 1);
      assert BigEndian(n, k)[..k - 1] == front;
    }
  }

  /** A frame is eight bytes of length, big-endian, and then the bytes. */
  lemma FramesTellTheirLength(bytes: seq<Byte>)
    requires |bytes| < 0x1_0000_0000_0000_0000
    ensures |Framed(bytes)| == 8 + |bytes| && Number(Framed(bytes)[..8]) == |bytes| && Framed(bytes)[8..] == bytes
  {
    PowerOfEight();
    BigEndianSpells(|bytes|, 8);
    assert Framed(bytes)[..8] == BigEndian(|bytes|, 8);
  }

  lemma PowerOfEight()
    ensures Power(8) == 0x1_0000_0000_0000_0000
  {
    assert Power(4) == 0x1_0000_0000;
    assert Power(6) == 0x1_0000_0000_0000;
  }

  function Framed(bytes: seq<Byte>): seq<Byte> {
    BigEndian(|bytes|, LENGTH_BYTES) + bytes
  }

  function Preimage(files: seq<File>): seq<Byte> {
    if files == [] then [] else Framed(files[0].path) + Framed(files[0].content) + Preimage(files[1..])
  }

  lemma FrontsComeApart<T>(a: seq<T>, s: seq<T>, b: seq<T>, t: seq<T>)
    requires |a| == |b| && a + s == b + t
    ensures a == b && s == t
  {
    assert (a + s)[..|a|] == a && (b + t)[..|a|] == b;
    assert (a + s)[|a|..] == s && (b + t)[|a|..] == t;
  }

  /** A framed part in front of anything can be told apart. */
  lemma FramesComeApart(a: seq<Byte>, s: seq<Byte>, b: seq<Byte>, t: seq<Byte>)
    requires |a| < Power(LENGTH_BYTES) && |b| < Power(LENGTH_BYTES) && Framed(a) + s == Framed(b) + t
    ensures a == b && s == t
  {
    var m, n := BigEndian(|a|, LENGTH_BYTES), BigEndian(|b|, LENGTH_BYTES);
    Regroup(m, a, s);
    Regroup(n, b, t);
    FrontsComeApart(m, a + s, n, b + t);
    BigEndianIsInjective(|a|, |b|, LENGTH_BYTES);
    FrontsComeApart(a, s, b, t);
  }

  lemma FilesComeApart(f: File, s: seq<Byte>, g: File, t: seq<Byte>)
    requires Framed(f.path) + Framed(f.content) + s == Framed(g.path) + Framed(g.content) + t
    ensures f == g && s == t
  {
    Regroup(Framed(f.path), Framed(f.content), s);
    Regroup(Framed(g.path), Framed(g.content), t);
    FramesComeApart(f.path, Framed(f.content) + s, g.path, Framed(g.content) + t);
    FramesComeApart(f.content, s, g.content, t);
  }

  /** Different lists of files never give the same stream. */
  lemma {:induction false} PreimageIsInjective(a: seq<File>, b: seq<File>)
    requires Preimage(a) == Preimage(b)
    ensures a == b
    decreases |a|
  {
    if a != [] && b != [] {
      FilesComeApart(a[0], Preimage(a[1..]), b[0], Preimage(b[1..]));
      PreimageIsInjective(a[1..], b[1..]);
      assert a == [a[0]] + a[1..] && b == [b[0]] + b[1..];
    } else {
      assert |Preimage(a)| == |Preimage(b)|;
    }
  }

  lemma {:induction false} PreimageAppends(files: seq<File>, f: File)
    ensures Preimage(files + [f]) == Preimage(files) + Framed(f.path) + Framed(f.content)
    decreases |files|
  {
    if files == [] {
      assert ([f])[1..] == [] && [] + [f] == [f];
      assert Preimage([f]) == Framed(f.path) + Framed(f.content) + [];
    } else {
      assert (files + [f])[0] == files[0] && (files + [f])[1..] == files[1..] + [f];
      PreimageAppends(files[1..], f);
      var head := Framed(files[0].path) + Framed(files[0].content);
      assert head + (Preimage(files[1..]) + Framed(f.path) + Framed(f.content)) ==
             head + Preimage(files[1..]) + Framed(f.path) + Framed(f.content);
    }
  }

  /** The four updates for one file. */
  method Update(hasher: seq<Byte>, path: seq<Byte>, content: seq<Byte>) returns (fed: seq<Byte>)
    ensures fed == hasher + Framed(path) + Framed(content)
  {
    fed := hasher + BigEndian(|path|, LENGTH_BYTES);
    fed := fed + path;
    fed := fed + BigEndian(|content|, LENGTH_BYTES);
    fed := fed + content;
  }

  // ---- What is hashed of each file. ----

  const MANIFEST_PATH := "Cargo.toml"
  const LOCK_PATH := "Cargo.lock"

  /** The files of the common source closure. */
  const REFERENCE_COMMON_SOURCE_PATHS: seq<string> := [
    MANIFEST_PATH, LOCK_PATH, "build.rs", "reference_source_lock.rs", "tonepoet-pipeline/Cargo.toml",
    "tonepoet-pipeline/src/semantic_plan.rs", "tonepoet-pipeline/src/dsd_reference.rs",
    "tonepoet-pipeline/src/dsd_album_gain.rs", "tonepoet-pipeline/src/plan.rs", "tonepoet-pipeline/src/settings.rs",
    "tonepoet-pipeline/src/enums.rs", "tonepoet-pipeline/src/source.rs", "tonepoet-pipeline/src/tools.rs",
    "tonepoet-pipeline/src/fingerprint.rs", "tonepoet-pipeline/src/qualification_schema.rs",
    "tonepoet-pipeline/src/plugins.rs", "tonepoet-pipeline/src/w64.rs", "src/convert/pipeline/plan_bridge.rs",
    "src/convert/pipeline/coordination_name.rs", "src/convert/pipeline/track_executor.rs",
    "src/convert/pipeline/stages.rs", "src/convert/pipeline/manifest_builder.rs", "src/fs_limits.rs",
    "src/convert/replaygain.rs"]

  /** UTF-8, as far as it matters here: every text has its bytes, and only those are read as that text. */
  datatype Encoding = Encoding(encode: string -> seq<Byte>, decode: seq<Byte> -> Option<string>) {
    ghost predicate Valid() {
      && (forall text :: decode(encode(text)) == Some(text))
      && (forall bytes :: decode(bytes).Some? ==> encode(decode(bytes).value) == bytes)
    }
  }

  predicate IsCargoFile(path: string) { path == MANIFEST_PATH || path == LOCK_PATH }

  /** The bytes of a file that take part: a Cargo file's in canonical form, any other's as they are. */
  function BytesForHash(utf8: Encoding, path: string, raw: seq<Byte>): Option<seq<Byte>> {
    if !IsCargoFile(path) then Some(raw)
    else if utf8.decode(raw).None? then None
    else
      var text := CanonicalText(path == LOCK_PATH, utf8.decode(raw).value);
      if text.Err? then None else Some(utf8.encode(text.value))
  }

  method ReferenceSourceBytesForHash(utf8: Encoding, path: string, raw: seq<Byte>) returns (r: Option<seq<Byte>>)
    ensures r == BytesForHash(utf8, path, raw)
  {
    if path != LOCK_PATH && path != MANIFEST_PATH {
      return Some(raw);
    }
    var text := utf8.decode(raw);
    if text.None? {
      return None;
    }
    var canonical;
    if path == LOCK_PATH {
      canonical := CanonicalizeRootLockPackageVersion(text.value);
    } else {
      canonical := CanonicalizeManifest(text.value);
    }
    r := if canonical.Ok? then Some(utf8.encode(canonical.value)) else None;
  }

  /** Two contents of one path that the hash cannot tell apart. */
  predicate SameToTheHash(utf8: Encoding, path: string, a: seq<Byte>, b: seq<Byte>)
    requires BytesForHash(utf8, path, a).Some? && BytesForHash(utf8, path, b).Some?
  {
    if IsCargoFile(path) then
      AgreeOutsideTheVersion(path == LOCK_PATH, utf8.decode(a).value, utf8.decode(b).value)
    else
      a == b
  }

  lemma SameBytesExactly(utf8: Encoding, path: string, a: seq<Byte>, b: seq<Byte>)
    requires utf8.Valid() && BytesForHash(utf8, path, a).Some? && BytesForHash(utf8, path, b).Some?
    ensures BytesForHash(utf8, path, a) == BytesForHash(utf8, path, b) <==> SameToTheHash(utf8, path, a, b)
  {
    if IsCargoFile(path) {
      var lock, s, t := path == LOCK_PATH, utf8.decode(a).value, utf8.decode(b).value;
      CanonicalTextsEqualExactly(lock, s, t);
      var c, d := CanonicalText(lock, s).value, CanonicalText(lock, t).value;
      assert utf8.decode(utf8.encode(c)) == Some(c) && utf8.decode(utf8.encode(d)) == Some(d);
    }
  }

  // ---- The hash of a source tree. ----

  type Tree = string -> Option<seq<Byte>>

  /** The file can be read and made canonical. */
  predicate Hashable(utf8: Encoding, read: Tree, path: string) {
    read(path).Some? && BytesForHash(utf8, path, read(path).value).Some?
  }

  /** Lengths that a 64-bit number can hold. */
  predicate Fits(utf8: Encoding, read: Tree, path: string) {
    && |utf8.encode(path)| < Power(LENGTH_BYTES)
    && (Hashable(utf8, read, path) ==> |BytesForHash(utf8, path, read(path).value).value| < Power(LENGTH_BYTES))
  }

  /** The files that are hashed, one for every path. */
  predicate AreFilesOf(utf8: Encoding, read: Tree, paths: seq<string>, files: seq<File>) {
    && |files| == |paths|
    && forall k :: 0 <= k < |paths| ==>
         && Hashable(utf8, read, paths[k])
         && files[k] == AnyFile.File(utf8.encode(paths[k]), BytesForHash(utf8, paths[k], read(paths[k]).value).value)
  }

  lemma AllAreHashable(utf8: Encoding, read: Tree, paths: seq<string>, files: seq<File>)
    requires AreFilesOf(utf8, read, paths, files)
    ensures forall p :: p in paths ==> Hashable(utf8, read, p)
  {
    forall p | p in paths ensures Hashable(utf8, read, p) {
      var k :| 0 <= k < |paths| && paths[k] == p;
    }
  }

  lemma NoFileYet(utf8: Encoding, read: Tree, paths: seq<string>)
    ensures AreFilesOf(utf8, read, paths[..0], []) && Preimage([]) == []
  {}

  lemma OneMoreFile(utf8: Encoding, read: Tree, paths: seq<string>, k: nat, files: seq<File>, file: File)
    requires k < |paths| && AreFilesOf(utf8, read, paths[..k], files) && Hashable(utf8, read, paths[k])
    requires file == AnyFile.File(utf8.encode(paths[k]), BytesForHash(utf8, paths[k], read(paths[k]).value).value)
    ensures AreFilesOf(utf8, read, paths[..k + 1], files + [file])
  {
    assert forall j :: 0 <= j < k ==> paths[..k + 1][j] == paths[..k][j] && (files + [file])[j] == files[j];
  }

  /** Feed the hasher file by file; a file that cannot be read or made canonical stops it. `fed` is
      everything the hasher was given. */
  method HashReferenceSourceFiles(utf8: Encoding, paths: seq<string>, read: Tree)
    returns (fed: Option<seq<Byte>>, ghost files: seq<File>)
    requires forall p :: p in paths ==> Fits(utf8, read, p)
    ensures fed.Some? <==> forall p :: p in paths ==> Hashable(utf8, read, p)
    ensures fed.Some? ==> fed.value == Preimage(files) && AreFilesOf(utf8, read, paths, files)
  {
    hide AreFilesOf, BytesForHash, Framed, Preimage;
    var hasher: seq<Byte> := [];
    files := [];
    NoFileYet(utf8, read, paths);
    for k := 0 to |paths|
      invariant hasher == Preimage(files) && AreFilesOf(utf8, read, paths[..k], files)
    {
      var path := paths[k];
      assert path in paths && Fits(utf8, read, path);
      var raw := read(path);
      if raw.None? {
        return None, files;
      }
      var content := ReferenceSourceBytesForHash(utf8, path, raw.value);
      if content.None? {
        return None, files;
      }
      var file := AnyFile.File(utf8.encode(path), content.value);
      PreimageAppends(files, file);
      OneMoreFile(utf8, read, paths, k, files, file);
      hasher := Update(hasher, file.path, file.content);
      files := files + [file];
    }
    assert paths[..|paths|] == paths;
    AllAreHashable(utf8, read, paths, files);
    fed := Some(hasher);
  }

  lemma SameFilesExactly(utf8: Encoding, paths: seq<string>, a: Tree, b: Tree, mine: seq<File>, theirs: seq<File>,
                         k: nat)
    requires utf8.Valid() && AreFilesOf(utf8, a, paths, mine) && AreFilesOf(utf8, b, paths, theirs) && k < |paths|
    ensures mine[k] == theirs[k] <==> SameToTheHash(utf8, paths[k], a(paths[k]).value, b(paths[k]).value)
  {
    SameBytesExactly(utf8, paths[k], a(paths[k]).value, b(paths[k]).value);
  }

  /** Two source trees feed the hasher the same bytes if and only if every file is the same to the hash. */
  lemma StreamsEqualExactly(utf8: Encoding, paths: seq<string>, a: Tree, b: Tree, mine: seq<File>, theirs: seq<File>)
    requires utf8.Valid() && AreFilesOf(utf8, a, paths, mine) && AreFilesOf(utf8, b, paths, theirs)
    ensures forall p :: p in paths ==> Hashable(utf8, a, p) && Hashable(utf8, b, p)
    ensures Preimage(mine) == Preimage(theirs) <==>
            forall p :: p in paths ==> SameToTheHash(utf8, p, a(p).value, b(p).value)
  {
    AllAreHashable(utf8, a, paths, mine);
    AllAreHashable(utf8, b, paths, theirs);
    if Preimage(mine) == Preimage(theirs) {
      PreimageIsInjective(mine, theirs);
      forall p | p in paths ensures SameToTheHash(utf8, p, a(p).value, b(p).value) {
        var k :| 0 <= k < |paths| && paths[k] == p;
        SameFilesExactly(utf8, paths, a, b, mine, theirs, k);
      }
    }
    if forall p :: p in paths ==> SameToTheHash(utf8, p, a(p).value, b(p).value) {
      forall k | 0 <= k < |mine| ensures mine[k] == theirs[k] {
        SameFilesExactly(utf8, paths, a, b, mine, theirs, k);
      }
      assert mine == theirs;
    }
  }

  /** Two source trees have the same preimage if and only if all their files agree byte for byte, the
      two Cargo files outside the root package version. */
  lemma SourceLockIsExact(utf8: Encoding, paths: seq<string>, a: Tree, b: Tree, mine: seq<File>, theirs: seq<File>)
    requires utf8.Valid() && MANIFEST_PATH in paths && LOCK_PATH in paths
    requires AreFilesOf(utf8, a, paths, mine) && AreFilesOf(utf8, b, paths, theirs)
    ensures Hashable(utf8, a, MANIFEST_PATH) && Hashable(utf8, b, MANIFEST_PATH)
    ensures Hashable(utf8, a, LOCK_PATH) && Hashable(utf8, b, LOCK_PATH)
    ensures Preimage(mine) == Preimage(theirs) <==>
            && (forall p :: p in paths && !IsCargoFile(p) ==> a(p) == b(p))
            && AgreeAt(utf8, false, a(MANIFEST_PATH).value, b(MANIFEST_PATH).value)
            && AgreeAt(utf8, true, a(LOCK_PATH).value, b(LOCK_PATH).value)
  {
    StreamsEqualExactly(utf8, paths, a, b, mine, theirs);
    forall p | p in paths
      ensures SameToTheHash(utf8, p, a(p).value, b(p).value) <==>
              if IsCargoFile(p) then AgreeAt(utf8, p == LOCK_PATH, a(p).value, b(p).value) else a(p) == b(p)
    {
      SameAtPath(utf8, p, a, b);
    }
    assert LOCK_PATH != MANIFEST_PATH;
  }

  predicate AgreeAt(utf8: Encoding, lock: bool, a: seq<Byte>, b: seq<Byte>) {
    var s, t := utf8.decode(a), utf8.decode(b);
    && s.Some? && t.Some? && Site(lock, s.value).Ok? && Site(lock, t.value).Ok?
    && AgreeOutsideTheVersion(lock, s.value, t.value)
  }

  lemma SameAtPath(utf8: Encoding, path: string, a: Tree, b: Tree)
    requires Hashable(utf8, a, path) && Hashable(utf8, b, path)
    ensures SameToTheHash(utf8, path, a(path).value, b(path).value) <==>
            if IsCargoFile(path) then AgreeAt(utf8, path == LOCK_PATH, a(path).value, b(path).value)
            else a(path) == b(path)
  {}

  lemma CommonSourcesHaveTheCargoFiles()
    ensures MANIFEST_PATH in REFERENCE_COMMON_SOURCE_PATHS && LOCK_PATH in REFERENCE_COMMON_SOURCE_PATHS
  {
    var paths := REFERENCE_COMMON_SOURCE_PATHS;
    assert paths[0] == MANIFEST_PATH && paths[1] == LOCK_PATH;
  }
}
