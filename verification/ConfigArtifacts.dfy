/** Publication of the configuration file by temporary file and rename, and recovery of what an
    interrupted publication leaves in its directory. */
module ConfigArtifacts {
  import opened Wrappers
  import opened CrashDisk

  datatype Name = Target | Temp(id: nat) | Backup(id: nat) | Other(text: string)

  /** File contents: a configuration that parses, or anything else. */
  datatype Content = Parses(text: nat) | Malformed(text: nat)

  type ConfigDirectory = Disk<Name, Content>

  type Listing = Image<Name, Content>

  /** What a reader sees behind a name. */
  datatype Seen = Seen(regular: bool, body: Content)

  function Look(file: File<Content>): Seen {
    Seen(file.regular, file.body)
  }

  predicate IsArtifact(n: Name) { n.Temp? || n.Backup? }

  // ---- The verdict on a directory as it is now. ----

  function TempsOf(img: Listing): set<Name> {
    set n | n in img.entries && n.Temp?
  }

  function BackupsOf(img: Listing): set<Name> {
    set n | n in img.entries && n.Backup?
  }

  function SeenAt(img: Listing, n: Name): Option<Seen> {
    if n in img.entries && img.entries[n] in img.files then Some(Look(img.files[img.entries[n]])) else None
  }

  /** The directory holds artifacts that recovery must not touch: one that is no regular file, a
      backup that does not parse, or a choice it cannot make. */
  predicate Refused(img: Listing) {
    || (exists n :: n in TempsOf(img) && !(SeenAt(img, n).Some? && SeenAt(img, n).value.regular))
    || (exists n :: n in BackupsOf(img) && !ValidConfig(SeenAt(img, n)))
    || (TempsOf(img) + BackupsOf(img) != {} && Target in img.entries
        && !(SeenAt(img, Target).Some? && SeenAt(img, Target).value.regular))
    || (Target !in img.entries && exists m, n :: m in BackupsOf(img) && n in BackupsOf(img) && m != n)
    || (Target in img.entries && BackupsOf(img) != {} && !ValidConfig(SeenAt(img, Target)))
  }

  predicate ValidConfig(seen: Option<Seen>) {
    seen.Some? && seen.value.regular && seen.value.body.Parses?
  }

  // ---- The verdict over everything that power loss could leave. ----

  /** The bindings to reckon with: the present one, or all that power loss can bring back. */
  predicate MayBe(img: Listing, power: bool, n: Name, i: Inode) {
    if power then Some(i) in img.Possible(n) else img.Binding(n) == Some(i)
  }

  predicate MayMiss(img: Listing, power: bool, n: Name) {
    if power then None in img.Possible(n) else img.Binding(n) == None
  }

  /** The file is `seen`, certainly. */
  predicate Shows(img: Listing, power: bool, i: Inode, seen: Seen) {
    i in img.files && Look(img.files[i]) == seen && (power ==> img.files[i].synced)
  }

  predicate ShowsConfig(img: Listing, power: bool, i: Inode) {
    && i in img.files && img.files[i].regular && img.files[i].body.Parses?
    && (power ==> img.files[i].synced)
  }

  ghost predicate SomeArtifact(img: Listing, power: bool) {
    exists n, i :: MayBe(img, power, n, i) && IsArtifact(n)
  }

  ghost predicate SomeBackup(img: Listing, power: bool) {
    exists n, i :: MayBe(img, power, n, i) && n.Backup?
  }

  ghost predicate ArtifactsSound(img: Listing, power: bool) {
    && (forall n, i :: MayBe(img, power, n, i) && n.Temp? ==> i in img.files && img.files[i].regular)
    && (forall n, i :: MayBe(img, power, n, i) && n.Backup? ==> ShowsConfig(img, power, i))
  }

  /** `n` is certainly there, certainly holds `seen`, and no other backup can be there. */
  ghost predicate SoleBackup(img: Listing, power: bool, n: Name, seen: Seen) {
    && n.Backup? && !MayMiss(img, power, n)
    && (forall i :: MayBe(img, power, n, i) ==> Shows(img, power, i, seen))
    && (forall m, i :: MayBe(img, power, m, i) && m.Backup? ==> m == n)
  }

  /** Wherever the target is present it is `want`; where it may be missing, nothing but the one
      backup can take its place. */
  ghost predicate TargetIs(img: Listing, power: bool, want: Option<Seen>) {
    && (forall i :: MayBe(img, power, Target, i) ==> want.Some? && Shows(img, power, i, want.value))
    && (MayMiss(img, power, Target) ==>
          if want.None? then !SomeBackup(img, power) else exists n :: SoleBackup(img, power, n, want.value))
    && (SomeArtifact(img, power) && want.Some? ==> want.value.regular)
    && (SomeBackup(img, power) ==> ValidConfig(want))
  }

  /** Recovery, now or after any power loss, settles the target at `want`. */
  ghost predicate Recoverable(img: Listing, power: bool, want: Option<Seen>) {
    ArtifactsSound(img, power) && TargetIs(img, power, want)
  }

  /** What recovery of an acceptable directory makes of the target: itself if it is there, else the
      one backup, else nothing. */
  predicate Settles(img: Listing, want: Option<Seen>) {
    if Target in img.entries then want == SeenAt(img, Target)
    else if BackupsOf(img) == {} then want == None
    else exists n :: n in BackupsOf(img) && want == SeenAt(img, n)
  }

  /** For the directory as it is, being recoverable is being acceptable. */
  lemma RecoverableNow(img: Listing, want: Option<Seen>)
    requires img.Valid()
    ensures Recoverable(img, false, want) <==> !Refused(img) && Settles(img, want)
  {
    BoundFilesExist(img);
    if Recoverable(img, false, want) {
      AcceptableIfRecoverable(img, want);
    }
    if !Refused(img) && Settles(img, want) {
      RecoverableIfAcceptable(img, want);
    }
  }

  lemma BoundFilesExist(img: Listing)
    requires img.Valid()
    ensures forall n :: n in img.entries ==> img.entries[n] in img.files
  {
    forall n | n in img.entries ensures img.entries[n] in img.files {
      assert img.Binding(n) in img.Possible(n);
    }
  }

  lemma AcceptableIfRecoverable(img: Listing, want: Option<Seen>)
    requires forall n :: n in img.entries ==> img.entries[n] in img.files
    requires Recoverable(img, false, want)
    ensures !Refused(img) && Settles(img, want)
  {
    assert forall n :: n in img.entries ==> MayBe(img, false, n, img.entries[n]);
    if Target !in img.entries {
      assert MayMiss(img, false, Target);
      if BackupsOf(img) != {} {
        var m :| m in BackupsOf(img);
        assert MayBe(img, false, m, img.entries[m]) && SomeBackup(img, false);
      }
      if want.Some? {
        var n :| SoleBackup(img, false, n, want.value);
        assert n in BackupsOf(img);
      }
    }
  }

  lemma RecoverableIfAcceptable(img: Listing, want: Option<Seen>)
    requires forall n :: n in img.entries ==> img.entries[n] in img.files
    requires !Refused(img) && Settles(img, want)
    ensures Recoverable(img, false, want)
  {
    forall n, i | MayBe(img, false, n, i) && n.Backup? ensures n in BackupsOf(img) {}
    forall n, i | MayBe(img, false, n, i) && n.Temp? ensures n in TempsOf(img) {}
    if Target !in img.entries && BackupsOf(img) != {} {
      var n :| n in BackupsOf(img) && want == SeenAt(img, n);
      assert SoleBackup(img, false, n, want.value);
    }
  }

  // ---- What each change does to recoverability. ----

  /** Fewer possibilities, none of them changed in what it shows. */
  lemma FewerPossibilitiesKeepRecoverable(img: Listing, power: bool, after: Listing, powerAfter: bool,
                                          want: Option<Seen>)
    requires Recoverable(img, power, want)
    requires forall n, i :: MayBe(after, powerAfter, n, i) ==> MayBe(img, power, n, i)
    requires forall n :: MayMiss(after, powerAfter, n) ==> MayMiss(img, power, n)
    requires forall i :: i in img.files ==>
               && i in after.files && after.files[i].regular == img.files[i].regular
               && ((power ==> img.files[i].synced) ==>
                     after.files[i].body == img.files[i].body && (powerAfter ==> after.files[i].synced))
    ensures Recoverable(after, powerAfter, want)
  {
    if MayMiss(after, powerAfter, Target) && want.Some? {
      var n :| SoleBackup(img, power, n, want.value);
      assert SoleBackup(after, powerAfter, n, want.value);
    }
  }

  lemma SyncKeepsRecoverable(img: Listing, after: Listing, power: bool, want: Option<Seen>)
    requires Recoverable(img, power, want) && after.files == img.files
    requires forall n {:trigger after.Binding(n)} :: after.Binding(n) == img.Binding(n)
    requires forall n {:trigger after.Possible(n)} :: after.Possible(n) <= img.Possible(n)
    ensures Recoverable(after, power, want)
  {
    FewerPossibilitiesKeepRecoverable(img, power, after, power, want);
  }

  lemma PowerLossKeepsRecoverable(img: Listing, after: Listing, power: bool, want: Option<Seen>)
    requires Recoverable(img, true, want) && PowerLoss(img, after)
    ensures Recoverable(after, power, want)
  {
    forall n ensures after.Binding(n) in img.Possible(n) && after.Possible(n) == {after.Binding(n)} {}
    FewerPossibilitiesKeepRecoverable(img, true, after, power, want);
  }

  /** Temporary names may come and go as long as they name regular files. */
  lemma TempChangeKeepsRecoverable(img: Listing, after: Listing, power: bool, want: Option<Seen>)
    requires Recoverable(img, power, want)
    requires forall n: Name, i :: !n.Temp? ==> MayBe(after, power, n, i) == MayBe(img, power, n, i)
    requires forall n: Name :: !n.Temp? ==> MayMiss(after, power, n) == MayMiss(img, power, n)
    requires forall n: Name, i :: MayBe(img, power, n, i) && !n.Temp? && i in img.files ==>
               i in after.files && after.files[i] == img.files[i]
    requires forall n, i :: MayBe(after, power, n, i) && n.Temp? ==> i in after.files && after.files[i].regular
    requires want.Some? ==> want.value.regular
    ensures Recoverable(after, power, want)
  {
    if MayMiss(after, power, Target) && want.Some? {
      var n :| SoleBackup(img, power, n, want.value);
      assert SoleBackup(after, power, n, want.value);
    }
  }

  /** The target may take a certain file that shows what it is to be. */
  lemma RestoringKeepsRecoverable(img: Listing, after: Listing, power: bool, want: Option<Seen>, i: Inode)
    requires Recoverable(img, power, want) && want.Some? && want.value.regular
    requires Rebound(img, after, Target, Some(i)) && after.files == img.files
    requires Shows(img, power, i, want.value)
    ensures Recoverable(after, power, want)
  {
    forall n, j ensures MayBe(after, power, n, j) ==> MayBe(img, power, n, j) || (n == Target && j == i) {}
    forall n ensures MayMiss(after, power, n) ==> MayMiss(img, power, n) {}
    if MayMiss(after, power, Target) {
      var n :| SoleBackup(img, power, n, want.value);
      assert SoleBackup(after, power, n, want.value);
    }
  }

  /** An artifact may go once the target is certainly there; a temporary one may always go. */
  lemma DroppingKeepsRecoverable(img: Listing, after: Listing, power: bool, want: Option<Seen>, n: Name)
    requires Recoverable(img, power, want) && IsArtifact(n)
    requires Rebound(img, after, n, None) && after.files == img.files
    requires n.Temp? || !MayMiss(img, power, Target)
    ensures Recoverable(after, power, want)
    ensures SomeBackup(after, power) ==> SomeBackup(img, power)
  {
    forall m, j ensures MayBe(after, power, m, j) ==> MayBe(img, power, m, j) {}
    forall m ensures MayMiss(after, power, m) ==> MayMiss(img, power, m) || m == n {}
    if MayMiss(after, power, Target) && want.Some? {
      var k :| SoleBackup(img, power, k, want.value);
      assert SoleBackup(after, power, k, want.value);
    }
  }

  // ---- Recovery. ----

  const RESTORE_ATTEMPTS := 128

  /** Nothing but the target and temporary names has changed. */
  ghost predicate OthersKept(img: Listing, after: Listing) {
    && (forall n: Name {:trigger after.Binding(n)} :: n == Target || n.Temp? || after.Binding(n) == img.Binding(n))
    && (forall n: Name {:trigger after.Possible(n)} :: n == Target || n.Temp? || after.Possible(n) <= img.Possible(n))
  }

  /** The artifact is one that recovery may touch. */
  predicate Acceptable(img: Listing, n: Name) {
    SeenAt(img, n).Some? && SeenAt(img, n).value.regular && (n.Backup? ==> SeenAt(img, n).value.body.Parses?)
  }

  /** No name but the target and `names` can come to lead anywhere it could not lead before. */
  ghost predicate OnlyGains(img: Listing, after: Listing, names: set<Name>) {
    forall n, i {:trigger Some(i) in after.Possible(n)} ::
      Some(i) in after.Possible(n) && n != Target && n !in names ==> Some(i) in img.Possible(n)
  }

  /** Check every artifact, all of them even after one has failed. */
  method ValidateArtifacts(disk: ConfigDirectory) returns (ok: bool, temps: set<Name>, backups: set<Name>)
    requires disk.image.Valid()
    modifies disk`script, disk`dead
    ensures temps == TempsOf(disk.image) && backups == BackupsOf(disk.image)
    ensures ok ==>
              && !disk.dead
              && (forall n :: n in temps ==> SeenAt(disk.image, n).Some? && SeenAt(disk.image, n).value.regular)
              && (forall n :: n in backups ==> ValidConfig(SeenAt(disk.image, n)))
    ensures old(disk.Untroubled()) ==>
              disk.Untroubled() && (ok || exists n :: n in temps + backups && !Acceptable(disk.image, n))
  {
    temps, backups := TempsOf(disk.image), BackupsOf(disk.image);
    ok := disk.Looks();
    var todo := temps;
    while todo != {}
      invariant ok ==> !disk.dead
      invariant todo <= temps
      invariant ok ==> forall n :: n in temps - todo ==>
                  SeenAt(disk.image, n).Some? && SeenAt(disk.image, n).value.regular
      invariant old(disk.Untroubled()) ==>
                  disk.Untroubled() && (ok || exists n :: n in temps + backups && !Acceptable(disk.image, n))
      decreases |todo|
    {
      var n :| n in todo;
      var looks := disk.Looks();
      assert n in temps + backups;
      ok := ok && looks && SeenAt(disk.image, n).Some? && SeenAt(disk.image, n).value.regular;
      todo := todo - {n};
    }
    todo := backups;
    while todo != {}
      invariant ok ==> !disk.dead
      invariant todo <= backups
      invariant ok ==> forall n :: n in temps ==> SeenAt(disk.image, n).Some? && SeenAt(disk.image, n).value.regular
      invariant ok ==> forall n :: n in backups - todo ==> ValidConfig(SeenAt(disk.image, n))
      invariant old(disk.Untroubled()) ==>
                  disk.Untroubled() && (ok || exists n :: n in temps + backups && !Acceptable(disk.image, n))
      decreases |todo|
    {
      var n :| n in todo;
      var looks := disk.Looks();
      assert n in temps + backups;
      ok := ok && looks && ValidConfig(SeenAt(disk.image, n));
      todo := todo - {n};
    }
  }

  /** The names in `gone` are unbound; nothing else became possible. */
  ghost predicate Dropped(img: Listing, after: Listing, gone: set<Name>) {
    && after.files == img.files
    && (forall n {:trigger after.Binding(n)} :: after.Binding(n) == if n in gone then None else img.Binding(n))
    && (forall n {:trigger after.Possible(n)} ::
          after.Possible(n) == if n in gone then img.Possible(n) + {None} else img.Possible(n))
  }

  lemma DroppedOneMore(img: Listing, mid: Listing, after: Listing, gone: set<Name>, n: Name)
    requires Dropped(img, mid, gone) && Rebound(mid, after, n, None) && after.files == mid.files && n !in gone
    ensures Dropped(img, after, gone + {n})
  {}

  /** Remove artifacts one after the other, stopping at the first that cannot be removed. */
  method RemoveArtifacts(disk: ConfigDirectory, names: set<Name>, ghost power: bool, ghost want: Option<Seen>)
    returns (ok: bool, ghost gone: set<Name>)
    requires disk.image.Valid() && Recoverable(disk.image, power, want)
    requires forall n :: n in names ==> IsArtifact(n)
    requires (forall n :: n in names ==> n.Temp?) || !MayMiss(disk.image, power, Target)
    modifies disk`image, disk`script, disk`dead
    ensures disk.image.Valid() && Recoverable(disk.image, power, want)
    ensures Dropped(old(disk.image), disk.image, gone) && gone <= names && (ok ==> gone == names)
    ensures old(disk.Untroubled()) ==>
              disk.Untroubled() && (ok || exists n :: n in names && old(disk.image).Binding(n) == None)
  {
    ghost var before := disk.image;
    hide Recoverable;
    var todo := names;
    gone := {};
    while todo != {}
      invariant todo <= names && gone == names - todo
      invariant disk.image.Valid() && Recoverable(disk.image, power, want)
      invariant Dropped(before, disk.image, gone)
      invariant old(disk.Untroubled()) ==> disk.Untroubled()
      decreases |todo|
    {
      var n :| n in todo;
      ghost var halfway := disk.image;
      var removed := disk.Unlink(n);
      if !removed {
        assert halfway.Binding(n) == before.Binding(n);
        return false, gone;
      }
      assert Target !in gone && halfway.Possible(Target) == before.Possible(Target);
      DroppingKeepsRecoverable(halfway, disk.image, power, want, n);
      DroppedOneMore(before, halfway, disk.image, gone, n);
      todo, gone := todo - {n}, gone + {n};
    }
    ok := true;
  }

  /** Changing the contents of a file that only a temporary name can lead to changes no verdict. */
  lemma FillingKeepsRecoverable(img: Listing, after: Listing, power: bool, want: Option<Seen>, temporary: Name,
                                i: Inode)
    requires Recoverable(img, power, want) && (want.Some? ==> want.value.regular)
    requires SameNames(img, after) && temporary.Temp? && forall n, p :: MayBe(img, p, n, i) ==> n == temporary
    requires i in img.files && after.files.Keys == img.files.Keys && after.files[i].regular == img.files[i].regular
    requires forall j :: j in img.files && j != i ==> after.files[j] == img.files[j]
    ensures Recoverable(after, power, want)
    ensures SomeBackup(after, power) ==> SomeBackup(img, power)
    ensures forall n, p :: MayBe(after, p, n, i) ==> n == temporary
  {
    forall n, p, j ensures MayBe(after, p, n, j) == MayBe(img, p, n, j) && MayMiss(after, p, n) == MayMiss(img, p, n) {}
    TempChangeKeepsRecoverable(img, after, power, want);
  }

  /** Fill a temporary file that no other name can lead to, and make its contents certain. */
  method FillTemporary(disk: ConfigDirectory, temporary: Name, i: Inode, body: Content,
                       ghost power: bool, ghost want: Option<Seen>)
    returns (ok: bool)
    requires disk.image.Valid() && Recoverable(disk.image, power, want) && (want.Some? ==> want.value.regular)
    requires temporary.Temp? && i in disk.image.files && disk.image.files[i].regular
    requires forall n, p :: MayBe(disk.image, p, n, i) ==> n == temporary
    modifies disk`image, disk`script, disk`dead
    ensures disk.image.Valid() && Recoverable(disk.image, power, want) && SameNames(old(disk.image), disk.image)
    ensures SomeBackup(disk.image, power) ==> SomeBackup(old(disk.image), power)
    ensures disk.image.files.Keys == old(disk.image.files.Keys)
    ensures forall j :: j in old(disk.image.files) && j != i ==> disk.image.files[j] == old(disk.image).files[j]
    ensures ok ==> !disk.dead && disk.image.files[i] == File(true, body, true)
    ensures old(disk.Untroubled()) ==> ok && disk.Untroubled()
  {
    ghost var before := disk.image;
    ok := disk.Write(i, body);
    FillingKeepsRecoverable(before, disk.image, power, want, temporary, i);
    if ok {
      ghost var written := disk.image;
      ok := disk.SyncFile(i);
      FillingKeepsRecoverable(written, disk.image, power, want, temporary, i);
    }
  }

  /** Publish a filled temporary file under the target name and make that certain. */
  method PublishFilled(disk: ConfigDirectory, temporary: Name, i: Inode, body: Content,
                       ghost power: bool, ghost want: Option<Seen>)
    returns (ok: bool)
    requires disk.image.Valid() && Recoverable(disk.image, power, want) && want == Some(Seen(true, body))
    requires temporary.Temp? && disk.image.Binding(temporary) == Some(i)
    requires i in disk.image.files && disk.image.files[i] == File(true, body, true)
    modifies disk`image, disk`script, disk`dead
    ensures disk.image.Valid() && Recoverable(disk.image, power, want) && disk.image.files == old(disk.image.files)
    ensures OthersKept(old(disk.image), disk.image) && OnlyGains(old(disk.image), disk.image, {})
    ensures forall n: Name :: n.Temp? && n != temporary ==> disk.image.Binding(n) == old(disk.image).Binding(n)
    ensures ok ==>
              && !disk.dead && disk.image.Binding(temporary) == None && disk.image.Binding(Target) == Some(i)
              && (forall n {:trigger disk.image.Possible(n)} :: disk.image.Possible(n) == {disk.image.Binding(n)})
    ensures old(disk.Untroubled()) ==> ok && disk.Untroubled()
  {
    ghost var ready := disk.image;
    ghost var between;
    ok, between := disk.Rename(temporary, Target);
    if ok {
      RestoringKeepsRecoverable(ready, between, power, want, i);
      DroppingKeepsRecoverable(between, disk.image, power, want, temporary);
      ghost var renamed := disk.image;
      ok := disk.SyncDirectory();
      FewerPossibilitiesKeepRecoverable(renamed, power, disk.image, power, want);
    }
  }

  method WithdrawTemporary(disk: ConfigDirectory, temporary: Name, ghost power: bool, ghost want: Option<Seen>)
    requires disk.image.Valid() && Recoverable(disk.image, power, want) && temporary.Temp?
    modifies disk`image, disk`script, disk`dead
    ensures disk.image.Valid() && Recoverable(disk.image, power, want)
    ensures disk.image.files == old(disk.image.files) && OthersKept(old(disk.image), disk.image)
    ensures disk.image.Binding(Target) == old(disk.image).Binding(Target)
    ensures SomeBackup(disk.image, power) ==> SomeBackup(old(disk.image), power)
    ensures old(disk.Untroubled()) ==> disk.Untroubled()
    ensures OnlyGains(old(disk.image), disk.image, {})
  {
    ghost var before := disk.image;
    var looks := disk.Looks();
    if looks && temporary in disk.image.entries {
      var removed := disk.Unlink(temporary);
      if removed {
        DroppingKeepsRecoverable(before, disk.image, power, want, temporary);
      }
    }
  }

  /** Create a temporary file that no other name can lead to. */
  method OpenTemporary(disk: ConfigDirectory, temporary: Name, ghost power: bool, ghost want: Option<Seen>)
    returns (status: Status, i: Inode)
    requires disk.image.Valid() && Recoverable(disk.image, power, want) && (want.Some? ==> want.value.regular)
    requires temporary.Temp?
    modifies disk`image, disk`script, disk`dead
    ensures disk.image.Valid() && Recoverable(disk.image, power, want)
    ensures SomeBackup(disk.image, power) ==> SomeBackup(old(disk.image), power)
    ensures !status.Done? ==> disk.image == old(disk.image)
    ensures status.Done? ==>
              && old(disk.image).Binding(temporary) == None
              && Rebound(old(disk.image), disk.image, temporary, Some(i))
              && i in disk.image.files && disk.image.files[i].regular
              && forall n, p :: MayBe(disk.image, p, n, i) ==> n == temporary
    ensures old(disk.Untroubled()) ==>
              disk.Untroubled() && status == if old(disk.image).Binding(temporary) == None then Done else Exists
  {
    ghost var before := disk.image;
    status, i := disk.CreateNew(temporary, Malformed(0));
    if status.Done? {
      forall n, p | MayBe(disk.image, p, n, i) ensures n == temporary {
        assert Some(i) !in before.Possible(n);
      }
      TempChangeKeepsRecoverable(before, disk.image, power, want);
    }
  }

  /** One attempt to restore the target, through one temporary name; on failure try to take that name
      away again. */
  method RestoreThrough(disk: ConfigDirectory, temporary: Name, body: Content, ghost power: bool,
                        ghost want: Option<Seen>)
    returns (status: Status)
    requires disk.image.Valid() && Recoverable(disk.image, power, want) && want == Some(Seen(true, body))
    requires temporary.Temp?
    modifies disk`image, disk`script, disk`dead
    ensures disk.image.Valid() && Recoverable(disk.image, power, want) && OthersKept(old(disk.image), disk.image)
    ensures OnlyGains(old(disk.image), disk.image, {temporary})
    ensures status.Exists? ==> disk.image == old(disk.image)
    ensures old(disk.Untroubled()) ==>
              disk.Untroubled() && status == if old(disk.image).Binding(temporary) == None then Done else Exists
    ensures status.Done? ==>
              && !disk.dead && SeenAt(disk.image, Target) == want
              && (forall n: Name :: n.Temp? ==> disk.image.Binding(n) == old(disk.image).Binding(n))
              && (forall n {:trigger disk.image.Possible(n)} :: disk.image.Possible(n) == {disk.image.Binding(n)})
  {
    hide Recoverable;
    var i;
    status, i := OpenTemporary(disk, temporary, power, want);
    if !status.Done? {
      return;
    }
    var ok := FillTemporary(disk, temporary, i, body, power, want);
    if ok {
      ok := PublishFilled(disk, temporary, i, body, power, want);
    }
    if !ok {
      WithdrawTemporary(disk, temporary, power, want);
      return Failed;
    }
    assert disk.image.Binding(Target) == Some(i);
  }

  /** Some candidate is not taken. */
  predicate SomeFree(img: Listing, candidates: seq<Name>) {
    exists k :: 0 <= k < |candidates| && candidates[k] !in img.entries
  }

  function AsNames(candidates: seq<Name>): set<Name> {
    set n | n in candidates
  }

  /** Restore the target from a backup through the first free temporary name. Untroubled, this succeeds
      exactly when some candidate is free. */
  method RestoreBackup(disk: ConfigDirectory, source: Name, candidates: seq<Name>, ghost power: bool,
                       ghost want: Option<Seen>)
    returns (ok: bool)
    requires disk.image.Valid() && Recoverable(disk.image, power, want)
    requires source in BackupsOf(disk.image) && SeenAt(disk.image, source).Some? && want == SeenAt(disk.image, source)
    requires ValidConfig(want)
    requires |candidates| == RESTORE_ATTEMPTS && forall k :: 0 <= k < |candidates| ==> candidates[k].Temp?
    modifies disk`image, disk`script, disk`dead
    ensures disk.image.Valid() && Recoverable(disk.image, power, want) && OthersKept(old(disk.image), disk.image)
    ensures OnlyGains(old(disk.image), disk.image, AsNames(candidates))
    ensures old(disk.Untroubled()) ==> disk.Untroubled() && (ok <==> SomeFree(old(disk.image), candidates))
    ensures ok ==>
              && !disk.dead && SeenAt(disk.image, Target) == want
              && (forall n: Name :: n.Temp? ==> disk.image.Binding(n) == old(disk.image).Binding(n))
              && (forall n {:trigger disk.image.Possible(n)} :: disk.image.Possible(n) == {disk.image.Binding(n)})
  {
    ghost var before := disk.image;
    var body := disk.image.files[disk.image.entries[source]].body;
    for attempt := 0 to RESTORE_ATTEMPTS
      invariant disk.image == before
      invariant old(disk.Untroubled()) ==>
                  disk.Untroubled() && forall k :: 0 <= k < attempt ==> candidates[k] in before.entries
    {
      assert candidates[attempt] in AsNames(candidates);
      var status := RestoreThrough(disk, candidates[attempt], body, power, want);
      if !status.Exists? {
        return status.Done?;
      }
    }
    ok := false;
  }

  lemma SameBindingsSameArtifacts(img: Listing, after: Listing)
    requires forall n: Name :: IsArtifact(n) ==> after.Binding(n) == img.Binding(n)
    ensures TempsOf(after) == TempsOf(img) && BackupsOf(after) == BackupsOf(img)
  {
    forall n | IsArtifact(n) ensures n in after.entries <==> n in img.entries {
      assert after.Binding(n) == img.Binding(n);
    }
  }

  /** Artifacts may have gone; nothing became possible but that. */
  ghost predicate Trimmed(img: Listing, after: Listing) {
    && after.files == img.files
    && (forall n: Name {:trigger after.Binding(n)} :: IsArtifact(n) || after.Binding(n) == img.Binding(n))
    && (forall n: Name {:trigger after.Possible(n)} :: IsArtifact(n) || after.Possible(n) <= img.Possible(n))
    && OnlyGains(img, after, {})
  }

  lemma DroppingTrims(img: Listing, mid: Listing, after: Listing, gone: set<Name>)
    requires Trimmed(img, mid) && Dropped(mid, after, gone) && forall n :: n in gone ==> IsArtifact(n)
    ensures Trimmed(img, after)
  {
    forall n, i | Some(i) in after.Possible(n) && n != Target ensures Some(i) in img.Possible(n) {
      assert Some(i) in mid.Possible(n);
    }
  }

  lemma TrimmedTwice(img: Listing, mid: Listing, after: Listing)
    requires Trimmed(img, mid) && Trimmed(mid, after)
    ensures Trimmed(img, after)
  {
    forall n, i | Some(i) in after.Possible(n) && n != Target ensures Some(i) in img.Possible(n) {
      assert Some(i) in mid.Possible(n);
    }
  }

  lemma SyncingTrims(img: Listing, mid: Listing, after: Listing)
    requires Trimmed(img, mid) && after.files == mid.files
    requires forall n {:trigger after.Binding(n)} :: after.Binding(n) == mid.Binding(n)
    requires forall n {:trigger after.Possible(n)} :: after.Possible(n) <= mid.Possible(n)
    ensures Trimmed(img, after)
  {
    forall n, i | Some(i) in after.Possible(n) && n != Target ensures Some(i) in img.Possible(n) {
      assert Some(i) in mid.Possible(n);
    }
  }

  lemma NoArtifactLeft(img: Listing, halfway: Listing, after: Listing, temps: set<Name>, backups: set<Name>)
    requires temps == TempsOf(img) && backups == BackupsOf(img)
    requires Dropped(img, halfway, temps) && Dropped(halfway, after, backups)
    ensures forall n: Name :: IsArtifact(n) ==> after.Binding(n) == None
  {
    forall n: Name | IsArtifact(n) ensures after.Binding(n) == None {
      assert halfway.Binding(n) == if n in temps then None else img.Binding(n);
    }
  }

  /** The temporary names first, then the backups. */
  method RemoveAllArtifacts(disk: ConfigDirectory, temps: set<Name>, backups: set<Name>,
                            ghost power: bool, ghost want: Option<Seen>)
    returns (ok: bool)
    requires disk.image.Valid() && Recoverable(disk.image, power, want)
    requires temps == TempsOf(disk.image) && backups == BackupsOf(disk.image)
    requires backups != {} ==> !MayMiss(disk.image, power, Target)
    modifies disk`image, disk`script, disk`dead
    ensures disk.image.Valid() && Recoverable(disk.image, power, want) && Trimmed(old(disk.image), disk.image)
    ensures ok ==> forall n: Name :: IsArtifact(n) ==> disk.image.Binding(n) == None
    ensures old(disk.Untroubled()) ==> ok && disk.Untroubled()
  {
    ghost var before := disk.image;
    ghost var gone;
    ok, gone := RemoveArtifacts(disk, temps, power, want);
    DroppingTrims(before, before, disk.image, gone);
    if !ok {
      return;
    }
    ghost var halfway := disk.image;
    assert Target !in gone && halfway.Possible(Target) == before.Possible(Target)
           && halfway.Binding(Target) == before.Binding(Target);
    ok, gone := RemoveArtifacts(disk, backups, power, want);
    DroppingTrims(before, halfway, disk.image, gone);
    if ok {
      NoArtifactLeft(before, halfway, disk.image, temps, backups);
    }
  }

  /** Remove all artifacts of a directory whose target, if it had backups, is in place. The directory
      is synced first, so that no power loss can miss the target once a backup is gone. */
  method CleanUpArtifacts(disk: ConfigDirectory, temps: set<Name>, backups: set<Name>,
                          ghost power: bool, ghost want: Option<Seen>)
    returns (ok: bool)
    requires disk.image.Valid() && Recoverable(disk.image, power, want)
    requires temps == TempsOf(disk.image) && backups == BackupsOf(disk.image)
    requires backups != {} ==> disk.image.Binding(Target) != None
    modifies disk`image, disk`script, disk`dead
    ensures disk.image.Valid() && Recoverable(disk.image, power, want) && Trimmed(old(disk.image), disk.image)
    ensures ok ==>
              && (forall n: Name :: IsArtifact(n) ==> disk.image.Binding(n) == None)
              && (forall n {:trigger disk.image.Possible(n)} :: disk.image.Possible(n) == {disk.image.Binding(n)})
    ensures old(disk.Untroubled()) ==> ok && disk.Untroubled()
  {
    ghost var before := disk.image;
    ok := disk.SyncDirectory();
    SyncingTrims(before, before, disk.image);
    if !ok {
      return;
    }
    ghost var synced := disk.image;
    SyncKeepsRecoverable(before, synced, power, want);
    SameBindingsSameArtifacts(before, synced);
    assert synced.Possible(Target) == {before.Binding(Target)};
    ok := RemoveAllArtifacts(disk, temps, backups, power, want);
    TrimmedTwice(before, synced, disk.image);
    if !ok {
      return;
    }
    ghost var removed := disk.image;
    ok := disk.SyncDirectory();
    SyncKeepsRecoverable(removed, disk.image, power, want);
    SyncingTrims(before, removed, disk.image);
  }

  /** What is to become of the target, read off the directory as it is. */
  lemma RecoverableSettles(img: Listing, power: bool, want: Option<Seen>)
    requires img.Valid() && Recoverable(img, power, want)
    ensures !Refused(img) && Settles(img, want)
  {
    FewerPossibilitiesKeepRecoverable(img, power, img, false, want);
    RecoverableNow(img, want);
  }

  /** The target is gone and a backup can take its place. */
  predicate NeedsRestore(img: Listing) {
    Target !in img.entries && BackupsOf(img) != {}
  }

  /** Put the target in place, unless that needs a choice recovery will not make. */
  method SettleTarget(disk: ConfigDirectory, candidates: seq<Name>, backups: set<Name>, ghost power: bool,
                      ghost want: Option<Seen>)
    returns (ok: bool)
    requires disk.image.Valid() && TempsOf(disk.image) + BackupsOf(disk.image) != {}
    requires Refused(disk.image) || Recoverable(disk.image, power, want)
    requires backups == BackupsOf(disk.image) && forall n :: n in backups ==> ValidConfig(SeenAt(disk.image, n))
    requires forall n :: n in TempsOf(disk.image) ==> SeenAt(disk.image, n).Some? && SeenAt(disk.image, n).value.regular
    requires |candidates| == RESTORE_ATTEMPTS && forall k :: 0 <= k < |candidates| ==> candidates[k].Temp?
    modifies disk`image, disk`script, disk`dead
    ensures disk.image.Valid()
    ensures Refused(old(disk.image)) ==> !ok && disk.image == old(disk.image)
    ensures !Refused(old(disk.image)) ==>
              Recoverable(disk.image, power, want) && OthersKept(old(disk.image), disk.image)
    ensures ok ==> TempsOf(disk.image) == TempsOf(old(disk.image)) && BackupsOf(disk.image) == backups
    ensures ok && backups != {} ==> disk.image.Binding(Target) != None
    ensures OnlyGains(old(disk.image), disk.image, AsNames(candidates))
    ensures old(disk.Untroubled()) && !Refused(old(disk.image)) ==>
              disk.Untroubled() && (ok <==> (NeedsRestore(old(disk.image)) ==> SomeFree(old(disk.image), candidates)))
  {
    ghost var before := disk.image;
    BoundFilesExist(before);
    var looks := disk.Looks();
    if !looks {
      return false;
    }
    if Target in disk.image.entries {
      if !SeenAt(disk.image, Target).value.regular {
        return false;
      }
      if backups != {} {
        looks := disk.Looks();
        ok := looks && ValidConfig(SeenAt(disk.image, Target));
        return;
      }
      return true;
    }
    if backups == {} {
      return true;
    }
    var source :| source in backups;
    if backups != {source} {
      assert exists n :: n in backups && n != source;
      return false;
    }
    RecoverableSettles(before, power, want);
    ok := RestoreBackup(disk, source, candidates, power, want);
    if ok {
      SameBindingsSameArtifacts(before, disk.image);
    }
  }

  /** What a recovery may do to a directory. A refused one stays as it is. Otherwise, whatever fails and
      wherever the process dies, what recovery would settle on stays the same; a recovery that is `done`
      has settled it, for certain, and left no artifact. */
  ghost predicate Recovers(img: Listing, candidates: seq<Name>, power: bool, want: Option<Seen>,
                           after: Listing, done: bool)
  {
    && after.Valid()
    && (if Refused(img) then !done && after == img else Recoverable(after, power, want))
    && (forall n: Name :: n.Other? ==>
          after.Binding(n) == img.Binding(n) && after.Possible(n) <= img.Possible(n))
    && OnlyGains(img, after, AsNames(candidates))
    && (done ==>
          && TempsOf(after) + BackupsOf(after) == {}
          && SeenAt(after, Target) == want && Settles(img, want))
    && (done && TempsOf(img) + BackupsOf(img) != {} ==>
          forall n {:trigger after.Possible(n)} :: after.Possible(n) == {after.Binding(n)})
  }

  /** A recovery that nothing happens to gets done: the directory is not refused, and a temporary name is
      free if one is needed. */
  predicate GetsDone(img: Listing, candidates: seq<Name>) {
    !Refused(img) && (NeedsRestore(img) ==> SomeFree(img, candidates))
  }

  /** Recovery of stale artifacts. */
  method Recover(disk: ConfigDirectory, candidates: seq<Name>, ghost power: bool, ghost want: Option<Seen>)
    returns (ok: bool)
    requires disk.image.Valid()
    requires Refused(disk.image) || Recoverable(disk.image, power, want)
    requires |candidates| == RESTORE_ATTEMPTS && forall k :: 0 <= k < |candidates| ==> candidates[k].Temp?
    modifies disk`image, disk`script, disk`dead
    ensures Recovers(old(disk.image), candidates, power, want, disk.image, ok)
    ensures old(disk.Untroubled()) ==> (ok <==> GetsDone(old(disk.image), candidates))
  {
    hide Recoverable;
    ghost var before := disk.image;
    var valid, temps, backups := ValidateArtifacts(disk);
    if !valid {
      return false;
    }
    if temps + backups == {} {
      RecoverableSettles(before, power, want);
      BoundFilesExist(before);
      return true;
    }
    ok := SettleTarget(disk, candidates, backups, power, want);
    if !ok {
      return;
    }
    ok := CleanUpArtifacts(disk, temps, backups, power, want);
    if ok {
      RecoverableSettles(before, power, want);
      RecoverableSettles(disk.image, power, want);
      assert forall n :: n in TempsOf(disk.image) + BackupsOf(disk.image) ==> disk.image.Binding(n) == None;
      assert TempsOf(disk.image) + BackupsOf(disk.image) == {};
    }
  }

  // ---- Recovery over crashes. ----

  /** A directory as a boot leaves it, with every file synced and every name certain. */
  ghost predicate Booted(img: Listing) {
    img.Valid() && img.pending == map[] && forall i :: i in img.files ==> img.files[i].synced
  }

  lemma SettledDirectoryIsRecoverable(img: Listing, want: Option<Seen>)
    requires Booted(img) && !Refused(img) && Settles(img, want)
    ensures Recoverable(img, true, want)
  {
    RecoverableNow(img, want);
    FewerPossibilitiesKeepRecoverable(img, false, img, true, want);
  }

  datatype PowerCut = PowerCut(pick: Name -> Option<Inode>, bodies: Inode -> Content)

  /** A recovery that goes as its script says, and what the power does before the next one. */
  datatype Attempt = Attempt(script: seq<Fate<Content>>, candidates: seq<Name>, cut: Option<PowerCut>)

  predicate WellFormed(a: Attempt) {
    |a.candidates| == RESTORE_ATTEMPTS && forall k :: 0 <= k < |a.candidates| ==> a.candidates[k].Temp?
  }

  function NamesUsed(attempts: seq<Attempt>): set<Name> {
    if attempts == [] then {} else NamesUsed(attempts[..|attempts| - 1]) + AsNames(attempts[|attempts| - 1].candidates)
  }

  /** One of the last candidates is new: `start` cannot have it and no earlier attempt tried it. */
  ghost predicate SomeNew(start: Listing, attempts: seq<Attempt>, last: Attempt) {
    exists k :: 0 <= k < |last.candidates| && last.candidates[k] !in NamesUsed(attempts)
                && start.Possible(last.candidates[k]) == {None}
  }

  function AfterCut(img: Listing, cut: Option<PowerCut>): Listing {
    if cut.None? then img else AfterPowerLoss(img, cut.value.pick, cut.value.bodies)
  }

  /** What an attempt makes of a directory, with what the power does to it. */
  ghost predicate Follows(img: Listing, a: Attempt, want: Option<Seen>, after: Listing) {
    exists mid, done ::
      && Recovers(img, a.candidates, true, want, mid, done) && after == AfterCut(mid, a.cut)
      && (a.script == [] ==> done == GetsDone(img, a.candidates))
  }

  lemma CutKeepsRecoverable(img: Listing, cut: Option<PowerCut>, want: Option<Seen>)
    requires img.Valid() && Recoverable(img, true, want)
    ensures AfterCut(img, cut).Valid() && Recoverable(AfterCut(img, cut), true, want)
    ensures forall n {:trigger AfterCut(img, cut).Possible(n)} :: AfterCut(img, cut).Possible(n) <= img.Possible(n)
  {
    if cut.Some? {
      var after := AfterCut(img, cut);
      PowerLossIsAChoice(img, cut.value.pick, cut.value.bodies);
      PowerLossKeepsValid(img, after);
      PowerLossKeepsRecoverable(img, after, true, want);
      forall n ensures after.Possible(n) <= img.Possible(n) {
        assert after.Possible(n) == {after.Binding(n)};
      }
    }
  }

  /** One attempt, and the power cut that may follow. */
  method MakeAttempt(disk: ConfigDirectory, a: Attempt, ghost want: Option<Seen>)
    requires disk.image.Valid() && Recoverable(disk.image, true, want) && WellFormed(a)
    modifies disk
    ensures disk.image.Valid() && Recoverable(disk.image, true, want)
    ensures Follows(old(disk.image), a, want, disk.image)
    ensures OnlyGains(old(disk.image), disk.image, AsNames(a.candidates))
    ensures forall n: Name :: n.Other? ==> disk.image.Possible(n) <= old(disk.image).Possible(n)
  {
    hide Recoverable;
    ghost var before := disk.image;
    disk.script, disk.dead := a.script, false;
    RecoverableSettles(before, true, want);
    var done := Recover(disk, a.candidates, true, want);
    ghost var mid := disk.image;
    CutKeepsRecoverable(mid, a.cut, want);
    disk.image := AfterCut(disk.image, a.cut);
    assert Recovers(before, a.candidates, true, want, mid, done);
  }

  /** Recovery interrupted at any call, by the death of the process or of the machine, and started
      over any number of times, still settles what one uninterrupted recovery of `start` settles.
      `moments` are the directories between the attempts. An undisturbed last attempt gets there exactly
      when a temporary name is free or none is needed, and always if one of its names is new. */
  method RecoverThroughCrashes(start: Listing, attempts: seq<Attempt>, last: Attempt, ghost want: Option<Seen>)
    returns (moments: seq<Listing>, img: Listing, ok: bool)
    requires start.Valid() && Recoverable(start, true, want)
    requires forall a :: a in attempts + [last] ==> WellFormed(a)
    ensures |moments| == |attempts| + 1 && moments[0] == start
    ensures forall k :: 0 <= k < |attempts| ==> Follows(moments[k], attempts[k], want, moments[k + 1])
    ensures forall k :: 0 <= k <= |attempts| ==> moments[k].Valid() && Recoverable(moments[k], true, want)
    ensures Recovers(moments[|attempts|], last.candidates, true, want, img, ok) && Recoverable(img, true, want)
    ensures last.script == [] ==> (ok <==> GetsDone(moments[|attempts|], last.candidates))
    ensures last.script == [] && SomeNew(start, attempts, last) ==> ok
    ensures ok ==> Settles(start, want)
    ensures forall n: Name :: n.Other? ==> img.Possible(n) <= start.Possible(n)
  {
    hide Recoverable, Recovers, Follows;
    RecoverableSettles(start, true, want);
    var disk := new Disk<Name, Content>(start, {}, []);
    moments := [start];
    for k := 0 to |attempts|
      invariant fresh(disk) && |moments| == k + 1 && moments[0] == start && moments[k] == disk.image
      invariant forall j :: 0 <= j < k ==> Follows(moments[j], attempts[j], want, moments[j + 1])
      invariant forall j :: 0 <= j <= k ==> moments[j].Valid() && Recoverable(moments[j], true, want)
      invariant OnlyGains(start, disk.image, NamesUsed(attempts[..k]))
      invariant forall n: Name :: n.Other? ==> disk.image.Possible(n) <= start.Possible(n)
    {
      assert attempts[k] in attempts + [last];
      assert attempts[..k + 1][..k] == attempts[..k];
      ghost var before := disk.image;
      MakeAttempt(disk, attempts[k], want);
      GainsAddUp(start, before, disk.image, attempts, k);
      moments := moments + [disk.image];
    }
    assert attempts[..|attempts|] == attempts;
    assert last in attempts + [last];
    ghost var met := disk.image;
    disk.script, disk.dead := last.script, false;
    RecoverableSettles(met, true, want);
    NewNamesAreFree(start, met, attempts, last);
    ok := Recover(disk, last.candidates, true, want);
    img := disk.image;
    RecoveringKeeps(met, last.candidates, want, img, ok);
  }

  lemma GainsAddUp(start: Listing, mid: Listing, after: Listing, attempts: seq<Attempt>, k: nat)
    requires k < |attempts| && OnlyGains(start, mid, NamesUsed(attempts[..k]))
    requires OnlyGains(mid, after, AsNames(attempts[k].candidates))
    ensures OnlyGains(start, after, NamesUsed(attempts[..k + 1]))
  {
    assert attempts[..k + 1][..k] == attempts[..k];
    forall n, i | Some(i) in after.Possible(n) && n != Target && n !in NamesUsed(attempts[..k + 1])
      ensures Some(i) in start.Possible(n)
    {
      assert Some(i) in mid.Possible(n);
    }
  }

  lemma RecoveringKeeps(img: Listing, candidates: seq<Name>, want: Option<Seen>, after: Listing, done: bool)
    requires Recovers(img, candidates, true, want, after, done) && !Refused(img)
    ensures Recoverable(after, true, want)
    ensures forall n: Name :: n.Other? ==> after.Possible(n) <= img.Possible(n)
    ensures done ==> TempsOf(after) + BackupsOf(after) == {} && SeenAt(after, Target) == want
  {}

  lemma NewNamesAreFree(start: Listing, met: Listing, attempts: seq<Attempt>, last: Attempt)
    requires OnlyGains(start, met, NamesUsed(attempts)) && WellFormed(last)
    ensures SomeNew(start, attempts, last) ==> SomeFree(met, last.candidates)
  {
    if k :| 0 <= k < |last.candidates| && last.candidates[k] !in NamesUsed(attempts)
            && start.Possible(last.candidates[k]) == {None}
    {
      assert met.Binding(last.candidates[k]) in met.Possible(last.candidates[k]);
    }
  }

  lemma SomethingSettles(img: Listing) returns (want: Option<Seen>)
    ensures Settles(img, want)
  {
    if Target in img.entries {
      want := SeenAt(img, Target);
    } else if BackupsOf(img) == {} {
      want := None;
    } else {
      var n :| n in BackupsOf(img);
      want := SeenAt(img, n);
    }
  }

  /** From a booted directory that is not refused: whatever interrupts the earlier attempts, an
      undisturbed one with a new name settles the directory for good, and every other name still leads
      where it did. */
  method RecoverAfterBoot(start: Listing, attempts: seq<Attempt>, last: Attempt) returns (img: Listing)
    requires Booted(start) && !Refused(start) && last.script == [] && SomeNew(start, attempts, last)
    requires forall a :: a in attempts + [last] ==> WellFormed(a)
    ensures TempsOf(img) + BackupsOf(img) == {} && Settles(start, SeenAt(img, Target))
    ensures forall n: Name :: n.Other? ==> img.Binding(n) == start.Binding(n)
  {
    ghost var want := SomethingSettles(start);
    SettledDirectoryIsRecoverable(start, want);
    var moments, ok;
    moments, img, ok := RecoverThroughCrashes(start, attempts, last, want);
    RecoverableSettles(moments[|attempts|], true, want);
    RecoveringKeeps(moments[|attempts|], last.candidates, want, img, ok);
    forall n: Name | n.Other? ensures img.Binding(n) == start.Binding(n) {
      assert img.Binding(n) in img.Possible(n) && start.Possible(n) == {start.Binding(n)};
    }
  }

  // ---- Publication. ----

  datatype SaveOutcome = Durable | ReplacedButDurabilityUnconfirmed | NotPublished

  /** Between the rename and the sync the target is the old or the new configuration, never neither. */
  ghost predicate Publishing(img: Listing, want: Option<Seen>, body: Content) {
    && (forall n, i :: MayBe(img, true, n, i) && n.Temp? ==> i in img.files && img.files[i].regular)
    && !SomeBackup(img, true)
    && (forall i :: MayBe(img, true, Target, i) ==>
          (want.Some? && Shows(img, true, i, want.value)) || Shows(img, true, i, Seen(true, body)))
    && (MayMiss(img, true, Target) ==> want.None?)
    && (want.Some? ==> want.value.regular)
  }

  /** Power loss during a publication leaves a directory that settles the old or the new file. */
  lemma PowerLossDuringPublication(img: Listing, after: Listing, want: Option<Seen>, body: Content)
    requires Publishing(img, want, body) && PowerLoss(img, after)
    ensures Recoverable(after, true, want) || Recoverable(after, true, Some(Seen(true, body)))
  {
    forall n ensures after.Binding(n) in img.Possible(n) && after.Possible(n) == {after.Binding(n)} {}
    assert forall n, i :: MayBe(after, true, n, i) ==> MayBe(img, true, n, i);
    assert MayMiss(after, true, Target) ==> MayMiss(img, true, Target);
  }

  method WriteAndPublish(disk: ConfigDirectory, temporary: Name, body: Content, ghost want: Option<Seen>)
    returns (outcome: SaveOutcome)
    requires disk.image.Valid() && Recoverable(disk.image, true, want) && !SomeBackup(disk.image, true)
    requires (want.Some? ==> want.value.regular) && temporary.Temp?
    modifies disk`image, disk`script, disk`dead
    ensures disk.image.Valid() && Publishing(disk.image, want, body)
    ensures outcome.NotPublished? ==>
              && Recoverable(disk.image, true, want) && disk.image.Binding(Target) == old(disk.image).Binding(Target)
    ensures !outcome.NotPublished? ==>
              && SeenAt(disk.image, Target) == Some(Seen(true, body))
              && disk.image.Binding(temporary) == None && old(disk.image).Binding(temporary) == None
    ensures outcome.Durable? ==> Recoverable(disk.image, true, Some(Seen(true, body)))
    ensures old(disk.Untroubled()) ==>
              outcome == if old(disk.image).Binding(temporary) == None then Durable else NotPublished
  {
    var status, i := OpenTemporary(disk, temporary, true, want);
    if !status.Done? {
      NothingPublished(disk.image, want, body);
      return NotPublished;
    }
    assert disk.image.Binding(temporary) == Some(i) && disk.image.Binding(Target) == old(disk.image).Binding(Target);
    var ok := FillTemporary(disk, temporary, i, body, true, want);
    outcome := NotPublished;
    if ok {
      outcome := Replace(disk, temporary, i, body, want);
    }
    if outcome.NotPublished? {
      WithdrawTemporary(disk, temporary, true, want);
      NothingPublished(disk.image, want, body);
    }
  }

  /** Rename over the target, then sync the directory. */
  method Replace(disk: ConfigDirectory, temporary: Name, i: Inode, body: Content, ghost want: Option<Seen>)
    returns (outcome: SaveOutcome)
    requires disk.image.Valid() && Recoverable(disk.image, true, want) && !SomeBackup(disk.image, true)
    requires (want.Some? ==> want.value.regular) && temporary.Temp? && disk.image.Binding(temporary) == Some(i)
    requires i in disk.image.files && disk.image.files[i] == File(true, body, true)
    modifies disk`image, disk`script, disk`dead
    ensures disk.image.Valid() && disk.image.files == old(disk.image.files)
    ensures outcome.NotPublished? ==> disk.image == old(disk.image)
    ensures !outcome.NotPublished? ==>
              && Publishing(disk.image, want, body)
              && disk.image.Binding(Target) == Some(i) && disk.image.Binding(temporary) == None
    ensures outcome.Durable? ==> Recoverable(disk.image, true, Some(Seen(true, body)))
    ensures old(disk.Untroubled()) ==> outcome.Durable?
  {
    ghost var ready := disk.image;
    var ok;
    ghost var between;
    ok, between := disk.Rename(temporary, Target);
    if !ok {
      return NotPublished;
    }
    RenamePublishes(ready, between, disk.image, temporary, i, want, body);
    ghost var renamed := disk.image;
    var synced := disk.SyncDirectory();
    if synced {
      SyncSettlesPublication(renamed, disk.image, i, want, body);
    }
    outcome := if synced then Durable else ReplacedButDurabilityUnconfirmed;
  }

  lemma NothingPublished(img: Listing, want: Option<Seen>, body: Content)
    requires Recoverable(img, true, want) && !SomeBackup(img, true) && (want.Some? ==> want.value.regular)
    ensures Publishing(img, want, body)
  {
    if want.Some? && MayMiss(img, true, Target) {
      var n :| SoleBackup(img, true, n, want.value);
      BackupIsThere(img, n);
    }
  }

  lemma RenamePublishes(ready: Listing, between: Listing, after: Listing, temporary: Name, i: Inode,
                        want: Option<Seen>, body: Content)
    requires Recoverable(ready, true, want) && !SomeBackup(ready, true) && (want.Some? ==> want.value.regular)
    requires temporary.Temp? && i in ready.files && ready.files[i] == File(true, body, true)
    requires Rebound(ready, between, Target, Some(i)) && Rebound(between, after, temporary, None)
    requires after.files == ready.files
    ensures Publishing(after, want, body)
  {
    forall n, j ensures MayBe(after, true, n, j) ==> MayBe(ready, true, n, j) || (n == Target && j == i) {
      assert after.Possible(n) == if n == temporary then between.Possible(n) + {None} else between.Possible(n);
    }
    if want.Some? && MayMiss(ready, true, Target) {
      var n :| SoleBackup(ready, true, n, want.value);
      BackupIsThere(ready, n);
    }
    assert MayMiss(after, true, Target) ==> MayMiss(ready, true, Target) by {
      assert after.Possible(Target) == between.Possible(Target);
    }
  }

  lemma BackupIsThere(img: Listing, n: Name)
    requires n.Backup? && !MayMiss(img, true, n)
    ensures SomeBackup(img, true)
  {
    assert img.Binding(n) in img.Possible(n);
    assert MayBe(img, true, n, img.Binding(n).value);
  }

  lemma SyncSettlesPublication(renamed: Listing, after: Listing, i: Inode, want: Option<Seen>, body: Content)
    requires Publishing(renamed, want, body) && renamed.Binding(Target) == Some(i)
    requires i in renamed.files && renamed.files[i] == File(true, body, true) && after.files == renamed.files
    requires forall n {:trigger after.Possible(n)} :: after.Possible(n) == {renamed.Binding(n)}
    ensures Publishing(after, want, body) && Recoverable(after, true, Some(Seen(true, body)))
  {
    forall n, j ensures MayBe(after, true, n, j) ==> MayBe(renamed, true, n, j) {
      assert after.Possible(n) == {renamed.Binding(n)} && renamed.Binding(n) in renamed.Possible(n);
    }
    assert after.Possible(Target) == {Some(i)};
  }
}
