/** How a lease descriptor gets its public name, and how abandoned staging files are swept. */
module LeasePublication {
  import opened Wrappers
  import opened CrashDisk

  datatype Name = Lease(id: nat) | Staging(id: nat, nonce: nat) | Other(text: string)

  /** `Whole` is the complete encoding of one descriptor, `Torn` anything else. */
  datatype Content = Whole(descriptor: nat) | Torn

  type FamilyDirectory = Disk<Name, Content>

  type Listing = Image<Name, Content>

  /** A directory and the files that live owners have locked. */
  datatype Moment = Moment(img: Listing, locks: set<Inode>)

  /** What a scanner may find behind a lease name. */
  predicate Sound(file: File<Content>, durable: bool) {
    file.regular && file.body.Whole? && (durable ==> file.synced)
  }

  /** The bindings of a name that matter: for durable families also those that power loss can bring
      back. */
  function Relevant(img: Listing, durable: bool, n: Name): set<Option<Inode>> {
    if durable then img.Possible(n) else {img.Binding(n)}
  }

  /** Every lease name is absent or names a complete descriptor. */
  ghost predicate LeaseSafe(img: Listing, durable: bool) {
    forall n: Name, b :: n.Lease? && b in Relevant(img, durable, n) && b.Some? ==>
      b.value in img.files && Sound(img.files[b.value], durable)
  }

  lemma PowerLossKeepsLeaseSafe(img: Listing, after: Listing)
    requires LeaseSafe(img, true) && PowerLoss(img, after)
    ensures LeaseSafe(after, true)
  {
    forall n: Name, b | n.Lease? && b in Relevant(after, true, n) && b.Some?
      ensures b.value in after.files && Sound(after.files[b.value], true)
    {
      assert b == after.Binding(n);
      assert b in Relevant(img, true, n);
    }
  }

  /** A lease name with a complete synced descriptor that power loss cannot take away. */
  ghost predicate Settled(img: Listing, n: Name, body: nat) {
    && n.Lease? && img.Binding(n).Some? && img.Possible(n) == {img.Binding(n)}
    && img.Binding(n).value in img.files && img.files[img.Binding(n).value] == File(true, Whole(body), true)
  }

  // ---- Cleanup bound to the inode it was armed for. ----

  /** Remove `n` if it still names `i`, and try to make that durable. */
  method CleanUp(disk: FamilyDirectory, n: Name, i: Inode) returns (removed: bool)
    requires disk.image.Valid()
    modifies disk`image, disk`script, disk`dead
    ensures disk.image.Valid() && disk.image.files == old(disk.image.files) && disk.image.next == old(disk.image.next)
    ensures removed ==> old(disk.image).Binding(n) == Some(i)
    ensures NameLoses(old(disk.image), disk.image, n, removed)
    ensures !removed ==> disk.image == old(disk.image)
    ensures old(disk.dead) ==> disk.dead && !removed
    ensures old(disk.Untroubled()) ==> disk.Untroubled() && (removed <==> old(disk.image).Binding(n) == Some(i))
  {
    var looks := disk.Looks();
    if !looks || disk.image.Binding(n) != Some(i) {
      return false;
    }
    removed := disk.Unlink(n);
    if removed {
      var synced := disk.SyncDirectory();
    }
  }

  /** At most `n` lost its binding; nothing became possible but that. */
  ghost predicate NameLoses(img: Listing, after: Listing, n: Name, lost: bool) {
    && (forall m {:trigger after.Binding(m)} :: after.Binding(m) == if m == n && lost then None else img.Binding(m))
    && (forall m, b {:trigger b in after.Possible(m)} :: b in after.Possible(m) ==>
          b in img.Possible(m) || (m == n && lost && b == None))
  }

  lemma LosingKeepsLeaseSafe(img: Listing, after: Listing, durable: bool, n: Name, lost: bool)
    requires LeaseSafe(img, durable) && NameLoses(img, after, n, lost) && after.files == img.files
    ensures LeaseSafe(after, durable)
  {
    forall m: Name, b | m.Lease? && b in Relevant(after, durable, m) && b.Some?
      ensures b.value in after.files && Sound(after.files[b.value], durable)
    {
      assert b in Relevant(img, durable, m);
    }
  }

  // ---- Creation. ----

  /** The step that failed. */
  datatype CreateError =
    | OpenStaging | StatStaging | PrepareStaging | WriteStaging | LinkFinal | StatFinal | SettleFinal

  /** Every file of `img` is still there, unchanged. */
  ghost predicate FilesKept(img: Listing, after: Listing) {
    forall j :: j in img.files ==> j in after.files && after.files[j] == img.files[j]
  }

  /** Build the complete descriptor on a name that no scanner reads. */
  method Stage(disk: FamilyDirectory, durable: bool, staging: Name, body: nat)
    returns (error: Option<CreateError>, i: Inode)
    requires disk.image.Valid() && staging.Staging?
    modifies disk
    ensures disk.image.Valid() && i == old(disk.image.next) && FilesKept(old(disk.image), disk.image)
    ensures error == Some(OpenStaging) ==> disk.image == old(disk.image)
    ensures error != Some(OpenStaging) ==>
              && old(disk.image).Binding(staging) == None && i in disk.image.files
              && Rebound(old(disk.image), disk.image, staging, Some(i))
    ensures error.None? ==>
              && !disk.dead && Sound(disk.image.files[i], durable) && disk.image.files[i].body == Whole(body)
              && i !in old(disk.locks) && disk.locks == old(disk.locks) + {i}
    ensures error.Some? ==> disk.locks == old(disk.locks)
    ensures error.Some? ==> error.value in {OpenStaging, StatStaging, PrepareStaging, WriteStaging}
    ensures old(disk.dead) ==> disk.dead
    ensures old(disk.Untroubled()) ==> disk.Untroubled()
    ensures old(disk.Untroubled()) && i !in old(disk.locks) ==>
              (error.None? <==> old(disk.image).Binding(staging) == None)
  {
    var status;
    status, i := disk.CreateNew(staging, Torn);
    if !status.Done? {
      return Some(OpenStaging), i;
    }
    var ok := disk.Looks();
    if !ok {
      return Some(StatStaging), i;
    }
    ok := disk.Looks();
    if !ok {
      return Some(PrepareStaging), i;
    }
    status := disk.TryLock(i);
    if !status.Done? {
      return Some(PrepareStaging), i;
    }
    ok := WriteWhole(disk, durable, i, body);
    if !ok {
      disk.Close(i);
      return Some(WriteStaging), i;
    }
    error := None;
  }

  /** Write the encoded descriptor, sync it where it has to outlive a power loss, and check that the
      staging name still leads to it. */
  method WriteWhole(disk: FamilyDirectory, durable: bool, i: Inode, body: nat) returns (ok: bool)
    requires disk.image.Valid() && i in disk.image.files && disk.image.files[i].regular
    modifies disk`image, disk`script, disk`dead
    ensures disk.image.Valid() && SameNames(old(disk.image), disk.image)
            && disk.image.files.Keys == old(disk.image).files.Keys
    ensures forall j :: j in disk.image.files && j != i ==> disk.image.files[j] == old(disk.image).files[j]
    ensures ok ==> !disk.dead && Sound(disk.image.files[i], durable) && disk.image.files[i].body == Whole(body)
    ensures old(disk.dead) ==> disk.dead
    ensures old(disk.Untroubled()) ==> ok && disk.Untroubled()
  {
    ok := disk.Write(i, Whole(body));
    if ok && durable {
      ok := disk.SyncFile(i);
    }
    if ok {
      ok := disk.Looks();
    }
  }

  /** Link the staged file under its public name and, for a durable family, make that name certain. */
  method LinkStaged(disk: FamilyDirectory, durable: bool, staging: Name, final: Name, i: Inode)
    returns (error: Option<CreateError>)
    requires disk.image.Valid() && disk.image.Binding(staging) == Some(i)
    modifies disk`image, disk`script, disk`dead
    ensures disk.image.Valid() && disk.image.files == old(disk.image.files)
    ensures error == Some(LinkFinal) ==> disk.image == old(disk.image)
    ensures error != Some(LinkFinal) ==>
              && old(disk.image).Binding(final) == None
              && NameGains(old(disk.image), disk.image, final, i)
    ensures error.Some? ==> error.value in {LinkFinal, StatFinal, SettleFinal}
    ensures error.None? ==>
              && !disk.dead
              && (durable ==> disk.image.Possible(final) == {Some(i)})
    ensures old(disk.dead) ==> disk.dead
    ensures old(disk.Untroubled()) ==> disk.Untroubled() && (error.None? <==> old(disk.image).Binding(final) == None)
  {
    var ok := disk.HardLink(staging, final);
    if !ok {
      return Some(LinkFinal);
    }
    ok := disk.Looks();
    if !ok {
      return Some(StatFinal);
    }
    ok := disk.Looks();
    if ok && durable {
      ok := disk.SyncDirectory();
    }
    error := if ok then None else Some(SettleFinal);
  }

  /** `n` is now bound to `i`; nothing else became possible. */
  ghost predicate NameGains(img: Listing, after: Listing, n: Name, i: Inode) {
    && (forall m {:trigger after.Binding(m)} :: after.Binding(m) == if m == n then Some(i) else img.Binding(m))
    && (forall m, b {:trigger b in after.Possible(m)} :: b in after.Possible(m) ==>
          b in img.Possible(m) || (m == n && b == Some(i)))
  }

  lemma GainingKeepsLeaseSafe(img: Listing, after: Listing, durable: bool, n: Name, i: Inode)
    requires LeaseSafe(img, durable) && NameGains(img, after, n, i) && FilesKept(img, after)
    requires n.Lease? ==> i in after.files && Sound(after.files[i], durable)
    ensures LeaseSafe(after, durable)
  {
    forall m: Name, b | m.Lease? && b in Relevant(after, durable, m) && b.Some?
      ensures b.value in after.files && Sound(after.files[b.value], durable)
    {
      assert b in Relevant(img, durable, m) || (m == n && b == Some(i));
    }
  }

  /** Remove the staging name once the public one is in place, and check the public one again. */
  method RetireStaging(disk: FamilyDirectory, staging: Name, i: Inode) returns (ok: bool, retired: bool)
    requires disk.image.Valid() && disk.image.Binding(staging) == Some(i)
    modifies disk`image, disk`script, disk`dead
    ensures disk.image.Valid() && disk.image.files == old(disk.image.files)
    ensures NameLoses(old(disk.image), disk.image, staging, retired)
    ensures ok ==> retired && !disk.dead
    ensures old(disk.dead) ==> disk.dead
    ensures old(disk.Untroubled()) ==> ok && disk.Untroubled()
  {
    retired := false;
    ok := disk.Looks();
    if ok {
      retired := disk.Unlink(staging);
      ok := disk.Looks();
      ok := ok && retired;
    }
  }

  /** Drop the guards that are still armed, the one on the public name first. */
  method Withdraw(disk: FamilyDirectory, durable: bool, staging: Name, final: Name, i: Inode, armed: bool)
    returns (cleaned: bool)
    requires disk.image.Valid() && LeaseSafe(disk.image, durable) && staging != final
    modifies disk`image, disk`script, disk`dead
    ensures disk.image.Valid() && LeaseSafe(disk.image, durable) && disk.image.files == old(disk.image.files)
    ensures forall n :: n != staging && n != final ==> disk.image.Binding(n) == old(disk.image).Binding(n)
    ensures forall n, b {:trigger b in disk.image.Possible(n)} :: b in disk.image.Possible(n) ==>
              b in old(disk.image).Possible(n) || ((n == staging || (n == final && armed)) && b == None)
    ensures disk.image.Binding(final) in {old(disk.image).Binding(final), None}
    ensures !armed ==> disk.image.Binding(final) == old(disk.image).Binding(final)
    ensures cleaned && armed && old(disk.image).Binding(final) == Some(i) ==> disk.image.Binding(final) == None
    ensures disk.image.Binding(staging) in {old(disk.image).Binding(staging), None}
    ensures cleaned ==> disk.image.Binding(staging) != Some(i)
    ensures old(disk.Untroubled()) && !armed ==> cleaned && disk.Untroubled()
  {
    ghost var before := disk.image;
    cleaned := true;
    if armed {
      cleaned := CleanUp(disk, final, i);
      LosingKeepsLeaseSafe(before, disk.image, durable, final, cleaned);
    }
    ghost var halfway := disk.image;
    var removed := CleanUp(disk, staging, i);
    LosingKeepsLeaseSafe(halfway, disk.image, durable, staging, removed);
    cleaned := cleaned && disk.image.Binding(staging) != Some(i);
  }

  /** Give the staged descriptor its public name and drop the staging name; on failure undo what can be
      undone. */
  method PublishStaged(disk: FamilyDirectory, durable: bool, staging: Name, final: Name, i: Inode)
    returns (error: Option<CreateError>, cleaned: bool)
    requires disk.image.Valid() && LeaseSafe(disk.image, durable) && staging.Staging? && final.Lease?
    requires disk.image.Binding(staging) == Some(i)
    requires i in disk.image.files && Sound(disk.image.files[i], durable)
    modifies disk
    ensures disk.image.Valid() && LeaseSafe(disk.image, durable) && disk.image.files == old(disk.image.files)
    ensures forall n :: n != staging && n != final ==>
              && disk.image.Binding(n) == old(disk.image).Binding(n)
              && disk.image.Possible(n) <= old(disk.image).Possible(n)
    ensures old(disk.image).Binding(final).Some? ==>
              && error.Some? && disk.image.Binding(final) == old(disk.image).Binding(final)
              && disk.image.Possible(final) <= old(disk.image).Possible(final)
    ensures error.None? ==>
              && disk.image.Binding(staging) == None && disk.image.Binding(final) == Some(i)
              && (durable ==> disk.image.Possible(final) == {Some(i)}) && disk.locks == old(disk.locks)
    ensures error.Some? ==>
              error.value in {LinkFinal, StatFinal, SettleFinal} && disk.locks == old(disk.locks) - {i}
    ensures error.Some? && cleaned ==> disk.image.Binding(staging) == None
    ensures error.Some? && cleaned && error.value != StatFinal ==>
              disk.image.Binding(final) == old(disk.image).Binding(final)
    ensures old(disk.Untroubled()) ==>
              && (error.None? <==> old(disk.image).Binding(final) == None)
              && (error.Some? ==> cleaned && error.value == LinkFinal)
  {
    hide LeaseSafe;
    ghost var staged := disk.image;
    error := LinkStaged(disk, durable, staging, final, i);
    if error != Some(LinkFinal) {
      GainingKeepsLeaseSafe(staged, disk.image, durable, final, i);
    }
    ghost var linked := disk.image;
    if error.None? {
      var ok, retired := RetireStaging(disk, staging, i);
      LosingKeepsLeaseSafe(linked, disk.image, durable, staging, retired);
      if ok {
        return None, true;
      }
      error := Some(SettleFinal);
    }
    disk.Close(i);
    cleaned := Withdraw(disk, durable, staging, final, i, error == Some(SettleFinal));
  }

  /** The names are there for the taking. */
  predicate BothFree(img: Listing, staging: Name, final: Name) {
    img.Binding(staging) == None && img.Binding(final) == None
  }

  /** What a creation may do to a directory. Whatever fails, and wherever the process dies, no file
      changes and no existing name is clobbered. A creation that is `made` has settled the new name on
      the complete descriptor, which its owner has locked. */
  ghost predicate Creates(m: Moment, after: Moment, durable: bool, staging: Name, final: Name, body: nat, made: bool) {
    && FilesKept(m.img, after.img)
    && (forall n :: n != staging && n != final ==>
          after.img.Binding(n) == m.img.Binding(n) && after.img.Possible(n) <= m.img.Possible(n))
    && (m.img.Binding(final).Some? ==>
          && !made && after.img.Binding(final) == m.img.Binding(final)
          && after.img.Possible(final) <= m.img.Possible(final))
    && (made ==>
          && after.img.Binding(staging) == None && after.img.Binding(final) == Some(m.img.next)
          && m.img.next in after.img.files && after.img.files[m.img.next].body == Whole(body)
          && (durable ==> Settled(after.img, final, body))
          && after.locks == m.locks + {m.img.next})
    && (!made ==> after.locks == m.locks)
  }

  /** Create a lease descriptor: every lease name stays absent or complete throughout. Untroubled, a
      creation succeeds exactly when both names are free, and otherwise leaves every name alone.
      `cleaned` says that every cleanup that was still armed removed its name. */
  method Create(disk: FamilyDirectory, durable: bool, staging: Name, final: Name, body: nat)
    returns (r: Result<Inode, CreateError>, cleaned: bool)
    requires disk.image.Valid() && LeaseSafe(disk.image, durable) && staging.Staging? && final.Lease?
    modifies disk
    ensures disk.image.Valid() && LeaseSafe(disk.image, durable)
    ensures Creates(Moment(old(disk.image), old(disk.locks)), Moment(disk.image, disk.locks),
                    durable, staging, final, body, r.Ok?)
    ensures r.Ok? ==> r.value == old(disk.image.next)
    ensures r.Err? && cleaned && r.error != StatFinal ==> disk.image.Binding(final) == old(disk.image).Binding(final)
    ensures r.Err? && cleaned && r.error != StatStaging ==>
              disk.image.Binding(staging) == old(disk.image).Binding(staging)
    ensures old(disk.Untroubled()) && old(disk.image).next !in old(disk.locks) ==>
              && (r.Ok? <==> BothFree(old(disk.image), staging, final))
              && (r.Err? ==> cleaned && (r.error.OpenStaging? || r.error.LinkFinal?))
  {
    hide LeaseSafe;
    ghost var before := disk.image;
    var error, i := Stage(disk, durable, staging, body);
    if error == Some(OpenStaging) {
      return Err(OpenStaging), true;
    }
    assert NameGains(before, disk.image, staging, i);
    GainingKeepsLeaseSafe(before, disk.image, durable, staging, i);
    ghost var staged := disk.image;
    if error.Some? {
      cleaned := true;
      if error != Some(StatStaging) {
        cleaned := CleanUp(disk, staging, i);
        LosingKeepsLeaseSafe(staged, disk.image, durable, staging, cleaned);
      }
      return Err(error.value), cleaned;
    }
    error, cleaned := PublishStaged(disk, durable, staging, final, i);
    r := if error.None? then Ok(i) else Err(error.value);
  }

  // ---- Sweeping. ----

  /** A name that a sweep leaves alone: not a staging name, or one whose file is locked. */
  predicate Protected(img: Listing, locks: set<Inode>, n: Name) {
    img.Binding(n) == None || !n.Staging? || img.Binding(n).value in locks
  }

  /** What `n` leads to, if anything, is a regular file. */
  predicate IsRegular(img: Listing, n: Name) {
    img.Binding(n).Some? ==> img.Binding(n).value in img.files && img.files[img.Binding(n).value].regular
  }

  /** Remove one staging name whose inode nobody has locked. `lost` says whether the name went,
      which a retried removal can also do on the way out of an error. */
  method RemoveAbandonedStaging(disk: FamilyDirectory, n: Name) returns (ok: bool, lost: bool)
    requires disk.image.Valid()
    modifies disk
    ensures disk.image.Valid() && disk.image.files == old(disk.image.files) && disk.locks == old(disk.locks)
    ensures NameLoses(old(disk.image), disk.image, n, lost)
    ensures lost ==> n.Staging? && n in old(disk.image).entries && old(disk.image).entries[n] !in old(disk.locks)
    ensures ok && !lost ==>
              !n.Staging? || n !in old(disk.image).entries || old(disk.image).entries[n] in old(disk.locks)
    ensures old(disk.dead) ==> disk.dead
    ensures old(disk.Untroubled()) ==>
              && disk.Untroubled()
              && (ok <==> Protected(old(disk.image), old(disk.locks), n) || IsRegular(old(disk.image), n))
  {
    if !n.Staging? {
      return true, false;
    }
    var looks := disk.Looks();
    if !looks {
      return false, false;
    }
    if n !in disk.image.entries {
      return true, false;
    }
    var i := disk.image.entries[n];
    assert disk.image.Binding(n) in disk.image.Possible(n);
    var status := disk.TryLock(i);
    if !status.Done? {
      return status.Exists?, false;
    }
    var verified := disk.Looks();
    if !verified || !disk.image.files[i].regular {
      disk.Close(i);
      return false, false;
    }
    looks := disk.Looks();
    lost := false;
    if looks {
      lost := disk.Unlink(n);
    }
    ok := lost;
    if !ok {
      lost := CleanUp(disk, n, i);
    }
    disk.Close(i);
  }

  /** What a sweep may do to a directory. No lease name and no locked file loses its name; a sweep that
      is `done` has left no abandoned staging name. */
  ghost predicate Sweeps(m: Moment, after: Moment, done: bool) {
    && after.img.files == m.img.files && after.locks == m.locks
    && (forall n: Name :: n.Staging? ||
          (after.img.Binding(n) == m.img.Binding(n) && after.img.Possible(n) <= m.img.Possible(n)))
    && (forall n: Name :: Protected(m.img, m.locks, n) ==> after.img.Binding(n) == m.img.Binding(n))
    && (forall n: Name :: after.img.Binding(n) in {m.img.Binding(n), None})
    && (done ==> forall n: Name :: after.img.Binding(n) != None ==> Protected(m.img, m.locks, n))
  }

  /** Whatever is not to be left alone can be removed. */
  ghost predicate Sweepable(m: Moment) {
    forall n: Name :: Protected(m.img, m.locks, n) || IsRegular(m.img, n)
  }

  /** Sweep a family directory. Untroubled, the sweep gets done exactly when every abandoned staging
      name leads to a regular file. */
  method SweepStaging(disk: FamilyDirectory, durable: bool) returns (ok: bool)
    requires disk.image.Valid() && LeaseSafe(disk.image, durable)
    modifies disk
    ensures disk.image.Valid() && LeaseSafe(disk.image, durable)
    ensures Sweeps(Moment(old(disk.image), old(disk.locks)), Moment(disk.image, disk.locks), ok)
    ensures old(disk.Untroubled()) ==> (ok <==> Sweepable(Moment(old(disk.image), old(disk.locks))))
  {
    hide LeaseSafe;
    ghost var before := disk.image;
    var todo := disk.image.entries.Keys;
    var removedAny := false;
    while todo != {}
      invariant disk.image.Valid() && LeaseSafe(disk.image, durable)
      invariant disk.image.files == before.files && disk.locks == old(disk.locks)
      invariant todo <= before.entries.Keys
      invariant forall n: Name :: Protected(before, disk.locks, n) ==> disk.image.Binding(n) == before.Binding(n)
      invariant forall n: Name :: disk.image.Binding(n) == before.Binding(n) || disk.image.Binding(n) == None
      invariant forall n: Name :: n in todo ==> disk.image.Binding(n) == before.Binding(n)
      invariant forall n: Name :: n !in todo && !Protected(before, disk.locks, n) ==> disk.image.Binding(n) == None
      invariant forall n: Name :: n.Staging? || disk.image.Possible(n) <= before.Possible(n)
      invariant old(disk.Untroubled()) ==> disk.Untroubled()
      invariant old(disk.Untroubled()) ==>
                  forall n: Name :: n in todo || Protected(before, disk.locks, n) || IsRegular(before, n)
      decreases |todo|
    {
      var n :| n in todo;
      ghost var halfway := disk.image;
      assert halfway.Binding(n) == before.Binding(n);
      var removed, lost := RemoveAbandonedStaging(disk, n);
      LosingKeepsLeaseSafe(halfway, disk.image, durable, n, lost);
      LosingShrinks(halfway, disk.image, n, lost);
      if !removed {
        if old(disk.Untroubled()) {
          assert !Protected(halfway, disk.locks, n) && !IsRegular(halfway, n);
          assert !Protected(before, disk.locks, n) && !IsRegular(before, n);
        }
        return false;
      }
      removedAny := removedAny || lost;
      todo := todo - {n};
    }
    ok := true;
    if removedAny {
      ghost var swept := disk.image;
      ok := disk.SyncDirectory();
      SubsetKeepsLeaseSafe(swept, disk.image, durable);
    }
  }

  lemma LosingShrinks(img: Listing, after: Listing, n: Name, lost: bool)
    requires NameLoses(img, after, n, lost) && (lost ==> n.Staging?)
    ensures forall m: Name :: m.Staging? || after.Possible(m) <= img.Possible(m)
  {
    forall m: Name | !m.Staging? ensures after.Possible(m) <= img.Possible(m) {
      forall b | b in after.Possible(m) ensures b in img.Possible(m) {}
    }
  }

  lemma SubsetKeepsLeaseSafe(img: Listing, after: Listing, durable: bool)
    requires LeaseSafe(img, durable) && after.files == img.files
    requires forall n {:trigger after.Binding(n)} :: after.Binding(n) == img.Binding(n)
    requires forall n {:trigger after.Possible(n)} :: after.Possible(n) <= img.Possible(n)
    ensures LeaseSafe(after, durable)
  {
    forall m: Name, b | m.Lease? && b in Relevant(after, durable, m) && b.Some?
      ensures b.value in after.files && Sound(after.files[b.value], durable)
    {
      assert b in Relevant(img, durable, m);
    }
  }

  // ---- Runs. ----

  /** What can happen to the directory of a durable family. Every process may fail or die anywhere
      in its script. */
  datatype Action =
    | Creation(staging: Name, final: Name, body: nat, script: seq<Fate<Content>>)
    | Sweep(script: seq<Fate<Content>>)
    | OwnerGone(i: Inode)
    | PowerOff(pick: Name -> Option<Inode>, bodies: Inode -> Content)

  lemma PowerLossKeepsSettled(img: Listing, after: Listing, n: Name, body: nat)
    requires img.Valid() && PowerLoss(img, after) && Settled(img, n, body)
    ensures Settled(after, n, body)
  {
    assert after.Binding(n) in img.Possible(n);
  }

  /** Leases that are settled in the first directory are settled in the second. */
  ghost predicate KeepsSettled(img: Listing, after: Listing) {
    forall n, body :: Settled(img, n, body) ==> Settled(after, n, body)
  }

  /** What each action does. A process that nothing happens to creates its lease exactly when both names
      are free, and else changes no name; it finishes its sweep exactly when it can. */
  ghost predicate Follows(m: Moment, action: Action, after: Moment) {
    match action
    case Creation(staging, final, body, script) =>
      if staging.Staging? && final.Lease? then
        exists made: bool ::
          && Creates(m, after, true, staging, final, body, made)
          && (script == [] ==> made == BothFree(m.img, staging, final))
          && (script == [] && !made ==> forall n :: after.img.Binding(n) == m.img.Binding(n))
      else
        after == m
    case Sweep(script) =>
      exists done: bool :: Sweeps(m, after, done) && (script == [] ==> done == Sweepable(m))
    case OwnerGone(i) => after == m.(locks := m.locks - {i})
    case PowerOff(pick, bodies) => after == Moment(AfterPowerLoss(m.img, pick, bodies), {})
  }

  ghost predicate Sane(m: Moment) {
    m.img.Valid() && LeaseSafe(m.img, true) && m.locks <= m.img.files.Keys
  }

  /** One action of a run. */
  method Act(disk: FamilyDirectory, action: Action)
    requires Sane(Moment(disk.image, disk.locks))
    modifies disk
    ensures Sane(Moment(disk.image, disk.locks))
    ensures Follows(Moment(old(disk.image), old(disk.locks)), action, Moment(disk.image, disk.locks))
    ensures KeepsSettled(old(disk.image), disk.image)
  {
    ghost var before := Moment(disk.image, disk.locks);
    disk.dead := false;
    match action {
      case Creation(staging, final, body, script) =>
        if staging.Staging? && final.Lease? {
          disk.script := script;
          var r, cleaned := Create(disk, true, staging, final, body);
          CreationKeepsSettled(before.img, disk.image, staging, final);
          assert Creates(before, Moment(disk.image, disk.locks), true, staging, final, body, r.Ok?);
        }
      case Sweep(script) =>
        disk.script := script;
        var ok := SweepStaging(disk, true);
        SweepKeepsSettled(before.img, disk.image);
        assert Sweeps(before, Moment(disk.image, disk.locks), ok);
      case OwnerGone(i) =>
        disk.Close(i);
      case PowerOff(pick, bodies) =>
        disk.image := AfterPowerLoss(disk.image, pick, bodies);
        disk.locks := {};
        PowerLossIsAChoice(before.img, pick, bodies);
        PowerLossKeepsValid(before.img, disk.image);
        PowerLossKeepsLeaseSafe(before.img, disk.image);
        forall n, body | Settled(before.img, n, body) ensures Settled(disk.image, n, body) {
          PowerLossKeepsSettled(before.img, disk.image, n, body);
        }
    }
  }

  /** The moments of every run of creations, sweeps, owner deaths and power losses: each follows from the
      one before by its action, every lease name is absent or complete in all of them, and a lease that
      is settled in one is settled, with its contents, in all later ones. */
  method RunDirectory(start: Listing, actions: seq<Action>) returns (moments: seq<Moment>)
    requires start.Valid() && LeaseSafe(start, true)
    ensures |moments| == |actions| + 1 && moments[0] == Moment(start, {})
    ensures forall k :: 0 <= k < |actions| ==> Follows(moments[k], actions[k], moments[k + 1])
    ensures forall k :: 0 <= k < |moments| ==> Sane(moments[k])
    ensures forall j, k :: 0 <= j <= k < |moments| ==> KeepsSettled(moments[j].img, moments[k].img)
  {
    var disk := new Disk<Name, Content>(start, {}, []);
    moments := [Moment(start, {})];
    for k := 0 to |actions|
      invariant fresh(disk)
      invariant |moments| == k + 1 && moments[0] == Moment(start, {})
      invariant moments[k] == Moment(disk.image, disk.locks)
      invariant forall j :: 0 <= j < k ==> Follows(moments[j], actions[j], moments[j + 1])
      invariant forall j :: 0 <= j <= k ==> Sane(moments[j])
      invariant forall i, j :: 0 <= i <= j <= k ==> KeepsSettled(moments[i].img, moments[j].img)
    {
      Act(disk, actions[k]);
      moments := moments + [Moment(disk.image, disk.locks)];
    }
  }

  lemma CreationKeepsSettled(img: Listing, after: Listing, staging: Name, final: Name)
    requires staging.Staging? && FilesKept(img, after)
    requires forall n :: n != staging && n != final ==>
               after.Binding(n) == img.Binding(n) && after.Possible(n) <= img.Possible(n)
    requires img.Binding(final).Some? ==>
               after.Binding(final) == img.Binding(final) && after.Possible(final) <= img.Possible(final)
    ensures KeepsSettled(img, after)
  {}

  lemma SweepKeepsSettled(img: Listing, after: Listing)
    requires after.files == img.files
    requires forall n: Name :: n.Staging? ||
               (after.Binding(n) == img.Binding(n) && after.Possible(n) <= img.Possible(n))
    ensures KeepsSettled(img, after)
  {}
}
