/** One directory of a file system that can lose power, and the system calls of one process on it.
    A change to a directory entry is certain only after the directory is synced, and the contents of
    a file only after the file is synced. Any call may fail, and the process may die at any call. */
module CrashDisk {
  import opened Wrappers

  type Inode = nat

  datatype File<+D> = File(regular: bool, body: D, synced: bool)

  /** `pending` holds, for every name changed since the directory was last synced, what it was bound
      to at some moment since then: power loss may bring any of those bindings back. */
  datatype Image<!N(==,!new), +D> = Image(
    entries: map<N, Inode>,
    files: map<Inode, File<D>>,
    pending: map<N, set<Option<Inode>>>,
    next: Inode)
  {
    function Binding(n: N): Option<Inode> {
      if n in entries then Some(entries[n]) else None
    }

    function Possible(n: N): set<Option<Inode>> {
      {Binding(n)} + if n in pending then pending[n] else {}
    }

    function Rebind(n: N, b: Option<Inode>): Image<N, D> {
      this.(entries := if b.Some? then entries[n := b.value] else entries - {n},
            pending := pending[n := Possible(n)])
    }

    function Put(i: Inode, file: File<D>): Image<N, D> {
      this.(files := files[i := file])
    }

    /** A fresh regular file with nothing certain about its contents, bound to `n`. */
    function Created(n: N, body: D): Image<N, D> {
      this.(files := files[next := File(true, body, false)], next := next + 1).Rebind(n, Some(next))
    }

    function DirectorySynced(): Image<N, D> {
      this.(pending := map[])
    }

    /** Every inode that a name is or may become bound to exists. */
    ghost predicate Valid() {
      && (forall i :: i in files ==> i < next)
      && (forall n, b :: b in Possible(n) && b.Some? ==> b.value in files)
    }
  }

  lemma RebindPossible<N(!new), D>(img: Image<N, D>, n: N, b: Option<Inode>, m: N)
    ensures img.Rebind(n, b).Possible(m) == if m == n then img.Possible(n) + {b} else img.Possible(m)
    ensures img.Rebind(n, b).Binding(m) == if m == n then b else img.Binding(m)
  {}

  /** Only `n` changed its binding, to `b`; power loss may still bring back what it was bound to. */
  ghost predicate Rebound<N(!new), D>(img: Image<N, D>, after: Image<N, D>, n: N, b: Option<Inode>) {
    && (forall m {:trigger after.Binding(m)} :: after.Binding(m) == if m == n then b else img.Binding(m))
    && (forall m {:trigger after.Possible(m)} ::
          after.Possible(m) == if m == n then img.Possible(n) + {b} else img.Possible(m))
  }

  /** The same names with the same possible bindings. */
  ghost predicate SameNames<N(!new), D>(img: Image<N, D>, after: Image<N, D>) {
    && (forall m {:trigger after.Binding(m)} :: after.Binding(m) == img.Binding(m))
    && (forall m {:trigger after.Possible(m)} :: after.Possible(m) == img.Possible(m))
  }

  lemma RebindRebinds<N(!new), D>(img: Image<N, D>, n: N, b: Option<Inode>)
    ensures Rebound(img, img.Rebind(n, b), n, b)
  {
    forall m ensures img.Rebind(n, b).Possible(m) == if m == n then img.Possible(n) + {b} else img.Possible(m)
             ensures img.Rebind(n, b).Binding(m) == if m == n then b else img.Binding(m)
    {
      RebindPossible(img, n, b, m);
    }
  }

  lemma ReboundKeepsValid<N(!new), D>(img: Image<N, D>, after: Image<N, D>, n: N, b: Option<Inode>)
    requires img.Valid() && Rebound(img, after, n, b)
    requires img.files.Keys <= after.files.Keys && (forall i :: i in after.files ==> i < after.next)
    requires b.Some? ==> b.value in after.files
    ensures after.Valid()
  {
    forall m, x | x in after.Possible(m) && x.Some? ensures x.value in after.files {
      assert x in img.Possible(m) || (m == n && x == b);
    }
  }

  /** What power loss may leave of a directory: each name at one of its possible bindings, contents
      arbitrary where they were not synced. */
  ghost predicate PowerLoss<N(!new), D>(img: Image<N, D>, after: Image<N, D>) {
    && after.pending == map[] && after.next == img.next
    && after.files.Keys == img.files.Keys
    && (forall n :: after.Binding(n) in img.Possible(n))
    && (forall i :: i in img.files ==>
          && after.files[i].synced && after.files[i].regular == img.files[i].regular
          && (img.files[i].synced ==> after.files[i].body == img.files[i].body))
  }

  /** The binding that power loss leaves, if `pick` is one it can leave. */
  function Left<N(!new), D>(img: Image<N, D>, pick: N -> Option<Inode>, n: N): Option<Inode> {
    if pick(n) in img.Possible(n) then pick(n) else img.Binding(n)
  }

  /** Power loss as a function of what it happens to choose. */
  function AfterPowerLoss<N(==,!new), D>(img: Image<N, D>, pick: N -> Option<Inode>, bodies: Inode -> D): Image<N, D> {
    Image(map n | n in img.entries.Keys + img.pending.Keys && Left(img, pick, n).Some? :: Left(img, pick, n).value,
          map i | i in img.files ::
            img.files[i].(body := if img.files[i].synced then img.files[i].body else bodies(i), synced := true),
          map[], img.next)
  }

  lemma PowerLossIsAChoice<N(!new), D>(img: Image<N, D>, pick: N -> Option<Inode>, bodies: Inode -> D)
    ensures PowerLoss(img, AfterPowerLoss(img, pick, bodies))
  {
    var after := AfterPowerLoss(img, pick, bodies);
    forall n ensures after.Binding(n) in img.Possible(n) {
      if n !in img.entries.Keys + img.pending.Keys {
        assert after.Binding(n) == None == img.Binding(n);
      } else {
        assert after.Binding(n) == Left(img, pick, n);
      }
    }
  }

  /** Every power loss is such a choice, so runs that choose cover them all. */
  lemma EveryPowerLossIsAChoice<N(!new), D>(img: Image<N, D>, after: Image<N, D>, any: D)
    requires PowerLoss(img, after)
    ensures after == AfterPowerLoss(img, n => after.Binding(n),
                                    i => if i in after.files then after.files[i].body else any)
  {
    var pick := n => after.Binding(n);
    var bodies := i => if i in after.files then after.files[i].body else any;
    var chosen := AfterPowerLoss(img, pick, bodies);
    forall n ensures n in after.entries <==> n in chosen.entries {
      assert after.Binding(n) in img.Possible(n) && Left(img, pick, n) == after.Binding(n);
    }
    forall n | n in after.entries ensures chosen.entries[n] == after.entries[n] {
      assert Left(img, pick, n) == after.Binding(n);
    }
    assert chosen.entries == after.entries;
    forall i | i in after.files ensures chosen.files[i] == after.files[i] {
      assert after.files[i].synced && after.files[i].regular == img.files[i].regular;
    }
    assert chosen.files == after.files;
  }

  lemma PowerLossKeepsValid<N(!new), D>(img: Image<N, D>, after: Image<N, D>)
    requires img.Valid() && PowerLoss(img, after)
    ensures after.Valid()
  {
    forall n, b | b in after.Possible(n) && b.Some? ensures b.value in after.files {
      assert b == after.Binding(n);
    }
  }

  /** How a system call ends: as it should, with an error, or with the death of the process. A write
      that ends badly leaves `torn` behind. */
  datatype Fate<+D> = Proceed | Fault(torn: D) | Halt(torn: D)

  datatype Status = Done | Failed | Exists

  class Disk<N(==,!new), D(0)> {
    var image: Image<N, D>
    var locks: set<Inode>
    var script: seq<Fate<D>>
    var dead: bool

    constructor (image: Image<N, D>, locks: set<Inode>, script: seq<Fate<D>>)
      ensures this.image == image && this.locks == locks && this.script == script && !dead
    {
      this.image, this.locks, this.script, this.dead := image, locks, script, false;
    }

    /** Nothing will go wrong in this process. */
    ghost predicate Untroubled()
      reads this`script, this`dead
    {
      script == [] && !dead
    }

    /** Take the next fate. Nothing a dead process attempts has any effect. */
    method Proceeds() returns (ok: bool, torn: Option<D>)
      modifies this`script, this`dead
      ensures ok ==> !old(dead) && !dead
      ensures old(dead) ==> dead && torn.None?
      ensures old(Untroubled()) ==> ok && Untroubled()
    {
      if dead {
        return false, None;
      }
      if script == [] {
        return true, None;
      }
      var fate := script[0];
      script := script[1..];
      match fate
      case Proceed => return true, None;
      case Fault(t) => return false, Some(t);
      case Halt(t) => dead := true; return false, Some(t);
    }

    /** A call that only looks: opening, locking checks, stat. */
    method Looks() returns (ok: bool)
      modifies this`script, this`dead
      ensures ok ==> !old(dead) && !dead
      ensures old(dead) ==> dead
      ensures old(Untroubled()) ==> ok && Untroubled()
    {
      var torn;
      ok, torn := Proceeds();
    }

    method CreateNew(n: N, blank: D) returns (status: Status, i: Inode)
      requires image.Valid()
      modifies this`image, this`script, this`dead
      ensures image.Valid()
      ensures i == old(image.next)
      ensures status.Done? ==>
                && !dead && n !in old(image.entries)
                && image.files == old(image.files)[i := File(true, blank, false)] && image.next == i + 1
                && Rebound(old(image), image, n, Some(i))
      ensures !status.Done? ==> image == old(image)
      ensures status.Exists? ==> n in old(image.entries) && !dead
      ensures old(dead) ==> dead
      ensures old(Untroubled()) ==> Untroubled() && (status.Done? <==> n !in old(image.entries)) && !status.Failed?
    {
      i := image.next;
      var ok := Looks();
      if !ok {
        return Failed, i;
      }
      if n in image.entries {
        return Exists, i;
      }
      ghost var before := image;
      ghost var grown := image.(files := image.files[i := File(true, blank, false)], next := i + 1);
      image := image.Created(n, blank);
      RebindRebinds(grown, n, Some(i));
      assert SameNames(before, grown);
      ReboundKeepsValid(before, image, n, Some(i));
      status := Done;
    }

    method Write(i: Inode, body: D) returns (ok: bool)
      requires image.Valid() && i in image.files
      modifies this`image, this`script, this`dead
      ensures image.Valid() && SameNames(old(image), image) && image.next == old(image.next)
      ensures image.files.Keys == old(image.files).Keys
      ensures forall j :: j in image.files && j != i ==> image.files[j] == old(image).files[j]
      ensures image.files[i].regular == old(image).files[i].regular
      ensures ok ==> image.files[i].body == body && !dead
      ensures !ok && old(dead) ==> image == old(image)
      ensures old(dead) ==> dead
      ensures old(Untroubled()) ==> ok && Untroubled()
    {
      var torn;
      ok, torn := Proceeds();
      if ok {
        image := image.Put(i, image.files[i].(body := body, synced := false));
      } else if torn.Some? {
        image := image.Put(i, image.files[i].(body := torn.value, synced := false));
      }
      assert SameNames(old(image), image);
    }

    method SyncFile(i: Inode) returns (ok: bool)
      requires image.Valid() && i in image.files
      modifies this`image, this`script, this`dead
      ensures image.Valid() && SameNames(old(image), image) && image.next == old(image.next)
      ensures image.files ==
              if ok then old(image).files[i := old(image).files[i].(synced := true)] else old(image).files
      ensures ok ==> !dead
      ensures !ok ==> image == old(image)
      ensures old(dead) ==> dead
      ensures old(Untroubled()) ==> ok && Untroubled()
    {
      ok := Looks();
      if ok {
        image := image.Put(i, image.files[i].(synced := true));
      }
      assert SameNames(old(image), image);
    }

    /** Make every current binding certain. */
    method SyncDirectory() returns (ok: bool)
      requires image.Valid()
      modifies this`image, this`script, this`dead
      ensures image.Valid()
      ensures image.files == old(image.files) && image.next == old(image.next)
      ensures forall n {:trigger image.Binding(n)} :: image.Binding(n) == old(image).Binding(n)
      ensures ok ==> forall n {:trigger image.Possible(n)} :: image.Possible(n) == {old(image).Binding(n)}
      ensures forall n {:trigger image.Possible(n)} :: image.Possible(n) <= old(image).Possible(n)
      ensures ok ==> !dead
      ensures !ok ==> image == old(image)
      ensures old(dead) ==> dead
      ensures old(Untroubled()) ==> ok && Untroubled()
    {
      ghost var before := image;
      ok := Looks();
      if ok {
        image := image.DirectorySynced();
      }
      assert forall n :: image.Possible(n) <= before.Possible(n);
    }

    method Unlink(n: N) returns (ok: bool)
      requires image.Valid()
      modifies this`image, this`script, this`dead
      ensures image.Valid() && image.files == old(image.files) && image.next == old(image.next)
      ensures ok ==> n in old(image.entries) && !dead && Rebound(old(image), image, n, None)
      ensures !ok ==> image == old(image)
      ensures old(dead) ==> dead
      ensures old(Untroubled()) ==> Untroubled() && (ok <==> n in old(image.entries))
    {
      ok := Looks();
      if ok && n !in image.entries {
        ok := false;
      }
      if ok {
        ghost var before := image;
        image := image.Rebind(n, None);
        RebindRebinds(before, n, None);
        ReboundKeepsValid(before, image, n, None);
      }
    }

    /** Bind a second name without clobbering: an existing name makes it fail. */
    method HardLink(from: N, to: N) returns (ok: bool)
      requires image.Valid()
      modifies this`image, this`script, this`dead
      ensures image.Valid() && image.files == old(image.files) && image.next == old(image.next)
      ensures ok ==>
                && from in old(image.entries) && to !in old(image.entries) && !dead
                && Rebound(old(image), image, to, Some(old(image).entries[from]))
      ensures !ok ==> image == old(image)
      ensures old(dead) ==> dead
      ensures old(Untroubled()) ==> Untroubled() && (ok <==> from in old(image.entries) && to !in old(image.entries))
    {
      ok := Looks();
      if ok && (from !in image.entries || to in image.entries) {
        ok := false;
      }
      if ok {
        ghost var before := image;
        assert before.Binding(from) in before.Possible(from);
        image := image.Rebind(to, Some(image.entries[from]));
        RebindRebinds(before, to, Some(before.entries[from]));
        ReboundKeepsValid(before, image, to, Some(before.entries[from]));
      }
    }

    /** Atomic replacement: the target name is never without one of its two bindings. */
    method Rename(from: N, to: N) returns (ok: bool, ghost between: Image<N, D>)
      requires image.Valid() && from != to
      modifies this`image, this`script, this`dead
      ensures image.Valid() && image.files == old(image.files) && image.next == old(image.next)
      ensures ok ==>
                && from in old(image.entries) && !dead
                && Rebound(old(image), between, to, Some(old(image).entries[from])) && between.files == image.files
                && Rebound(between, image, from, None)
      ensures !ok ==> image == old(image)
      ensures old(dead) ==> dead
      ensures old(Untroubled()) ==> Untroubled() && (ok <==> from in old(image.entries))
    {
      between := image;
      ok := Looks();
      if ok && from !in image.entries {
        ok := false;
      }
      if ok {
        ghost var before := image;
        assert before.Binding(from) in before.Possible(from);
        between := image.Rebind(to, Some(image.entries[from]));
        image := image.Rebind(to, Some(image.entries[from])).Rebind(from, None);
        RebindRebinds(before, to, Some(before.entries[from]));
        ReboundKeepsValid(before, between, to, Some(before.entries[from]));
        RebindRebinds(between, from, None);
        ReboundKeepsValid(between, image, from, None);
      }
    }

    /** An exclusive advisory lock, taken without waiting. */
    method TryLock(i: Inode) returns (status: Status)
      modifies this`locks, this`script, this`dead
      ensures status.Done? ==> i !in old(locks) && locks == old(locks) + {i} && !dead
      ensures status.Exists? ==> i in old(locks)
      ensures !status.Done? ==> locks == old(locks)
      ensures old(dead) ==> dead
      ensures old(Untroubled()) ==> Untroubled() && (status.Done? <==> i !in old(locks)) && !status.Failed?
    {
      var ok := Looks();
      if !ok {
        return Failed;
      }
      if i in locks {
        return Exists;
      }
      locks := locks + {i};
      status := Done;
    }

    method Close(i: Inode)
      modifies this`locks
      ensures locks == old(locks) - {i}
    {
      locks := locks - {i};
    }
  }
}
