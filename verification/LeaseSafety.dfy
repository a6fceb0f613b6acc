/** Safety of the lease protocol over every run: exclusion between claims, and ownership of locks. */
module LeaseSafety {
  import opened Wrappers
  import opened Claims
  import opened LeaseFamilies
  import opened LeaseProtocol

  // ---- The invariant. ----

  predicate WellShaped(s: State) {
    && (forall d :: d in s.published ==> d in s.descriptors)
    && (forall o :: o in s.ofds ==> s.ofds[o].descriptor in s.descriptors)
    && (forall h :: h in s.handles ==> s.handles[h].ofd in s.ofds)
    && (forall d :: d in s.descriptors && !s.descriptors[d].family.CarriesPathClaims() ==>
         s.descriptors[d].claims == [])
  }

  /** A live owner's file is open; an explicitly unlocked description has no owner and was never
      exported through this handle; an exported description is marked in every handle. */
  predicate HandleIsHonest(s: State, h: HandleId)
    requires h in s.handles
  {
    var handle := s.handles[h];
    && handle.ofd in s.ofds
    && (handle.owners > 0 ==> handle.open)
    && (s.ofds[handle.ofd].unlocked ==> handle.owners == 0 && !handle.exported)
    && (s.ofds[handle.ofd].exports > 0 ==> handle.exported)
  }

  predicate HandlesAreHonest(s: State) {
    forall h :: h in s.handles ==> HandleIsHonest(s, h)
  }

  predicate UnlockedIsUnexported(s: State) {
    forall o :: o in s.ofds && s.ofds[o].unlocked ==> s.ofds[o].exports == 0
  }

  /** A description shared by two handles is marked as exported in both. */
  predicate SharingIsMarked(s: State) {
    forall h, g :: h in s.handles && g in s.handles && h != g && s.handles[h].ofd == s.handles[g].ofd ==>
      s.handles[h].exported
  }

  /** A process-local registration names a handle of that process, on that descriptor, that still
      has an owner. */
  predicate RegistrationIsLive(s: State, k: (Process, DescriptorId))
    requires k in s.registered
  {
    var h := s.registered[k];
    && h in s.handles && s.handles[h].process == k.0 && s.handles[h].owners > 0
    && s.handles[h].ofd in s.ofds && s.ofds[s.handles[h].ofd].descriptor == k.1
  }

  predicate RegistrationsAreLive(s: State) {
    forall k :: k in s.registered ==> RegistrationIsLive(s, k)
  }

  ghost predicate LocksAreExclusive(s: State) {
    forall o, p :: HoldsLock(s, o) && HoldsLock(s, p) && s.ofds[o].descriptor == s.ofds[p].descriptor ==> o == p
  }

  predicate Compatible(a: Descriptor, b: Descriptor) {
    Exempt(a, b) || !AnyConflict(a.claims, b.claims)
  }

  /** No two descriptors that admission must respect hold conflicting claims, unless they belong to
      one execution or one coordination group. */
  ghost predicate Exclusion(s: State) {
    forall c, d :: c != d && Authority(s, c) && Authority(s, d) ==> Compatible(s.descriptors[c], s.descriptors[d])
  }

  /** Everything the running admission has passed is still compatible with its request. */
  ghost predicate ScanIsSound(s: State) {
    s.registry.Scanning? ==>
      forall d :: Authority(s, d) && d !in s.registry.pending ==>
        Compatible(s.registry.request, s.descriptors[d])
  }

  ghost predicate Ownership(s: State) {
    && HandlesAreHonest(s) && UnlockedIsUnexported(s) && SharingIsMarked(s)
    && RegistrationsAreLive(s) && LocksAreExclusive(s)
  }

  ghost predicate Invariant(s: State) {
    WellShaped(s) && Ownership(s) && Exclusion(s) && ScanIsSound(s)
  }

  // ---- Registry steps: only names of published descriptors change. ----

  lemma RegistryFrame(s: State, e: RegistryEvent)
    requires RegistryEnabled(s, e)
    ensures var t := RegistryStep(s, e);
            && t.descriptors == s.descriptors && t.ofds == s.ofds && t.handles == s.handles
            && t.registered == s.registered && t.published <= s.published
  {}

  lemma SameFilesSameLocks(s: State, t: State)
    requires t.ofds == s.ofds && t.handles == s.handles
    ensures forall o :: HoldsLock(t, o) == HoldsLock(s, o)
    ensures forall d :: Locked(t, d) == Locked(s, d)
  {
    forall o ensures HoldsLock(t, o) == HoldsLock(s, o) {
      assert SomeHandleOpen(t, o) == SomeHandleOpen(s, o);
    }
    forall d ensures Locked(t, d) == Locked(s, d) {
      if Locked(s, d) { var o :| HoldsLock(s, o) && s.ofds[o].descriptor == d; assert HoldsLock(t, o); }
      if Locked(t, d) { var o :| HoldsLock(t, o) && t.ofds[o].descriptor == d; assert HoldsLock(s, o); }
    }
  }

  lemma RegistryKeepsOwnership(s: State, e: RegistryEvent)
    requires WellShaped(s) && Ownership(s) && RegistryEnabled(s, e)
    ensures WellShaped(RegistryStep(s, e)) && Ownership(RegistryStep(s, e))
  {
    RegistryFrame(s, e);
    SameFilesSameLocks(s, RegistryStep(s, e));
  }

  // ---- What a step does to authority. ----

  /** No descriptor gains authority, and none changes its body. */
  ghost predicate AuthorityOnlyShrinks(s: State, t: State) {
    && (forall d :: d in s.descriptors ==> d in t.descriptors && t.descriptors[d] == s.descriptors[d])
    && (forall d :: Authority(t, d) ==> Authority(s, d))
  }

  lemma ShrinkingKeepsExclusion(s: State, t: State)
    requires AuthorityOnlyShrinks(s, t) && Exclusion(s)
    ensures Exclusion(t)
  {}

  lemma RegistryShrinksAuthority(s: State, e: RegistryEvent)
    requires WellShaped(s) && RegistryEnabled(s, e)
    ensures AuthorityOnlyShrinks(s, RegistryStep(s, e))
  {
    RegistryFrame(s, e);
    SameFilesSameLocks(s, RegistryStep(s, e));
  }

  /** A scanned descriptor either loses its authority, is compatible, or ends the admission. */
  lemma ScanKeepsScanSound(s: State, d: DescriptorId, contended: bool, removed: bool)
    requires WellShaped(s) && ScanIsSound(s) && RegistryEnabled(s, ScanDescriptor(d, contended, removed))
    ensures ScanIsSound(ScanOne(s, d, contended, removed))
  {
    var t := ScanOne(s, d, contended, removed);
    RegistryFrame(s, ScanDescriptor(d, contended, removed));
    SameFilesSameLocks(s, t);
    if t.registry.Scanning? {
      forall c | Authority(t, c) && c !in t.registry.pending
        ensures Compatible(t.registry.request, t.descriptors[c])
      {
        assert Authority(s, c);
      }
    }
  }

  lemma RegistryKeepsScanSound(s: State, e: RegistryEvent)
    requires Invariant(s) && RegistryEnabled(s, e)
    ensures ScanIsSound(RegistryStep(s, e))
  {
    match e
    case BeginAdmission(p, family, claims, group) =>
      var t := RegistryStep(s, e);
      forall d | Authority(t, d) && d !in t.registry.pending
        ensures Compatible(t.registry.request, t.descriptors[d])
      {
        assert d in s.published && s.descriptors[d].claims == [];
      }
    case ScanDescriptor(d, contended, removed) => ScanKeepsScanSound(s, d, contended, removed);
    case AbandonAdmission =>
    case Retire(d) =>
  }

  // ---- Grants: one new open-file description, for a new or an ownerless descriptor. ----

  lemma GrantFrame(s: State, e: GrantEvent, d: DescriptorId, o: OfdId, h: HandleId)
    requires WellShaped(s) && GrantEnabled(s, e, d, o, h)
    ensures var t := GrantStep(s, e, d, o, h);
            && t.ofds == s.ofds[o := Ofd(d, false, 0, 0)]
            && (exists p, g :: t.handles == s.handles[h := Handle(o, p, 1, false, true, g)]
                  && (t.registered == s.registered || t.registered == s.registered[(p, d) := h]))
    ensures var t := GrantStep(s, e, d, o, h);
            if d in s.descriptors
            then t.descriptors == s.descriptors && t.published == s.published && t.registry == s.registry
            else t.descriptors == s.descriptors[d := t.descriptors[d]] && t.published == s.published + {d}
                 && t.registry.Idle?
    ensures d in s.descriptors ==> d in s.published && Durable(s.descriptors[d].family) && !Locked(s, d)
  {
    var t := GrantStep(s, e, d, o, h);
    var handle := t.handles[h];
    assert t.handles == s.handles[h := Handle(o, handle.process, 1, false, true, handle.guarded)];
  }

  lemma GrantKeepsShape(s: State, e: GrantEvent, d: DescriptorId, o: OfdId, h: HandleId)
    requires WellShaped(s) && GrantEnabled(s, e, d, o, h)
    ensures WellShaped(GrantStep(s, e, d, o, h))
  {}

  lemma GrantOpens(s: State, e: GrantEvent, d: DescriptorId, o: OfdId, h: HandleId, x: OfdId)
    requires WellShaped(s) && GrantEnabled(s, e, d, o, h) && x != o
    ensures HoldsLock(GrantStep(s, e, d, o, h), x) == HoldsLock(s, x)
  {
    GrantFrame(s, e, d, o, h);
    var t := GrantStep(s, e, d, o, h);
    if SomeHandleOpen(s, x) {
      var g :| g in s.handles && s.handles[g].ofd == x && s.handles[g].open;
      assert g in t.handles && t.handles[g] == s.handles[g];
    }
    if SomeHandleOpen(t, x) {
      var g :| g in t.handles && t.handles[g].ofd == x && t.handles[g].open;
      assert g != h && g in s.handles;
    }
  }

  /** The other locks are untouched by a grant. */
  lemma GrantLocks(s: State, e: GrantEvent, d: DescriptorId, o: OfdId, h: HandleId)
    requires WellShaped(s) && GrantEnabled(s, e, d, o, h)
    ensures var t := GrantStep(s, e, d, o, h);
            && (forall x :: x != o ==> HoldsLock(t, x) == HoldsLock(s, x))
            && (forall x :: x in s.ofds ==> x != o && t.ofds[x] == s.ofds[x])
            && (forall c :: c != d ==> Locked(t, c) == Locked(s, c))
  {
    GrantFrame(s, e, d, o, h);
    var t := GrantStep(s, e, d, o, h);
    forall x | x != o ensures HoldsLock(t, x) == HoldsLock(s, x) {
      GrantOpens(s, e, d, o, h, x);
    }
    forall c | c != d ensures Locked(t, c) == Locked(s, c) {
      if Locked(s, c) {
        var x :| x in s.ofds && HoldsLock(s, x) && s.ofds[x].descriptor == c;
        assert x in t.ofds && HoldsLock(t, x);
      }
      if Locked(t, c) {
        var x :| x in t.ofds && HoldsLock(t, x) && t.ofds[x].descriptor == c;
        assert x in s.ofds && HoldsLock(s, x);
      }
    }
  }

  lemma GrantKeepsLocksExclusive(s: State, e: GrantEvent, d: DescriptorId, o: OfdId, h: HandleId)
    requires WellShaped(s) && LocksAreExclusive(s) && GrantEnabled(s, e, d, o, h)
    ensures LocksAreExclusive(GrantStep(s, e, d, o, h))
  {
    GrantFrame(s, e, d, o, h);
    GrantLocks(s, e, d, o, h);
    var t := GrantStep(s, e, d, o, h);
    forall x | HoldsLock(t, x) && x != o ensures t.ofds[x].descriptor != d {
      assert HoldsLock(s, x);
      assert d in s.descriptors ==> !Locked(s, d);
    }
  }

  lemma GrantKeepsHonesty(s: State, e: GrantEvent, d: DescriptorId, o: OfdId, h: HandleId)
    requires WellShaped(s) && HandlesAreHonest(s) && UnlockedIsUnexported(s) && GrantEnabled(s, e, d, o, h)
    ensures HandlesAreHonest(GrantStep(s, e, d, o, h)) && UnlockedIsUnexported(GrantStep(s, e, d, o, h))
  {
    GrantFrame(s, e, d, o, h);
    var t := GrantStep(s, e, d, o, h);
    forall g | g in t.handles ensures HandleIsHonest(t, g) {
      assert g in s.handles ==> HandleIsHonest(s, g);
    }
  }

  lemma GrantKeepsSharing(s: State, e: GrantEvent, d: DescriptorId, o: OfdId, h: HandleId)
    requires WellShaped(s) && SharingIsMarked(s) && GrantEnabled(s, e, d, o, h)
    ensures SharingIsMarked(GrantStep(s, e, d, o, h))
  {
    GrantFrame(s, e, d, o, h);
    var t := GrantStep(s, e, d, o, h);
    forall g, k | g in t.handles && k in t.handles && g != k && t.handles[g].ofd == t.handles[k].ofd
      ensures t.handles[g].exported
    {
      assert t.handles[h].ofd == o;
      assert g in s.handles && k in s.handles;
    }
  }

  lemma GrantKeepsRegistrations(s: State, e: GrantEvent, d: DescriptorId, o: OfdId, h: HandleId)
    requires WellShaped(s) && RegistrationsAreLive(s) && GrantEnabled(s, e, d, o, h)
    ensures RegistrationsAreLive(GrantStep(s, e, d, o, h))
  {
    GrantFrame(s, e, d, o, h);
    var t := GrantStep(s, e, d, o, h);
    forall k | k in t.registered ensures RegistrationIsLive(t, k) {
      assert k in s.registered ==> RegistrationIsLive(s, k);
    }
  }

  /** A published new descriptor is compatible with everything the scan left standing. */
  lemma GrantKeepsExclusion(s: State, e: GrantEvent, d: DescriptorId, o: OfdId, h: HandleId)
    requires Invariant(s) && GrantEnabled(s, e, d, o, h)
    ensures Exclusion(GrantStep(s, e, d, o, h)) && ScanIsSound(GrantStep(s, e, d, o, h))
  {
    GrantFrame(s, e, d, o, h);
    GrantLocks(s, e, d, o, h);
    var t := GrantStep(s, e, d, o, h);
    forall c | Authority(t, c) && c != d ensures Authority(s, c) {}
    if d in s.descriptors {
      assert Authority(s, d);
      assert AuthorityOnlyShrinks(s, t);
    } else {
      forall c | Authority(t, c) && c != d
        ensures Compatible(t.descriptors[d], t.descriptors[c]) && Compatible(t.descriptors[c], t.descriptors[d])
      {
        AnyConflictIsSymmetric(t.descriptors[d].claims, t.descriptors[c].claims);
      }
    }
  }

  // ---- Owner steps: one handle changes its owners; no lock appears. ----

  /** The handle that an owner step updates. */
  function OwnerHandle(s: State, w: OwnerEvent): HandleId
    requires w.CoHold? ==> (w.process, w.d) in s.registered
  {
    if w.CoHold? then s.registered[(w.process, w.d)] else w.h
  }

  lemma OwnerFrame(s: State, w: OwnerEvent)
    requires WellShaped(s) && OwnerEnabled(s, w)
    ensures var t, h := OwnerStep(s, w), OwnerHandle(s, w);
            && h in s.handles && h in t.handles && t.handles == s.handles[h := t.handles[h]]
            && t.handles[h].ofd == s.handles[h].ofd && t.handles[h].process == s.handles[h].process
            && t.handles[h].open == s.handles[h].open && t.handles[h].exported == s.handles[h].exported
            && t.ofds == s.ofds && t.descriptors == s.descriptors
            && t.published <= s.published && t.registry == s.registry
            && t.registered.Keys <= s.registered.Keys
            && (forall k :: k in t.registered ==> t.registered[k] == s.registered[k])
  {}

  /** Only a co-hold adds an owner, and only to a handle that still has one. */
  lemma OwnerCounts(s: State, w: OwnerEvent)
    requires WellShaped(s) && RegistrationsAreLive(s) && OwnerEnabled(s, w)
    ensures s.handles[OwnerHandle(s, w)].owners > 0 && s.handles[OwnerHandle(s, w)].open
  {}

  lemma OwnerKeepsLocks(s: State, w: OwnerEvent)
    requires WellShaped(s) && OwnerEnabled(s, w)
    ensures forall o :: HoldsLock(OwnerStep(s, w), o) == HoldsLock(s, o)
    ensures forall d :: Locked(OwnerStep(s, w), d) == Locked(s, d)
  {
    OwnerFrame(s, w);
    var t := OwnerStep(s, w);
    forall o ensures HoldsLock(t, o) == HoldsLock(s, o) {
      if SomeHandleOpen(s, o) {
        var g :| g in s.handles && s.handles[g].ofd == o && s.handles[g].open;
        assert t.handles[g].ofd == o && t.handles[g].open;
      }
      if SomeHandleOpen(t, o) {
        var g :| g in t.handles && t.handles[g].ofd == o && t.handles[g].open;
        assert s.handles[g].ofd == o && s.handles[g].open;
      }
    }
    forall d ensures Locked(t, d) == Locked(s, d) {
      if Locked(s, d) { var o :| HoldsLock(s, o) && s.ofds[o].descriptor == d; assert HoldsLock(t, o); }
      if Locked(t, d) { var o :| HoldsLock(t, o) && t.ofds[o].descriptor == d; assert HoldsLock(s, o); }
    }
  }

  /** The final release leaves the registration in the same step, so no live registration is left
      behind for a handle without owners. */
  lemma OwnerKeepsRegistrations(s: State, w: OwnerEvent)
    requires WellShaped(s) && RegistrationsAreLive(s) && OwnerEnabled(s, w)
    ensures RegistrationsAreLive(OwnerStep(s, w))
  {
    OwnerFrame(s, w);
    var t := OwnerStep(s, w);
    forall k | k in t.registered ensures RegistrationIsLive(t, k) {
      assert RegistrationIsLive(s, k);
    }
  }

  lemma OwnerKeepsHonesty(s: State, w: OwnerEvent)
    requires WellShaped(s) && Ownership(s) && OwnerEnabled(s, w)
    ensures HandlesAreHonest(OwnerStep(s, w)) && UnlockedIsUnexported(OwnerStep(s, w))
  {
    OwnerFrame(s, w);
    OwnerCounts(s, w);
    var t := OwnerStep(s, w);
    forall g | g in t.handles ensures HandleIsHonest(t, g) {
      assert HandleIsHonest(s, g);
    }
  }

  lemma OwnerKeepsSharing(s: State, w: OwnerEvent)
    requires WellShaped(s) && SharingIsMarked(s) && OwnerEnabled(s, w)
    ensures SharingIsMarked(OwnerStep(s, w))
  {
    OwnerFrame(s, w);
    var t := OwnerStep(s, w);
    forall g, k | g in t.handles && k in t.handles && g != k && t.handles[g].ofd == t.handles[k].ofd
      ensures t.handles[g].exported
    {
      assert s.handles[g].ofd == s.handles[k].ofd;
    }
  }

  lemma OwnerKeepsRest(s: State, w: OwnerEvent)
    requires Invariant(s) && OwnerEnabled(s, w)
    ensures var t := OwnerStep(s, w); WellShaped(t) && LocksAreExclusive(t) && Exclusion(t) && ScanIsSound(t)
  {
    hide OwnerStep, WellShaped, AuthorityOnlyShrinks, Exclusion;
    OwnerKeepsShape(s, w);
    OwnerShrinksAuthority(s, w);
    ShrinkingKeepsExclusion(s, OwnerStep(s, w));
    OwnerKeepsScanSound(s, w);
  }

  lemma OwnerShrinksAuthority(s: State, w: OwnerEvent)
    requires WellShaped(s) && LocksAreExclusive(s) && OwnerEnabled(s, w)
    ensures AuthorityOnlyShrinks(s, OwnerStep(s, w)) && LocksAreExclusive(OwnerStep(s, w))
  {
    OwnerFrame(s, w);
    OwnerKeepsLocks(s, w);
  }

  lemma OwnerKeepsScanSound(s: State, w: OwnerEvent)
    requires WellShaped(s) && ScanIsSound(s) && OwnerEnabled(s, w)
    ensures ScanIsSound(OwnerStep(s, w))
  {
    hide OwnerStep;
    OwnerFrame(s, w);
    OwnerKeepsLocks(s, w);
  }

  lemma OwnerKeepsShape(s: State, w: OwnerEvent)
    requires WellShaped(s) && OwnerEnabled(s, w)
    ensures WellShaped(OwnerStep(s, w))
  {
    OwnerFrame(s, w);
  }

  // ---- File-descriptor steps and crashes: locks can only disappear. ----

  ghost predicate LocksOnlyVanish(s: State, t: State) {
    && t.descriptors == s.descriptors && t.published == s.published
    && s.ofds.Keys == t.ofds.Keys
    && (forall o :: o in s.ofds ==> t.ofds[o].descriptor == s.ofds[o].descriptor)
    && (forall o :: HoldsLock(t, o) ==> HoldsLock(s, o))
  }

  lemma VanishingKeepsRest(s: State, t: State)
    requires Invariant(s) && LocksOnlyVanish(s, t)
    requires t.registry == s.registry || t.registry.Idle?
    ensures LocksAreExclusive(t) && Exclusion(t) && ScanIsSound(t)
  {
    forall d | Authority(t, d) ensures Authority(s, d) {
      if Locked(t, d) {
        var o :| HoldsLock(t, o) && t.ofds[o].descriptor == d;
        assert HoldsLock(s, o);
      }
    }
    assert AuthorityOnlyShrinks(s, t);
  }

  lemma FdFrame(s: State, f: FdEvent)
    requires WellShaped(s) && FdEnabled(s, f)
    ensures var t := FdStep(s, f);
            && t.descriptors == s.descriptors && t.published == s.published
            && t.registered == s.registered && t.registry == s.registry
            && s.ofds.Keys == t.ofds.Keys && s.handles.Keys <= t.handles.Keys
            && (forall o :: o in s.ofds ==>
                  t.ofds[o].descriptor == s.ofds[o].descriptor && (s.ofds[o].unlocked ==> t.ofds[o].unlocked))
            && (forall h :: h in s.handles ==>
                  && t.handles[h].ofd == s.handles[h].ofd && t.handles[h].process == s.handles[h].process
                  && t.handles[h].owners == s.handles[h].owners && (t.handles[h].open ==> s.handles[h].open)
                  && (s.handles[h].exported ==> t.handles[h].exported))
  {
    FdKeepsHandles(s, f);
  }

  lemma FdKeepsHandles(s: State, f: FdEvent)
    requires WellShaped(s) && FdEnabled(s, f)
    ensures var t := FdStep(s, f);
            && s.handles.Keys <= t.handles.Keys
            && (forall h :: h in s.handles ==>
                  && t.handles[h].ofd == s.handles[h].ofd && t.handles[h].process == s.handles[h].process
                  && t.handles[h].owners == s.handles[h].owners && (t.handles[h].open ==> s.handles[h].open)
                  && (s.handles[h].exported ==> t.handles[h].exported))
  {}

  lemma FdOpensNothing(s: State, f: FdEvent, o: OfdId)
    requires WellShaped(s) && FdEnabled(s, f) && OfdOpen(FdStep(s, f), o)
    ensures OfdOpen(s, o)
  {
    FdFrame(s, f);
    var t := FdStep(s, f);
    if SomeHandleOpen(t, o) {
      var g :| g in t.handles && t.handles[g].ofd == o && t.handles[g].open;
      if g in s.handles {
        assert s.handles[g].ofd == o && s.handles[g].open;
      }
    } else if f.ExportFd? {
      assert s.handles[f.h].ofd == o ==> SomeHandleOpen(s, o);
    }
  }

  lemma FdLocksVanish(s: State, f: FdEvent)
    requires WellShaped(s) && FdEnabled(s, f)
    ensures LocksOnlyVanish(s, FdStep(s, f))
  {
    FdFrame(s, f);
    forall o | HoldsLock(FdStep(s, f), o) ensures HoldsLock(s, o) {
      FdOpensNothing(s, f, o);
    }
  }

  /** A released, never-exported handle is the only one on its description, so unlocking it takes
      the lock from no owner. */
  lemma UnlockKeepsHonesty(s: State, h: HandleId)
    requires WellShaped(s) && Ownership(s) && FdEnabled(s, UnlockReleased(h))
    ensures var t := FdStep(s, UnlockReleased(h)); HandlesAreHonest(t) && UnlockedIsUnexported(t)
  {
    var t := FdStep(s, UnlockReleased(h));
    assert HandleIsHonest(s, h);
    forall g | g in t.handles ensures HandleIsHonest(t, g) {
      assert HandleIsHonest(s, g);
      assert s.handles[g].ofd == s.handles[h].ofd ==> g == h;
    }
  }

  lemma ExportKeepsHonesty(s: State, h: HandleId)
    requires WellShaped(s) && Ownership(s) && FdEnabled(s, ExportFd(h))
    ensures var t := FdStep(s, ExportFd(h)); HandlesAreHonest(t) && UnlockedIsUnexported(t)
  {
    var t := FdStep(s, ExportFd(h));
    assert HandleIsHonest(s, h);
    forall g | g in t.handles ensures HandleIsHonest(t, g) {
      assert HandleIsHonest(s, g);
      assert g != h && s.handles[g].ofd == s.handles[h].ofd ==> s.handles[g].exported;
    }
  }

  lemma AdoptionKeepsHonesty(s: State, f: FdEvent)
    requires WellShaped(s) && Ownership(s) && FdEnabled(s, f) && f.AdoptExportedFd?
    ensures HandlesAreHonest(FdStep(s, f)) && UnlockedIsUnexported(FdStep(s, f))
  {
    var t := FdStep(s, f);
    forall g | g in t.handles ensures HandleIsHonest(t, g) {
      assert g in s.handles ==> HandleIsHonest(s, g);
    }
  }

  lemma OtherFdKeepsHonesty(s: State, f: FdEvent)
    requires WellShaped(s) && Ownership(s) && FdEnabled(s, f)
    requires f.CloseReleased? || f.CloseExportedFd? || f.ForkCopy? || f.CloseForkCopy?
    ensures HandlesAreHonest(FdStep(s, f)) && UnlockedIsUnexported(FdStep(s, f))
  {
    var t := FdStep(s, f);
    forall g | g in t.handles ensures HandleIsHonest(t, g) {
      assert HandleIsHonest(s, g);
    }
  }

  lemma FdKeepsHonesty(s: State, f: FdEvent)
    requires WellShaped(s) && Ownership(s) && FdEnabled(s, f)
    ensures HandlesAreHonest(FdStep(s, f)) && UnlockedIsUnexported(FdStep(s, f))
  {
    if f.UnlockReleased? {
      UnlockKeepsHonesty(s, f.h);
    } else if f.ExportFd? {
      ExportKeepsHonesty(s, f.h);
    } else if f.AdoptExportedFd? {
      AdoptionKeepsHonesty(s, f);
    } else {
      OtherFdKeepsHonesty(s, f);
    }
  }

  lemma FdKeepsSharing(s: State, f: FdEvent)
    requires WellShaped(s) && HandlesAreHonest(s) && SharingIsMarked(s) && FdEnabled(s, f)
    ensures SharingIsMarked(FdStep(s, f))
  {
    FdFrame(s, f);
    var t := FdStep(s, f);
    forall g, k | g in t.handles && k in t.handles && g != k && t.handles[g].ofd == t.handles[k].ofd
      ensures t.handles[g].exported
    {
      assert g in s.handles ==> HandleIsHonest(s, g);
      assert g in s.handles && k in s.handles ==> s.handles[g].exported;
    }
  }

  lemma FdKeepsShape(s: State, f: FdEvent)
    requires WellShaped(s) && RegistrationsAreLive(s) && FdEnabled(s, f)
    ensures WellShaped(FdStep(s, f)) && RegistrationsAreLive(FdStep(s, f))
  {
    FdFrame(s, f);
    var t := FdStep(s, f);
    forall k | k in t.registered ensures RegistrationIsLive(t, k) {
      assert RegistrationIsLive(s, k);
    }
  }

  lemma CrashFrame(s: State, p: Process)
    ensures var t := KillProcess(s, p);
            && t.descriptors == s.descriptors && t.published == s.published && t.ofds == s.ofds
            && t.handles.Keys == s.handles.Keys && (t.registry == s.registry || t.registry.Idle?)
            && (forall h :: h in s.handles ==> t.handles[h] == KillHandle(s.handles[h], p))
            && t.registered.Keys <= s.registered.Keys
            && (forall k :: k in t.registered ==> t.registered[k] == s.registered[k] && k.0 != p)
  {}

  lemma CrashKeepsHonesty(s: State, p: Process)
    requires WellShaped(s) && HandlesAreHonest(s)
    ensures HandlesAreHonest(KillProcess(s, p))
  {
    CrashFrame(s, p);
    var t := KillProcess(s, p);
    forall g | g in t.handles ensures HandleIsHonest(t, g) {
      assert HandleIsHonest(s, g);
    }
  }

  lemma CrashKeepsHandles(s: State, p: Process)
    requires WellShaped(s) && Ownership(s)
    ensures var t := KillProcess(s, p);
            WellShaped(t) && HandlesAreHonest(t) && UnlockedIsUnexported(t) && RegistrationsAreLive(t)
  {
    CrashFrame(s, p);
    CrashKeepsHonesty(s, p);
    var t := KillProcess(s, p);
    forall k | k in t.registered ensures RegistrationIsLive(t, k) {
      assert RegistrationIsLive(s, k);
    }
  }

  lemma CrashKeepsSharing(s: State, p: Process)
    requires SharingIsMarked(s)
    ensures SharingIsMarked(KillProcess(s, p))
  {
    CrashFrame(s, p);
    var t := KillProcess(s, p);
    forall g, k | g in t.handles && k in t.handles && g != k && t.handles[g].ofd == t.handles[k].ofd
      ensures t.handles[g].exported
    {
      assert s.handles[g].ofd == s.handles[k].ofd;
    }
  }

  lemma CrashLocksVanish(s: State, p: Process)
    requires WellShaped(s)
    ensures LocksOnlyVanish(s, KillProcess(s, p))
  {
    CrashFrame(s, p);
    var t := KillProcess(s, p);
    forall o | HoldsLock(t, o) ensures HoldsLock(s, o) {
      if SomeHandleOpen(t, o) {
        var g :| g in t.handles && t.handles[g].ofd == o && t.handles[g].open;
        assert s.handles[g].ofd == o && s.handles[g].open;
      }
    }
  }

  // ---- Every run. ----

  lemma StepKeepsInvariant(s: State, e: Event)
    requires Invariant(s) && Enabled(s, e)
    ensures Invariant(Step(s, e))
  {
    match e
    case OnRegistry(r) =>
      RegistryKeepsOwnership(s, r);
      RegistryShrinksAuthority(s, r);
      ShrinkingKeepsExclusion(s, RegistryStep(s, r));
      RegistryKeepsScanSound(s, r);
    case OnGrant(g, d, o, h) =>
      GrantKeepsShape(s, g, d, o, h);
      GrantKeepsLocksExclusive(s, g, d, o, h);
      GrantKeepsHonesty(s, g, d, o, h);
      GrantKeepsSharing(s, g, d, o, h);
      GrantKeepsRegistrations(s, g, d, o, h);
      GrantKeepsExclusion(s, g, d, o, h);
    case OnOwner(w) =>
      OwnerKeepsRegistrations(s, w);
      OwnerKeepsHonesty(s, w);
      OwnerKeepsSharing(s, w);
      OwnerKeepsRest(s, w);
    case OnFd(f) =>
      FdLocksVanish(s, f);
      FdFrame(s, f);
      VanishingKeepsRest(s, FdStep(s, f));
      FdKeepsHonesty(s, f);
      FdKeepsSharing(s, f);
      FdKeepsShape(s, f);
    case Crash(p) =>
      CrashFrame(s, p);
      CrashKeepsHandles(s, p);
      CrashKeepsSharing(s, p);
      CrashLocksVanish(s, p);
      VanishingKeepsRest(s, KillProcess(s, p));
  }

  lemma {:induction false} RunKeepsInvariant(s: State, events: seq<Event>)
    requires Invariant(s) && ValidRun(s, events)
    ensures Invariant(Run(s, events))
    decreases |events|
  {
    if events != [] {
      StepKeepsInvariant(s, events[0]);
      RunKeepsInvariant(Step(s, events[0]), events[1..]);
    }
  }

  lemma InitialInvariant()
    ensures Invariant(INITIAL)
  {}

  lemma InvariantExcludes(s: State, c: DescriptorId, d: DescriptorId)
    requires Invariant(s) && c != d && Authority(s, c) && Authority(s, d)
    requires !Exempt(s.descriptors[c], s.descriptors[d])
    ensures forall i, j :: 0 <= i < |s.descriptors[c].claims| && 0 <= j < |s.descriptors[d].claims| ==>
              !s.descriptors[c].claims[i].ConflictsWith(s.descriptors[d].claims[j])
  {
    assert Compatible(s.descriptors[c], s.descriptors[d]);
  }

  /** A descriptor that is published and locked, or published and of a family that outlives its owner. */
  predicate Held(s: State, d: DescriptorId) {
    d in s.published && d in s.descriptors && (!s.descriptors[d].family.EphemeralMutation? || Locked(s, d))
  }

  /** Two descriptors of one coordination group, or of one queue execution. */
  predicate Siblings(a: Descriptor, b: Descriptor) {
    || (a.group.Some? && b.group == a.group)
    || (&& (a.family.QueueExecution? || a.family.ExecutionClaim? || a.family.ExecutionStaging?)
        && (b.family.QueueExecution? || b.family.ExecutionClaim? || b.family.ExecutionStaging?)
        && b.family.id == a.family.id)
  }

  /** Mutual exclusion: in every state of every run, two distinct descriptors that are held hold no
      conflicting claims, unless they are siblings. */
  lemma ConflictingClaimsNeverCoexist(events: seq<Event>, c: DescriptorId, d: DescriptorId)
    requires ValidRun(INITIAL, events)
    requires c != d && Held(Run(INITIAL, events), c) && Held(Run(INITIAL, events), d)
    requires !Siblings(Run(INITIAL, events).descriptors[c], Run(INITIAL, events).descriptors[d])
    ensures var s := Run(INITIAL, events);
            forall i, j :: 0 <= i < |s.descriptors[c].claims| && 0 <= j < |s.descriptors[d].claims| ==>
              !s.descriptors[c].claims[i].ConflictsWith(s.descriptors[d].claims[j])
  {
    InitialInvariant();
    RunKeepsInvariant(INITIAL, events);
    InvariantExcludes(Run(INITIAL, events), c, d);
  }

  /** Nobody but process `p` can be holding `d`: no duplicate of its file is about. */
  ghost predicate HeldByProcessOnly(s: State, p: Process, d: DescriptorId) {
    && (forall o :: o in s.ofds && s.ofds[o].descriptor == d ==> s.ofds[o].exports == 0 && s.ofds[o].forks == 0)
    && (forall h :: h in s.handles && s.handles[h].ofd in s.ofds && s.ofds[s.handles[h].ofd].descriptor == d ==>
          s.handles[h].process == p)
  }

  lemma DeathUnlocks(s: State, p: Process, d: DescriptorId)
    requires Invariant(s) && HeldByProcessOnly(s, p, d)
    ensures !Locked(KillProcess(s, p), d)
  {
    var t := KillProcess(s, p);
    forall o | o in t.ofds && t.ofds[o].descriptor == d ensures !HoldsLock(t, o) {
      forall h | h in t.handles && t.handles[h].ofd == o ensures !t.handles[h].open {
        assert s.handles[h].process == p;
      }
    }
  }

  /** When the only process that holds a lease dies, an ephemeral mutation stops being held; any other
      lease stays held until some process recovers it, which any process then can, and which locks it. */
  lemma DeadOwnersLeaseCanBeRecovered(s: State, p: Process, d: DescriptorId, q: Process, o: OfdId, h: HandleId)
    requires Invariant(s) && HeldByProcessOnly(s, p, d) && d in s.published && d in s.descriptors
    requires s.registry.Idle? && o !in s.ofds && h !in s.handles
    ensures var t := Step(s, Crash(p));
            && (Held(t, d) <==> !s.descriptors[d].family.EphemeralMutation?)
            && (Enabled(t, OnGrant(Recover(q), d, o, h)) <==> !s.descriptors[d].family.EphemeralMutation?)
            && (!s.descriptors[d].family.EphemeralMutation? ==> Locked(Step(t, OnGrant(Recover(q), d, o, h)), d))
  {
    DeathUnlocks(s, p, d);
    CrashFrame(s, p);
    var t := Step(s, Crash(p));
    if !s.descriptors[d].family.EphemeralMutation? {
      var u := Step(t, OnGrant(Recover(q), d, o, h));
      assert u.handles[h].open && SomeHandleOpen(u, o);
      assert HoldsLock(u, o);
    }
  }

  /** The final owner of a lease that was never exported lets go: the lock of a journal is given up at once,
      even if forked processes still have the file open, and any other lock when the file is closed that
      nobody else has open. The process-local registration goes with the owner. */
  lemma FinalOwnersLetGo(s: State, h: HandleId)
    requires Invariant(s) && LiveHandle(s, h)
    requires s.handles[h].owners == 1 && !s.handles[h].guarded && !s.handles[h].exported
    ensures Enabled(s, OnOwner(ReleaseOwner(h)))
    ensures var d, u := DescriptorOf(s, h), Step(s, OnOwner(ReleaseOwner(h)));
            && (s.descriptors[d].family.JournalOperation? ==>
                  Enabled(u, OnFd(UnlockReleased(h))) && !Locked(Step(u, OnFd(UnlockReleased(h))), d))
            && Enabled(u, OnFd(CloseReleased(h)))
            && (s.ofds[s.handles[h].ofd].forks == 0 && s.ofds[s.handles[h].ofd].exports == 0 ==>
                  !Locked(Step(u, OnFd(CloseReleased(h))), d))
            && (forall k :: k in u.registered ==> u.registered[k] != h)
  {
    var u := Release(s, h);
    assert u == Step(s, OnOwner(ReleaseOwner(h)));
    FinalReleaseClosesNothing(s, h);
    if s.descriptors[DescriptorOf(s, h)].family.JournalOperation? {
      UnlockingFrees(s, u, h, s.handles[h].ofd, DescriptorOf(s, h));
    }
    ClosingFrees(s, u, h, s.handles[h].ofd, DescriptorOf(s, h));
    FinalReleaseUnregisters(s, h);
  }

  lemma FinalReleaseClosesNothing(s: State, h: HandleId)
    requires Invariant(s) && LiveHandle(s, h) && s.handles[h].owners == 1
    ensures HoldsLock(s, s.handles[h].ofd)
    ensures var u := Release(s, h);
            && u == s.(handles := u.handles, registered := u.registered)
            && u.handles.Keys == s.handles.Keys && u.handles[h].owners == 0
            && forall k :: k in s.handles ==>
                 u.handles[k].ofd == s.handles[k].ofd && u.handles[k].open == s.handles[k].open
                 && u.handles[k].exported == s.handles[k].exported
  {
    InvariantLocksFollowOwners(s);
  }

  lemma FinalReleaseUnregisters(s: State, h: HandleId)
    requires Invariant(s) && LiveHandle(s, h) && s.handles[h].owners == 1
    ensures var u := Release(s, h);
            forall k :: k in u.registered ==> u.registered[k] != h
  {
    forall k | k in s.registered && s.registered[k] == h ensures k == (s.handles[h].process, DescriptorOf(s, h)) {
      assert RegistrationIsLive(s, k);
    }
  }

  lemma UnlockingFrees(s: State, u: State, h: HandleId, o: OfdId, d: DescriptorId)
    requires Invariant(s) && LiveHandle(s, h) && o == s.handles[h].ofd && d == DescriptorOf(s, h)
    requires !s.handles[h].exported && HoldsLock(s, o)
    requires u == s.(handles := u.handles, registered := u.registered)
    requires u.handles.Keys == s.handles.Keys && u.handles[h].owners == 0
    requires forall k :: k in s.handles ==>
               u.handles[k].ofd == s.handles[k].ofd && u.handles[k].open == s.handles[k].open
               && u.handles[k].exported == s.handles[k].exported
    requires s.descriptors[d].family.JournalOperation?
    ensures Enabled(u, OnFd(UnlockReleased(h))) && !Locked(Step(u, OnFd(UnlockReleased(h))), d)
  {
    var t := Step(u, OnFd(UnlockReleased(h)));
    forall x | x in t.ofds && t.ofds[x].descriptor == d ensures !HoldsLock(t, x) {
      assert HoldsLock(t, x) ==> HoldsLock(s, x);
    }
  }

  lemma ClosingFrees(s: State, u: State, h: HandleId, o: OfdId, d: DescriptorId)
    requires Invariant(s) && LiveHandle(s, h) && o == s.handles[h].ofd && d == DescriptorOf(s, h)
    requires !s.handles[h].exported && HoldsLock(s, o)
    requires u == s.(handles := u.handles, registered := u.registered)
    requires u.handles.Keys == s.handles.Keys && u.handles[h].owners == 0
    requires forall k :: k in s.handles ==>
               u.handles[k].ofd == s.handles[k].ofd && u.handles[k].open == s.handles[k].open
               && u.handles[k].exported == s.handles[k].exported
    ensures Enabled(u, OnFd(CloseReleased(h)))
    ensures s.ofds[o].forks == 0 && s.ofds[o].exports == 0 ==> !Locked(Step(u, OnFd(CloseReleased(h))), d)
  {
    var t := Step(u, OnFd(CloseReleased(h)));
    forall x | x in t.ofds && t.ofds[x].descriptor == d && x != o ensures !HoldsLock(t, x) {
      assert HoldsLock(t, x) ==> HoldsLock(s, x);
    }
    assert s.ofds[o].forks == 0 && s.ofds[o].exports == 0 ==> !OfdOpen(t, o);
  }

  /** A guard that is dropped takes its ephemeral descriptor's name with it unless authority was exported; any
      other descriptor stays published, and then the owner can be released. */
  lemma DroppedGuardsRetire(s: State, h: HandleId)
    requires Invariant(s) && LiveHandle(s, h) && s.handles[h].guarded
    ensures Enabled(s, OnOwner(RetireOnGuardDrop(h)))
    ensures var d, u := DescriptorOf(s, h), Step(s, OnOwner(RetireOnGuardDrop(h)));
            && u.published ==
               (if s.descriptors[d].family.EphemeralMutation? && !s.handles[h].exported then s.published - {d}
                else s.published)
            && Locked(u, d) && Enabled(u, OnOwner(ReleaseOwner(h)))
  {
    InvariantLocksFollowOwners(s);
    OwnerKeepsLocks(s, RetireOnGuardDrop(h));
  }

  /** Every live owner holds its descriptor's lock and is its only holder; an unlocked description
      has no owner and was never exported. */
  ghost predicate LocksFollowOwners(s: State) {
    && (forall h :: h in s.handles && s.handles[h].owners > 0 ==> HoldsLock(s, s.handles[h].ofd))
    && (forall h :: h in s.handles && s.handles[h].ofd in s.ofds && s.ofds[s.handles[h].ofd].unlocked ==>
          s.handles[h].owners == 0 && !s.handles[h].exported)
    && (forall o, p :: HoldsLock(s, o) && HoldsLock(s, p) && s.ofds[o].descriptor == s.ofds[p].descriptor ==> o == p)
  }

  lemma InvariantLocksFollowOwners(s: State)
    requires Invariant(s)
    ensures LocksFollowOwners(s)
  {
    forall h | h in s.handles && s.handles[h].owners > 0 ensures HoldsLock(s, s.handles[h].ofd) {
      assert HandleIsHonest(s, h);
      assert SomeHandleOpen(s, s.handles[h].ofd);
    }
  }

  lemma OwnersNeverLoseTheirLock(events: seq<Event>)
    requires ValidRun(INITIAL, events)
    ensures LocksFollowOwners(Run(INITIAL, events))
  {
    InitialInvariant();
    RunKeepsInvariant(INITIAL, events);
    InvariantLocksFollowOwners(Run(INITIAL, events));
  }

  /** The owner count of a handle never rises from zero, in any continuation of any run. */
  lemma {:induction false} OwnersNeverReturn(s: State, events: seq<Event>, h: HandleId)
    requires Invariant(s) && ValidRun(s, events)
    requires h in s.handles && s.handles[h].owners == 0
    ensures h in Run(s, events).handles && Run(s, events).handles[h].owners == 0
    decreases |events|
  {
    if events != [] {
      OwnersStayGone(s, events[0], h);
      StepKeepsInvariant(s, events[0]);
      OwnersNeverReturn(Step(s, events[0]), events[1..], h);
    }
  }

  lemma OwnersStayGone(s: State, e: Event, h: HandleId)
    requires Invariant(s) && Enabled(s, e)
    requires h in s.handles && s.handles[h].owners == 0
    ensures h in Step(s, e).handles && Step(s, e).handles[h].owners == 0
  {
    match e
    case OnRegistry(r) => RegistryFrame(s, r);
    case OnGrant(g, d, o, k) => GrantFrame(s, g, d, o, k);
    case OnOwner(w) => OwnerFrame(s, w); OwnerCounts(s, w);
    case OnFd(f) => FdFrame(s, f);
    case Crash(p) =>
  }

  /** Once authority was exported through a handle, its description is never explicitly unlocked. */
  lemma {:induction false} ExportedIsNeverUnlocked(s: State, events: seq<Event>, h: HandleId)
    requires Invariant(s) && ValidRun(s, events)
    requires h in s.handles && s.handles[h].exported
    ensures var t := Run(s, events);
            && h in t.handles && t.handles[h].exported
            && t.handles[h].ofd == s.handles[h].ofd && t.handles[h].ofd in t.ofds && !t.ofds[t.handles[h].ofd].unlocked
    decreases |events|
  {
    assert HandleIsHonest(s, h);
    if events != [] {
      ExportStays(s, events[0], h);
      StepKeepsInvariant(s, events[0]);
      ExportedIsNeverUnlocked(Step(s, events[0]), events[1..], h);
    }
  }

  lemma ExportStays(s: State, e: Event, h: HandleId)
    requires Invariant(s) && Enabled(s, e)
    requires h in s.handles && s.handles[h].exported
    ensures var t := Step(s, e); h in t.handles && t.handles[h].exported && t.handles[h].ofd == s.handles[h].ofd
  {
    match e
    case OnRegistry(r) => RegistryFrame(s, r);
    case OnGrant(g, d, o, k) => GrantFrame(s, g, d, o, k);
    case OnOwner(w) => OwnerFrame(s, w);
    case OnFd(f) => FdFrame(s, f);
    case Crash(p) => CrashFrame(s, p);
  }

  /** Publishing claims without the scan is not covered: two such creations can collide. */
  lemma UnscannedPublicationCanCollide(claim: PathClaim)
    requires claim.mode == Write
    ensures var first := Publish(INITIAL, Descriptor(EphemeralMutation(0), [claim], None, 0), false, 0, 0, 0);
            var second := Publish(first, Descriptor(EphemeralMutation(1), [claim], None, 0), false, 1, 1, 1);
            Exclusion(first) && !Exclusion(second)
  {
    var first := Publish(INITIAL, Descriptor(EphemeralMutation(0), [claim], None, 0), false, 0, 0, 0);
    var second := Publish(first, Descriptor(EphemeralMutation(1), [claim], None, 0), false, 1, 1, 1);
    assert SomeHandleOpen(second, 0) && SomeHandleOpen(second, 1) by {
      assert 0 in second.handles && 1 in second.handles;
    }
    assert HoldsLock(second, 0) && HoldsLock(second, 1);
    assert Authority(second, 0) && Authority(second, 1);
    assert second.descriptors[0].claims[0].ConflictsWith(second.descriptors[1].claims[0]);
    assert !Compatible(second.descriptors[0], second.descriptors[1]);
  }
}
