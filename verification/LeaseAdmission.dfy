/** Guarded admission as the scanning loop that runs it, uninterrupted, on the protocol's state. */
module LeaseAdmission {
  import opened Wrappers
  import opened Claims
  import opened LeaseFamilies
  import opened LeaseProtocol
  import opened LeaseSafety

  datatype AdmissionError = LegacyAmbiguity | ConflictsWithHeldClaim | QueueFamilyWithClaims | LifecycleTaken

  /** A descriptor that makes the request fail: published, not exempt, not ownerless and ephemeral,
      and holding a conflicting claim. */
  predicate Blocks(s: State, d: DescriptorId, request: Descriptor) {
    && d in s.published && d in s.descriptors
    && s.descriptors[d].family.CarriesPathClaims()
    && !Exempt(request, s.descriptors[d])
    && ClassifyAvailability(s.descriptors[d].family, Locked(s, d)) != ReclaimableEphemeral
    && AnyConflict(request.claims, s.descriptors[d].claims)
  }

  /** What a scan may take off the published set: ephemeral descriptors that nobody holds. */
  predicate Abandoned(s: State, d: DescriptorId) {
    d in s.published && d in s.descriptors && s.descriptors[d].family.EphemeralMutation? && !Locked(s, d)
  }

  lemma {:induction false} RunAppends(s: State, events: seq<Event>, e: Event)
    requires ValidRun(s, events) && Enabled(Run(s, events), e)
    ensures ValidRun(s, events + [e]) && Run(s, events + [e]) == Step(Run(s, events), e)
    decreases |events|
  {
    if events == [] {
      assert [] + [e] == [e] && [e][1..] == [];
    } else {
      assert (events + [e])[0] == events[0] && (events + [e])[1..] == events[1..] + [e];
      RunAppends(Step(s, events[0]), events[1..], e);
    }
  }

  /** Scanning touches neither files nor bodies. */
  predicate OnlyRetires(s: State, t: State) {
    && t.descriptors == s.descriptors && t.ofds == s.ofds && t.handles == s.handles
    && t.registered == s.registered && t.published <= s.published
  }

  lemma ScanBlocks(s: State, d: DescriptorId, removed: bool)
    requires WellShaped(s) && s.registry.Scanning? && d in s.registry.pending && d in s.descriptors
    requires s.descriptors[d].family.CarriesPathClaims()
    ensures RegistryEnabled(s, ScanDescriptor(d, Locked(s, d), removed))
    ensures ScanOne(s, d, Locked(s, d), removed).registry.Idle? <==> Blocks(s, d, s.registry.request)
    ensures forall c :: c in s.published - ScanOne(s, d, Locked(s, d), removed).published ==> Abandoned(s, c)
  {}

  /** Retiring abandoned descriptors neither creates nor removes a reason to refuse a request. */
  lemma RetiringKeepsBlocks(s: State, t: State, request: Descriptor)
    requires OnlyRetires(s, t)
    requires forall c :: c in s.published - t.published ==> Abandoned(s, c)
    ensures forall c :: Blocks(t, c, request) <==> Blocks(s, c, request)
    ensures forall c :: Abandoned(t, c) ==> Abandoned(s, c)
  {
    SameFilesSameLocks(s, t);
    forall c ensures Blocks(t, c, request) <==> Blocks(s, c, request) {
      if c in s.published && c !in t.published {
        assert c in s.published - t.published;
        assert Abandoned(s, c);
      }
    }
  }

  /** What is known between two steps of the scan that began in `start`. */
  ghost predicate ScanInProgress(start: State, s: State, request: Descriptor) {
    && s.registry.Scanning? && s.registry.request == request
    && OnlyRetires(start, s)
    && (forall c :: c in start.published - s.published ==> Abandoned(start, c))
    && (forall c :: c in s.registry.pending ==>
          c in start.descriptors && start.descriptors[c].family.CarriesPathClaims())
    && (forall c :: Blocks(start, c, request) ==> c in s.registry.pending)
  }

  lemma ScanBegins(s: State, process: Process, family: LeaseFamily, claims: seq<PathClaim>, group: Option<string>)
    requires WellShaped(s) && s.registry.Idle?
    ensures ScanInProgress(s, RegistryStep(s, BeginAdmission(process, family, claims, group)),
                           Descriptor(family, claims, group, process))
  {
    RegistryFrame(s, BeginAdmission(process, family, claims, group));
    assert s.published - s.published == {};
  }

  /** One descriptor is scanned: the admission stops exactly when that descriptor blocks it. */
  lemma ScanAdvances(start: State, s: State, request: Descriptor, d: DescriptorId, removed: bool)
    requires WellShaped(s) && ScanInProgress(start, s, request) && d in s.registry.pending
    ensures RegistryEnabled(s, ScanDescriptor(d, Locked(s, d), removed))
    ensures var t := ScanOne(s, d, Locked(s, d), removed);
            && OnlyRetires(start, t)
            && (forall c :: c in start.published - t.published ==> Abandoned(start, c))
            && (if t.registry.Idle? then Blocks(start, d, request)
                else ScanInProgress(start, t, request) && t.registry.pending == s.registry.pending - {d})
  {
    var t := ScanOne(s, d, Locked(s, d), removed);
    ScanBlocks(s, d, removed);
    RegistryFrame(s, ScanDescriptor(d, Locked(s, d), removed));
    RetiringKeepsBlocks(start, s, request);
    forall c | c in start.published - t.published ensures Abandoned(start, c) {
      if c !in s.published { assert c in start.published - s.published; }
      else { assert c in s.published - t.published; }
    }
  }

  lemma LifecycleUnaffected(s: State, t: State, family: LeaseFamily)
    requires OnlyRetires(s, t)
    requires forall c :: c in s.published - t.published ==> Abandoned(s, c)
    ensures LifecycleFree(t, family) <==> LifecycleFree(s, family)
  {
    forall d | d in s.published && d in s.descriptors && s.descriptors[d].family == family && family.SingularLifecycle()
      ensures d in t.published
    {
      assert d in s.published - t.published ==> Abandoned(s, d);
    }
  }

  // ---- The verdict in families, groups and claims. ----

  /** A held descriptor refuses a request: it is a journal, claim or staging reservation, alive or not, or
      an ephemeral mutation that is alive; it is of another group and of another queue execution; and
      some requested claim conflicts with some held one. */
  ghost predicate Refuses(s: State, c: DescriptorId, request: Descriptor) {
    && c in s.published && c in s.descriptors
    && var held := s.descriptors[c];
    && (held.family.JournalOperation? || held.family.ExecutionClaim? || held.family.ExecutionStaging?
        || (held.family.EphemeralMutation? && Locked(s, c)))
    && !Siblings(request, held)
    && exists i, j :: 0 <= i < |request.claims| && 0 <= j < |held.claims|
         && request.claims[i].ConflictsWith(held.claims[j])
  }

  /** Queue families reserve lifecycles and no paths. */
  predicate ClaimsAllowed(request: Descriptor) {
    request.family.QueueScope? || request.family.QueueExecution? ==> request.claims == []
  }

  /** A journal, a queue scope and a queue execution exist once. */
  predicate LifecycleTakenBy(s: State, c: DescriptorId, family: LeaseFamily) {
    && c in s.published && c in s.descriptors && s.descriptors[c].family == family
    && (family.JournalOperation? || family.QueueScope? || family.QueueExecution?)
  }

  lemma BlockingIsRefusing(s: State, c: DescriptorId, request: Descriptor)
    requires WellShaped(s)
    ensures Blocks(s, c, request) <==> Refuses(s, c, request)
  {}

  /** The request is admitted. */
  ghost predicate Admits(s: State, request: Descriptor) {
    && (forall c :: !Refuses(s, c, request)) && ClaimsAllowed(request)
    && (forall c :: !LifecycleTakenBy(s, c, request.family))
  }

  /** Whoever shares the request's group or its queue execution is no obstacle, however their claims
      conflict; nor is an ephemeral mutation that nobody holds. */
  lemma SiblingsAreTolerated(s: State, request: Descriptor)
    requires forall c :: c in s.published && c in s.descriptors ==>
               var held := s.descriptors[c];
               || (request.group.Some? && held.group == request.group)
               || (&& (|| request.family.QueueExecution? || request.family.ExecutionClaim?
                       || request.family.ExecutionStaging?)
                   && (held.family.QueueExecution? || held.family.ExecutionClaim? || held.family.ExecutionStaging?)
                   && held.family.id == request.family.id)
               || (held.family.EphemeralMutation? && !Locked(s, c))
               || forall i, j :: 0 <= i < |request.claims| && 0 <= j < |held.claims| ==>
                    !request.claims[i].ConflictsWith(held.claims[j])
    requires ClaimsAllowed(request)
    requires forall c :: c in s.published && c in s.descriptors && s.descriptors[c].family == request.family ==>
               !(request.family.JournalOperation? || request.family.QueueScope? || request.family.QueueExecution?)
    ensures Admits(s, request)
  {}

  lemma LifecycleIsFree(s: State, family: LeaseFamily)
    ensures LifecycleFree(s, family) <==> forall c :: !LifecycleTakenBy(s, c, family)
  {
    if !LifecycleFree(s, family) {
      var c :| c in s.published && c in s.descriptors && s.descriptors[c].family == family;
      assert LifecycleTakenBy(s, c, family);
    }
    if c :| LifecycleTakenBy(s, c, family) {
      assert s.descriptors[c].family == family;
    }
  }

  lemma VerdictIsSpelledOut(s: State, request: Descriptor)
    requires WellShaped(s)
    ensures (exists c :: Blocks(s, c, request)) <==> exists c :: Refuses(s, c, request)
    ensures Admits(s, request) <==>
            && (forall c :: !Blocks(s, c, request))
            && (request.family.CarriesPathClaims() || request.claims == []) && LifecycleFree(s, request.family)
  {
    forall c ensures Blocks(s, c, request) <==> Refuses(s, c, request) {
      BlockingIsRefusing(s, c, request);
    }
    LifecycleIsFree(s, request.family);
  }

  /** What one admission changes for the next: everything that refused still does, and the new
      descriptor does so unless it is a sibling or holds nothing that conflicts. */
  lemma AdmissionIsAllThatChanges(s: State, t: State, d: DescriptorId, request: Descriptor)
    requires WellShaped(s) && WellShaped(t) && d !in s.descriptors && d in t.descriptors
    requires t.descriptors == s.descriptors[d := t.descriptors[d]]
    requires t.published <= s.published + {d} && d in t.published && Locked(t, d)
    requires forall c :: c in s.published - t.published ==> Abandoned(s, c)
    requires forall c :: c != d ==> Locked(t, c) == Locked(s, c)
    ensures forall c :: c != d ==> (Refuses(t, c, request) <==> Refuses(s, c, request))
    ensures forall c, family :: c != d ==> (LifecycleTakenBy(t, c, family) <==> LifecycleTakenBy(s, c, family))
  {
    forall c | c != d ensures Refuses(t, c, request) <==> Refuses(s, c, request) {
      if c in s.published && c !in t.published {
        assert c in s.published - t.published && Abandoned(s, c);
      }
    }
    forall c, family | c != d ensures LifecycleTakenBy(t, c, family) <==> LifecycleTakenBy(s, c, family) {
      if c in s.published && c !in t.published {
        assert c in s.published - t.published && Abandoned(s, c);
      }
    }
  }

  ghost predicate StandsInTheWay(held: Descriptor, request: Descriptor) {
    || (held.family == request.family
        && (held.family.JournalOperation? || held.family.QueueScope? || held.family.QueueExecution?))
    || (&& !Siblings(request, held)
        && exists i, j :: 0 <= i < |request.claims| && 0 <= j < |held.claims|
             && request.claims[i].ConflictsWith(held.claims[j]))
  }

  lemma NextAdmission(s: State, t: State, first: Descriptor, d: DescriptorId, o: OfdId, h: HandleId, second: Descriptor)
    requires WellShaped(s) && WellShaped(t) && d !in s.descriptors && Admitted(s, t, first, d, o, h)
    ensures Admits(t, second) <==> Admits(s, second) && !StandsInTheWay(first, second)
  {
    hide Refuses, StandsInTheWay, LifecycleTakenBy;
    AdmissionIsAllThatChanges(s, t, d, second);
    LockedStandsInTheWay(t, d, second);
    NewcomerStands(s, d, second);
  }

  lemma NewcomerStands(s: State, d: DescriptorId, request: Descriptor)
    requires d !in s.descriptors
    ensures !Refuses(s, d, request) && !LifecycleTakenBy(s, d, request.family)
  {}

  lemma LockedStandsInTheWay(s: State, d: DescriptorId, request: Descriptor)
    requires WellShaped(s) && d in s.published && d in s.descriptors && Locked(s, d)
    ensures StandsInTheWay(s.descriptors[d], request) <==>
            Refuses(s, d, request) || LifecycleTakenBy(s, d, request.family)
  {}

  /** Nothing but abandoned ephemeral descriptors lost their names. */
  ghost predicate Swept(s: State, t: State) {
    OnlyRetires(s, t) && forall c :: c in s.published - t.published ==> Abandoned(s, c)
  }

  /** The request is published as `d`, locked by its live owner; nothing else changed but what a scan may
      take away. */
  ghost predicate Admitted(s: State, t: State, request: Descriptor, d: DescriptorId, o: OfdId, h: HandleId) {
    && t.descriptors == s.descriptors[d := request]
    && d in t.published && LiveHandle(t, h) && DescriptorOf(t, h) == d && Locked(t, d)
    && t.published <= s.published + {d}
    && (forall c :: c in s.published - t.published ==> Abandoned(s, c))
    && t.ofds.Keys == s.ofds.Keys + {o} && t.handles.Keys == s.handles.Keys + {h}
    && (forall c :: c != d ==> Locked(t, c) == Locked(s, c))
  }

  lemma PublishingHolds(s: State, d: DescriptorId, o: OfdId, h: HandleId)
    requires WellShaped(s) && GrantEnabled(s, PublishAdmitted, d, o, h)
    ensures var t := GrantStep(s, PublishAdmitted, d, o, h);
            && t.descriptors == s.descriptors[d := s.registry.request]
            && t.published == s.published + {d} && t.registry.Idle?
            && LiveHandle(t, h) && DescriptorOf(t, h) == d && Locked(t, d)
            && t.ofds.Keys == s.ofds.Keys + {o} && t.handles.Keys == s.handles.Keys + {h}
            && (forall c :: c != d ==> Locked(t, c) == Locked(s, c))
  {
    GrantLocks(s, PublishAdmitted, d, o, h);
    var t := GrantStep(s, PublishAdmitted, d, o, h);
    assert SomeHandleOpen(t, o) by { assert t.handles[h].open; }
    assert HoldsLock(t, o);
  }

  class CoordinationRoot {
    var state: State

    constructor ()
      ensures state == INITIAL
    {
      state := INITIAL;
    }

    /** One admission. `reclaim` says whether each best-effort removal happens to succeed. The
        events that brought the state about are returned as a run of the protocol. */
    method AcquireGroupedInternal(process: Process, family: LeaseFamily, claims: seq<PathClaim>, group: Option<string>,
                                  legacyAmbiguity: bool, reclaim: DescriptorId -> bool,
                                  d: DescriptorId, o: OfdId, h: HandleId)
      returns (r: Result<HandleId, AdmissionError>, ghost run: seq<Event>)
      requires Invariant(state) && state.registry.Idle?
      requires d !in state.descriptors && o !in state.ofds && h !in state.handles
      modifies this
      ensures Invariant(state) && state.registry.Idle?
      ensures ValidRun(old(state), run) && state == Run(old(state), run)
      ensures var request := Descriptor(family, claims, group, process);
              r.Ok? <==>
              && !legacyAmbiguity
              && (forall c :: !Blocks(old(state), c, request))
              && (family.CarriesPathClaims() || claims == [])
              && LifecycleFree(old(state), family)
      ensures r == Err(ConflictsWithHeldClaim) <==>
              !legacyAmbiguity && exists c :: Blocks(old(state), c, Descriptor(family, claims, group, process))
      ensures r.Ok? ==> Admitted(old(state), state, Descriptor(family, claims, group, process), d, o, h)
      ensures r.Err? ==> Swept(old(state), state)
    {
      run := [];
      if legacyAmbiguity {
        return Err(LegacyAmbiguity), [];
      }
      var request := Descriptor(family, claims, group, process);
      ghost var start := state;
      var blocked;
      blocked, run := ScanAll(request, reclaim);
      if blocked {
        return Err(ConflictsWithHeldClaim), run;
      }
      LifecycleUnaffected(start, state, family);
      if !family.CarriesPathClaims() && claims != [] {
        run := Perform(run, start, OnRegistry(AbandonAdmission));
        return Err(QueueFamilyWithClaims), run;
      }
      if !LifecycleFree(state, family) {
        run := Perform(run, start, OnRegistry(AbandonAdmission));
        return Err(LifecycleTaken), run;
      }
      SameFilesSameLocks(start, state);
      run := PublishAndHold(run, start, d, o, h);
      r := Ok(h);
    }

    /** One admission without a legacy exception: it succeeds exactly when nothing that is held refuses the
        request, and then holds what was asked for. */
    method AcquireGrouped(request: Descriptor, legacyAmbiguity: bool, reclaim: DescriptorId -> bool,
                          d: DescriptorId, o: OfdId, h: HandleId)
      returns (r: Result<HandleId, AdmissionError>, ghost run: seq<Event>)
      requires Invariant(state) && state.registry.Idle?
      requires d !in state.descriptors && o !in state.ofds && h !in state.handles
      modifies this
      ensures Invariant(state) && state.registry.Idle?
      ensures ValidRun(old(state), run) && state == Run(old(state), run)
      ensures r.Ok? <==> !legacyAmbiguity && Admits(old(state), request)
      ensures r == Err(ConflictsWithHeldClaim) <==>
              !legacyAmbiguity && exists c :: Refuses(old(state), c, request)
      ensures r.Ok? ==> Admitted(old(state), state, request, d, o, h)
      ensures r.Err? ==> Swept(old(state), state)
    {
      hide Blocks, Refuses, Admits, LifecycleFree, Run, ValidRun, LiveHandle;
      VerdictIsSpelledOut(state, request);
      r, run := AcquireGroupedInternal(request.owner, request.family, request.claims, request.group,
                                       legacyAmbiguity, reclaim, d, o, h);
    }

    /** One admission after another. The second succeeds exactly when it would have succeeded before the
        first and the first does not stand in its way: they are of one group, or of one queue execution,
        or their claims do not conflict, and they are not the same singular lifecycle. */
    method AcquireTwo(first: Descriptor, second: Descriptor, reclaim: DescriptorId -> bool,
                      d: DescriptorId, o: OfdId, h: HandleId, e: DescriptorId, p: OfdId, k: HandleId)
      returns (r: Result<HandleId, AdmissionError>, q: Result<HandleId, AdmissionError>)
      requires Invariant(state) && state.registry.Idle?
      requires d !in state.descriptors && o !in state.ofds && h !in state.handles && d != e && o != p && h != k
      requires e !in state.descriptors && p !in state.ofds && k !in state.handles
      modifies this
      ensures Invariant(state)
      ensures r.Ok? ==> (q.Ok? <==> Admits(old(state), second) && !StandsInTheWay(first, second))
    {
      hide Refuses, Admits, StandsInTheWay;
      ghost var start := state;
      ghost var run;
      r, run := AcquireGrouped(first, false, reclaim, d, o, h);
      if r.Err? {
        return r, Err(LegacyAmbiguity);
      }
      NextAdmission(start, state, first, d, o, h, second);
      q, run := AcquireGrouped(second, false, reclaim, e, p, k);
    }

    /** Take the registry lock and look at every descriptor that can carry claims. */
    method ScanAll(request: Descriptor, reclaim: DescriptorId -> bool) returns (blocked: bool, ghost run: seq<Event>)
      requires Invariant(state) && state.registry.Idle?
      modifies this
      ensures Invariant(state)
      ensures ValidRun(old(state), run) && state == Run(old(state), run)
      ensures OnlyRetires(old(state), state)
      ensures forall c :: c in old(state.published) - state.published ==> Abandoned(old(state), c)
      ensures blocked <==> exists c :: Blocks(old(state), c, request)
      ensures if blocked then state.registry.Idle?
              else state.registry.Scanning? && state.registry.request == request && state.registry.pending == {}
    {
      ghost var start := state;
      ScanBegins(state, request.owner, request.family, request.claims, request.group);
      run := Perform([], start,
                     OnRegistry(BeginAdmission(request.owner, request.family, request.claims, request.group)));
      while state.registry.pending != {}
        invariant Invariant(state) && ValidRun(start, run) && state == Run(start, run)
        invariant ScanInProgress(start, state, request)
        decreases |state.registry.pending|
      {
        var c :| c in state.registry.pending;
        ScanAdvances(start, state, request, c, reclaim(c));
        run := Perform(run, start, OnRegistry(ScanDescriptor(c, Locked(state, c), reclaim(c))));
        if state.registry.Idle? {
          return true, run;
        }
      }
      blocked := false;
    }

    method PublishAndHold(ghost run: seq<Event>, ghost start: State, d: DescriptorId, o: OfdId, h: HandleId)
      returns (ghost extended: seq<Event>)
      requires Invariant(state) && Enabled(state, OnGrant(PublishAdmitted, d, o, h))
      requires ValidRun(start, run) && state == Run(start, run)
      modifies this
      ensures Invariant(state) && state.registry.Idle?
      ensures ValidRun(start, extended) && state == Run(start, extended)
      ensures state.descriptors == old(state.descriptors)[d := old(state.registry.request)]
      ensures state.published == old(state.published) + {d}
      ensures LiveHandle(state, h) && DescriptorOf(state, h) == d && Locked(state, d)
      ensures state.ofds.Keys == old(state.ofds.Keys) + {o} && state.handles.Keys == old(state.handles.Keys) + {h}
      ensures forall c :: c != d ==> Locked(state, c) == Locked(old(state), c)
    {
      PublishingHolds(state, d, o, h);
      extended := Perform(run, start, OnGrant(PublishAdmitted, d, o, h));
    }

    /** Take one step of the protocol and record it. */
    method Perform(ghost run: seq<Event>, ghost start: State, e: Event) returns (ghost extended: seq<Event>)
      requires Invariant(state) && Enabled(state, e)
      requires ValidRun(start, run) && state == Run(start, run)
      modifies this
      ensures state == Step(old(state), e) && Invariant(state)
      ensures extended == run + [e] && ValidRun(start, extended) && state == Run(start, extended)
    {
      StepKeepsInvariant(state, e);
      RunAppends(start, run, e);
      state := Step(state, e);
      extended := run + [e];
    }
  }
}
