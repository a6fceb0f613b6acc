/** Lease families: which ones carry claims and which outlive their owner. */
module LeaseFamilies {
  import opened Claims

  datatype LeaseFamily =
    | JournalOperation(id: nat)
    | QueueScope(id: nat)
    | QueueExecution(id: nat)
    | ExecutionClaim(id: nat)
    | ExecutionStaging(id: nat)
    | EphemeralMutation(id: nat)
  {
    predicate CarriesPathClaims() { !QueueScope? && !QueueExecution? }

    predicate ReserveAfterOwnerDeath() {
      JournalOperation? || QueueExecution? || ExecutionClaim? || ExecutionStaging?
    }

    predicate ExecutionFamily() { QueueExecution? || ExecutionClaim? || ExecutionStaging? }

    predicate SingularLifecycle() { JournalOperation? || QueueScope? || QueueExecution? }
  }

  datatype ClaimAvailability = Live | RecoveryReserved | ReclaimableEphemeral

  function ClassifyAvailability(family: LeaseFamily, lockContended: bool): ClaimAvailability {
    if lockContended then Live
    else if family.ReserveAfterOwnerDeath() || family.QueueScope? then RecoveryReserved
    else ReclaimableEphemeral
  }

  predicate SameExecutionLifecycle(a: LeaseFamily, b: LeaseFamily) {
    a.ExecutionFamily() && b.ExecutionFamily() && a.id == b.id
  }

  /** Some requested claim conflicts with some held claim. */
  predicate AnyConflict(requested: seq<PathClaim>, held: seq<PathClaim>) {
    exists i, j :: 0 <= i < |requested| && 0 <= j < |held| && requested[i].ConflictsWith(held[j])
  }

  lemma AnyConflictIsSymmetric(a: seq<PathClaim>, b: seq<PathClaim>)
    ensures AnyConflict(a, b) <==> AnyConflict(b, a)
  {
    if AnyConflict(a, b) {
      var i, j :| 0 <= i < |a| && 0 <= j < |b| && a[i].ConflictsWith(b[j]);
      ConflictIsSymmetric(a[i], b[j]);
    }
    if AnyConflict(b, a) {
      var i, j :| 0 <= i < |b| && 0 <= j < |a| && b[i].ConflictsWith(a[j]);
      ConflictIsSymmetric(b[i], a[j]);
    }
  }
}

/** The cross-process lease protocol as a state machine. Every region under the registry lock or
    the process-local registration mutex is one step, except that an admission scan is one step per
    descriptor, so that owners can drop, crash, fork or export in the middle of it. */
module LeaseProtocol {
  import opened Wrappers
  import opened Claims
  import opened LeaseFamilies

  type Process = nat
  type DescriptorId = nat
  type OfdId = nat
  type HandleId = nat

  datatype Descriptor = Descriptor(
    family: LeaseFamily,
    claims: seq<PathClaim>,
    group: Option<string>,
    owner: Process)

  /** A kernel open-file description: it holds its descriptor's lock until it is unlocked or the
      last descriptor referring to it closes. `exports` are deliberate duplicates, `forks`
      accidental ones. */
  datatype Ofd = Ofd(descriptor: DescriptorId, unlocked: bool, exports: nat, forks: nat)

  /** One process's shared lease state: its logical owners and its own open file. `guarded` is set
      while the sole owner is a guard that has not given up its lease. */
  datatype Handle = Handle(ofd: OfdId, process: Process, owners: nat, exported: bool, open: bool, guarded: bool)

  datatype Registry =
    | Idle
    | Scanning(process: Process, request: Descriptor, pending: set<DescriptorId>)

  datatype State = State(
    descriptors: map<DescriptorId, Descriptor>,
    published: set<DescriptorId>,
    ofds: map<OfdId, Ofd>,
    handles: map<HandleId, Handle>,
    registered: map<(Process, DescriptorId), HandleId>,
    registry: Registry)

  /** Steps under the registry lock that grant nothing. */
  datatype RegistryEvent =
    | BeginAdmission(process: Process, family: LeaseFamily, claims: seq<PathClaim>, group: Option<string>)
    | ScanDescriptor(d: DescriptorId, contended: bool, removed: bool)
    | AbandonAdmission
    | Retire(d: DescriptorId)

  /** Steps that lock a descriptor through a new open-file description. */
  datatype GrantEvent =
    | PublishAdmitted
    | CreateClaimless(process: Process, family: LeaseFamily)
    | Recover(process: Process)
    | Reopen(process: Process)

  /** Steps of the values that own a lease. */
  datatype OwnerEvent =
    | IntoLease(h: HandleId)
    | RetireOnGuardDrop(h: HandleId)
    | ReleaseOwner(h: HandleId)
    | CoHold(process: Process, d: DescriptorId)

  /** Steps on file descriptors. */
  datatype FdEvent =
    | UnlockReleased(h: HandleId)
    | CloseReleased(h: HandleId)
    | ExportFd(h: HandleId)
    | AdoptExportedFd(o: OfdId, process: Process, h: HandleId)
    | CloseExportedFd(o: OfdId)
    | ForkCopy(o: OfdId)
    | CloseForkCopy(o: OfdId)

  datatype Event =
    | OnRegistry(r: RegistryEvent)
    | OnGrant(g: GrantEvent, d: DescriptorId, o: OfdId, h: HandleId)
    | OnOwner(w: OwnerEvent)
    | OnFd(f: FdEvent)
    | Crash(process: Process)

  const INITIAL := State(map[], {}, map[], map[], map[], Idle)

  // ---- Locks and authority. ----

  predicate SomeHandleOpen(s: State, o: OfdId) {
    exists h :: h in s.handles && s.handles[h].ofd == o && s.handles[h].open
  }

  /** Some file descriptor still refers to the open-file description. */
  predicate OfdOpen(s: State, o: OfdId) {
    o in s.ofds && (s.ofds[o].exports > 0 || s.ofds[o].forks > 0 || SomeHandleOpen(s, o))
  }

  predicate HoldsLock(s: State, o: OfdId) {
    OfdOpen(s, o) && !s.ofds[o].unlocked
  }

  predicate Locked(s: State, d: DescriptorId) {
    exists o :: o in s.ofds && HoldsLock(s, o) && s.ofds[o].descriptor == d
  }

  predicate Durable(family: LeaseFamily) {
    family.ReserveAfterOwnerDeath() || family.QueueScope?
  }

  /** A published descriptor that admission must respect. */
  predicate Authority(s: State, d: DescriptorId) {
    && d in s.published && d in s.descriptors
    && (Durable(s.descriptors[d].family) || Locked(s, d))
  }

  predicate Exempt(a: Descriptor, b: Descriptor) {
    || SameExecutionLifecycle(a.family, b.family)
    || (a.group.Some? && a.group == b.group)
  }

  // ---- Steps. ----

  /** A live value of the lease exists in some process. */
  predicate LiveHandle(s: State, h: HandleId) {
    h in s.handles && s.handles[h].owners > 0 && s.handles[h].open && s.handles[h].ofd in s.ofds
    && s.ofds[s.handles[h].ofd].descriptor in s.descriptors
  }

  function DescriptorOf(s: State, h: HandleId): DescriptorId
    requires LiveHandle(s, h)
  {
    s.ofds[s.handles[h].ofd].descriptor
  }

  predicate Releasing(s: State, h: HandleId) {
    h in s.handles && s.handles[h].owners == 0 && s.handles[h].open && s.handles[h].ofd in s.ofds
  }

  /** No other descriptor exists for a lifecycle that admits only one. */
  predicate LifecycleFree(s: State, family: LeaseFamily) {
    family.SingularLifecycle() ==>
      forall d :: d in s.published && d in s.descriptors ==> s.descriptors[d].family != family
  }

  predicate RegistryEnabled(s: State, e: RegistryEvent) {
    match e
    case BeginAdmission(_, _, _, _) => s.registry.Idle?
    case ScanDescriptor(d, contended, removed) =>
      && s.registry.Scanning? && d in s.registry.pending && d in s.descriptors
      && (d in s.published && Locked(s, d) ==> contended)
    case AbandonAdmission => s.registry.Scanning?
    case Retire(d) => s.registry.Idle? && d in s.published && !Locked(s, d)
  }

  /** What the scan does with one descriptor: a missing one is skipped, an exempt one tolerated, an
      ownerless ephemeral one reclaimed; otherwise any conflict rejects the admission. */
  function ScanOne(s: State, d: DescriptorId, contended: bool, removed: bool): State
    requires s.registry.Scanning? && d in s.descriptors
  {
    var r := s.registry;
    var next := s.(registry := r.(pending := r.pending - {d}));
    var existing := s.descriptors[d];
    if d !in s.published || Exempt(r.request, existing) then next
    else if ClassifyAvailability(existing.family, contended) == ReclaimableEphemeral then
      if removed then next.(published := s.published - {d}) else next
    else if AnyConflict(r.request.claims, existing.claims) then s.(registry := Idle)
    else next
  }

  function RegistryStep(s: State, e: RegistryEvent): State
    requires e.ScanDescriptor? ==> s.registry.Scanning? && e.d in s.descriptors
  {
    match e
    case BeginAdmission(p, family, claims, group) =>
      s.(registry := Scanning(p, Descriptor(family, claims, group, p),
                              set d | d in s.published && d in s.descriptors
                                      && s.descriptors[d].family.CarriesPathClaims()))
    case ScanDescriptor(d, contended, removed) => ScanOne(s, d, contended, removed)
    case AbandonAdmission => s.(registry := Idle)
    case Retire(d) => s.(published := s.published - {d})
  }

  predicate GrantEnabled(s: State, e: GrantEvent, d: DescriptorId, o: OfdId, h: HandleId) {
    && o !in s.ofds && h !in s.handles
    && match e
       case PublishAdmitted =>
         && s.registry.Scanning? && s.registry.pending == {} && d !in s.descriptors
         && (s.registry.request.family.CarriesPathClaims() || s.registry.request.claims == [])
         && LifecycleFree(s, s.registry.request.family)
       case CreateClaimless(_, family) => s.registry.Idle? && d !in s.descriptors && LifecycleFree(s, family)
       case Recover(_) =>
         s.registry.Idle? && d in s.published && d in s.descriptors && Durable(s.descriptors[d].family) && !Locked(s, d)
       case Reopen(_) =>
         d in s.published && d in s.descriptors && Durable(s.descriptors[d].family) && !Locked(s, d)
  }

  /** A new open-file description that holds the lock of `d`, owned by one handle of `p`. */
  function Grant(s: State, p: Process, guarded: bool, register: bool, d: DescriptorId, o: OfdId, h: HandleId): State {
    s.(ofds := s.ofds[o := Ofd(d, false, 0, 0)],
       handles := s.handles[h := Handle(o, p, 1, false, true, guarded)],
       registered := if register then s.registered[(p, d) := h] else s.registered)
  }

  /** Publish a new descriptor whose creator holds its lock, and let the registry go. */
  function Publish(s: State, body: Descriptor, guarded: bool, d: DescriptorId, o: OfdId, h: HandleId): State {
    Grant(s, body.owner, guarded, body.family.JournalOperation?, d, o, h)
      .(descriptors := s.descriptors[d := body], published := s.published + {d}, registry := Idle)
  }

  function GrantStep(s: State, e: GrantEvent, d: DescriptorId, o: OfdId, h: HandleId): State
    requires e.PublishAdmitted? ==> s.registry.Scanning?
    requires e.Recover? ==> d in s.descriptors
  {
    match e
    case PublishAdmitted => Publish(s, s.registry.request, true, d, o, h)
    case CreateClaimless(p, family) => Publish(s, Descriptor(family, [], None, p), false, d, o, h)
    case Recover(p) =>
      var body := s.descriptors[d];
      Grant(s, p, false, body.family.JournalOperation? && body.owner == p, d, o, h)
    case Reopen(p) => Grant(s, p, false, false, d, o, h)
  }

  predicate OwnerEnabled(s: State, e: OwnerEvent) {
    match e
    case IntoLease(h) => LiveHandle(s, h) && s.handles[h].guarded
    case RetireOnGuardDrop(h) => LiveHandle(s, h) && s.handles[h].guarded
    case ReleaseOwner(h) => LiveHandle(s, h) && (s.handles[h].guarded ==> s.handles[h].owners > 1)
    case CoHold(p, d) =>
      && s.registry.Idle? && d in s.published && d in s.descriptors
      && s.descriptors[d].family.JournalOperation? && s.descriptors[d].owner == p
      && Locked(s, d)
      && (p, d) in s.registered && s.registered[(p, d)] in s.handles && s.handles[s.registered[(p, d)]].open
  }

  /** Drop one logical owner; the final one also leaves the process-local registration. */
  function Release(s: State, h: HandleId): State
    requires LiveHandle(s, h)
  {
    var handle := s.handles[h];
    var key := (handle.process, DescriptorOf(s, h));
    s.(handles := s.handles[h := handle.(owners := handle.owners - 1)],
       registered := if handle.owners == 1 && key in s.registered && s.registered[key] == h
                     then s.registered - {key} else s.registered)
  }

  function OwnerStep(s: State, e: OwnerEvent): State
    requires OwnerEnabled(s, e)
  {
    match e
    case IntoLease(h) => s.(handles := s.handles[h := s.handles[h].(guarded := false)])
    case RetireOnGuardDrop(h) =>
      var d := DescriptorOf(s, h);
      s.(handles := s.handles[h := s.handles[h].(guarded := false)],
         published := if s.descriptors[d].family.EphemeralMutation? && !s.handles[h].exported
                      then s.published - {d} else s.published)
    case ReleaseOwner(h) => Release(s, h)
    case CoHold(p, d) =>
      var h := s.registered[(p, d)];
      s.(handles := s.handles[h := s.handles[h].(owners := s.handles[h].owners + 1)])
  }

  predicate FdEnabled(s: State, e: FdEvent) {
    match e
    case UnlockReleased(h) =>
      && Releasing(s, h) && !s.handles[h].exported
      && s.ofds[s.handles[h].ofd].descriptor in s.descriptors
      && s.descriptors[s.ofds[s.handles[h].ofd].descriptor].family.JournalOperation?
    case CloseReleased(h) => Releasing(s, h)
    case ExportFd(h) => LiveHandle(s, h)
    case AdoptExportedFd(o, _, h) =>
      o in s.ofds && s.ofds[o].exports > 0 && s.ofds[o].descriptor in s.published && h !in s.handles
    case CloseExportedFd(o) => o in s.ofds && s.ofds[o].exports > 0
    case ForkCopy(o) => OfdOpen(s, o)
    case CloseForkCopy(o) => o in s.ofds && s.ofds[o].forks > 0
  }

  function FdStep(s: State, e: FdEvent): State
    requires FdEnabled(s, e)
  {
    match e
    case UnlockReleased(h) =>
      var o := s.handles[h].ofd;
      s.(ofds := s.ofds[o := s.ofds[o].(unlocked := true)])
    case CloseReleased(h) => s.(handles := s.handles[h := s.handles[h].(open := false)])
    case ExportFd(h) =>
      var o := s.handles[h].ofd;
      s.(handles := s.handles[h := s.handles[h].(exported := true)],
         ofds := s.ofds[o := s.ofds[o].(exports := s.ofds[o].exports + 1)])
    case AdoptExportedFd(o, p, h) =>
      s.(handles := s.handles[h := Handle(o, p, 1, true, true, false)],
         ofds := s.ofds[o := s.ofds[o].(exports := s.ofds[o].exports - 1)])
    case CloseExportedFd(o) => s.(ofds := s.ofds[o := s.ofds[o].(exports := s.ofds[o].exports - 1)])
    case ForkCopy(o) => s.(ofds := s.ofds[o := s.ofds[o].(forks := s.ofds[o].forks + 1)])
    case CloseForkCopy(o) => s.(ofds := s.ofds[o := s.ofds[o].(forks := s.ofds[o].forks - 1)])
  }

  function KillHandle(handle: Handle, p: Process): Handle {
    if handle.process == p then handle.(owners := 0, open := false, guarded := false) else handle
  }

  /** A process dies: its handles close, its registrations vanish, its admission is abandoned.
      Exported and forked file descriptors belong to other processes and survive. */
  function KillProcess(s: State, p: Process): State {
    s.(handles := map h | h in s.handles :: KillHandle(s.handles[h], p),
       registered := map k | k in s.registered && k.0 != p :: s.registered[k],
       registry := if s.registry.Scanning? && s.registry.process == p then Idle else s.registry)
  }

  predicate Enabled(s: State, e: Event) {
    match e
    case OnRegistry(r) => RegistryEnabled(s, r)
    case OnGrant(g, d, o, h) => GrantEnabled(s, g, d, o, h)
    case OnOwner(w) => OwnerEnabled(s, w)
    case OnFd(f) => FdEnabled(s, f)
    case Crash(_) => true
  }

  function Step(s: State, e: Event): State
    requires Enabled(s, e)
  {
    match e
    case OnRegistry(r) => RegistryStep(s, r)
    case OnGrant(g, d, o, h) => GrantStep(s, g, d, o, h)
    case OnOwner(w) => OwnerStep(s, w)
    case OnFd(f) => FdStep(s, f)
    case Crash(p) => KillProcess(s, p)
  }

  // ---- Runs. ----

  /** Every event of the run is enabled where it occurs. */
  ghost predicate ValidRun(s: State, events: seq<Event>)
    decreases |events|
  {
    events == [] || (Enabled(s, events[0]) && ValidRun(Step(s, events[0]), events[1..]))
  }

  ghost function Run(s: State, events: seq<Event>): State
    requires ValidRun(s, events)
    decreases |events|
  {
    if events == [] then s else Run(Step(s, events[0]), events[1..])
  }
}
