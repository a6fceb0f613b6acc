/** Rotation of the archive password between two secret-store slots around the atomic publication of
    the configuration file, with a pending journal, under any failure and any process death. */
module SecretRotation {
  import opened Wrappers

  /** Secret references: the two slots this configuration owns, other well-formed references, and
      text that is no reference at all. */
  datatype Reference = SlotA | SlotB | Foreign(id: nat) | Invalid(text: string)

  type Secret = string

  /** What the configuration file says about the archive password. */
  datatype ConfigFile = Missing | Unparsable | Parsed(reference: Option<Reference>, cleartext: Option<Secret>)

  datatype Journal = Journal(references: set<Reference>, retire: set<Reference>)

  /** How one call ends. A late fault or a late death comes after the call took effect. */
  datatype Fate = Proceed | Unavailable | Fault | LateFault | HaltBefore | HaltAfter

  datatype Call = Done | Failed | Unreachable

  datatype Fetch = Found(secret: Secret) | NotFound | FetchFailed | FetchUnreachable

  datatype Publication = Durable | Unconfirmed | NotPublished

  /** What a save asks for. */
  datatype Request = Set(secret: Secret, hint: Option<Reference>) | Retain(reference: Reference) | Clear

  datatype SaveResult = Saved | SavedCleanupDeferred | SavedUnconfirmed | SaveFailed

  predicate IsSlot(r: Reference) { r.SlotA? || r.SlotB? }

  function Published(config: ConfigFile): Option<Reference> {
    if config.Parsed? then config.reference else None
  }

  function AsSet(r: Option<Reference>): set<Reference> {
    if r.Some? then {r.value} else {}
  }

  function NextSlot(current: Option<Reference>): (r: Reference)
    ensures IsSlot(r) && current != Some(r)
  {
    if current == Some(SlotA) then SlotB else SlotA
  }

  predicate Journalled(journal: Option<Journal>, r: Reference) {
    journal.Some? && r in journal.value.references + journal.value.retire
  }

  // ---- Properties of a state. ----

  /** The published reference has its secret. */
  predicate PublishedIsStored(config: ConfigFile, secrets: map<Reference, Secret>) {
    Published(config).Some? ==> Published(config).value in secrets
  }

  /** Every stored slot is published or can be found through the journal. */
  predicate SlotsAccounted(config: ConfigFile, secrets: map<Reference, Secret>, journal: Option<Journal>) {
    config.Unparsable?
    || forall r :: r in secrets && IsSlot(r) ==> Published(config) == Some(r) || Journalled(journal, r)
  }

  /** The password this state amounts to. */
  function Effective(config: ConfigFile, secrets: map<Reference, Secret>): Option<Secret> {
    if !config.Parsed? then None
    else if config.cleartext.Some? then config.cleartext
    else if config.reference.Some? && config.reference.value in secrets then Some(secrets[config.reference.value])
    else None
  }

  /** The password a request asks for. */
  function Wanted(request: Request, secrets: map<Reference, Secret>): Option<Secret> {
    match request
    case Set(secret, _) => Some(secret)
    case Retain(r) => if r in secrets then Some(secrets[r]) else None
    case Clear => None
  }

  /** The request names nothing as its password that the store does not hold. A retained reference
      that is not the published one is adopted unchecked, so it has to be stored and to outlive the
      reconciliation that every save begins with. */
  predicate Backed(request: Request, config: ConfigFile, secrets: map<Reference, Secret>, journal: Option<Journal>) {
    request.Retain? && Published(config).None? ==>
      request.reference in secrets && !Journalled(journal, request.reference)
  }

  /** A journal names something, only well-formed references, and none of them twice. */
  predicate JournalValid(journal: Journal) {
    && journal.references + journal.retire != {} && journal.references * journal.retire == {}
    && forall r :: r in journal.references + journal.retire ==> !r.Invalid?
  }

  /** There is no journal that reconciliation would refuse. */
  predicate Clean(journal: Option<Journal>) {
    journal.Some? ==> JournalValid(journal.value)
  }

  /** A save that nothing happens to succeeds exactly on these requests. The reference that a new
      password is compared with has to be in the store: once an unstored reference is published, every
      `Set` is refused. */
  predicate Accepts(request: Request, config: ConfigFile, secrets: map<Reference, Secret>, journal: Option<Journal>) {
    && !config.Unparsable?
    && (journal.Some? ==>
          var references, retire := journal.value.references, journal.value.retire;
          && references + retire != {} && references * retire == {}
          && forall r :: r in references + retire ==> !r.Invalid?)
    && match request
       case Set(_, hint) =>
         var candidate := if Published(config).Some? then Published(config) else hint;
         candidate.Some? ==>
           && !candidate.value.Invalid? && candidate.value in secrets
           && (Published(config) == candidate || !Journalled(journal, candidate.value))
       case Retain(r) => Published(config).None? || Published(config) == Some(r)
       case Clear => Published(config).Some? ==> !Published(config).value.Invalid?
  }

  /** A cleartext password and a reference that cannot stand for it. */
  predicate Ambiguous(config: ConfigFile, secrets: map<Reference, Secret>) {
    && config.Parsed? && config.cleartext.Some? && config.reference.Some?
    && (config.reference.value.Invalid?
        || (config.reference.value in secrets && secrets[config.reference.value] != config.cleartext.value))
  }

  /** Everything that outlives a process. */
  datatype State = State(config: ConfigFile, secrets: map<Reference, Secret>, journal: Option<Journal>)

  predicate Accounted(s: State) { SlotsAccounted(s.config, s.secrets, s.journal) }

  // ---- What the requests come to. ----

  /** What reconciliation leaves in the store: everything but what the journal lists and the file does
      not publish. */
  function Kept(published: Option<Reference>, secrets: map<Reference, Secret>, journal: Option<Journal>)
    : map<Reference, Secret>
  {
    map r | r in secrets
            && (published == Some(r) || journal.None? || r !in journal.value.references + journal.value.retire)
      :: secrets[r]
  }

  function KeptBy(s: State): map<Reference, Secret> { Kept(Published(s.config), s.secrets, s.journal) }

  /** The reference that a new password is compared with: the published one, else the hint. */
  function Candidate(s: State, hint: Option<Reference>): Option<Reference> {
    if s.config.Parsed? && s.config.reference.Some? then s.config.reference else hint
  }

  /** The candidate already holds the password. */
  predicate Reusable(s: State, secret: Secret, hint: Option<Reference>) {
    Candidate(s, hint).Some? && Candidate(s, hint).value in KeptBy(s) && KeptBy(s)[Candidate(s, hint).value] == secret
  }

  /** The reference that publishes a new password: one that already holds it, else the slot that is not
      published now. */
  function ReferenceFor(s: State, secret: Secret, hint: Option<Reference>): Reference {
    if Reusable(s, secret, hint) then Candidate(s, hint).value
    else if s.config.Parsed? && s.config.reference == Some(SlotA) then SlotB
    else SlotA
  }

  /** What a request makes of the configuration file. */
  function Requested(s: State, request: Request): ConfigFile {
    match request
    case Set(secret, hint) => Parsed(Some(ReferenceFor(s, secret, hint)), None)
    case Retain(r) => Parsed(Some(r), None)
    case Clear => Parsed(None, None)
  }

  /** The state that a save leaves to which nothing happens: without a journal, the store as
      reconciliation left it, with a new password in the new slot, and without a reference that is no
      longer published. */
  function SavedAs(s: State, request: Request): State {
    var kept := KeptBy(s);
    var published := AsSet(Published(s.config));
    match request
    case Set(secret, hint) =>
      var r := ReferenceFor(s, secret, hint);
      State(Requested(s, request), if Reusable(s, secret, hint) then kept else kept[r := secret] - published, None)
    case Retain(r) => State(Requested(s, request), kept, None)
    case Clear => State(Requested(s, request), kept - published, None)
  }

  /** The state that a load leaves to which nothing happens: reconciled, unless its journal is refused,
      and with a cleartext password moved to the published reference or else to the first slot. */
  function LoadedAs(s: State): State {
    if !Clean(s.journal) then s else MigratedState(s.(secrets := KeptBy(s), journal := None))
  }

  function MigratedState(s: State): State {
    if s.config.Parsed? && s.config.cleartext.Some? then
      var r := if s.config.reference.Some? then s.config.reference.value else SlotA;
      State(Parsed(Some(r), None), s.secrets[r := s.config.cleartext.value], None)
    else s
  }

  /** Setting the password that is in force writes nothing to the store and publishes what was published;
      a new password is published by another reference, and the one before is revoked. */
  lemma PasswordsRotateOnlyWhenTheyChange(s: State, secret: Secret, hint: Option<Reference>)
    requires s.config.Parsed? && s.config.reference.Some? && s.config.reference.value in s.secrets
    ensures var after, r := SavedAs(s, Set(secret, hint)), s.config.reference.value;
            if s.secrets[r] == secret then
              && after.config == Parsed(Some(r), None) && after.journal.None?
              && forall q :: q in after.secrets <==>
                   && q in s.secrets
                   && (q == r || s.journal.None? || q !in s.journal.value.references + s.journal.value.retire)
            else
              && after.config.Parsed? && after.config.reference.Some? && after.config.reference != s.config.reference
              && after.config.reference.value in after.secrets && after.secrets[after.config.reference.value] == secret
              && r !in after.secrets
  {}

  /** A hint that holds the password is published as it is. */
  lemma HintsAreAdopted(s: State, secret: Secret, hint: Reference)
    requires (s.config.Missing? || (s.config.Parsed? && s.config.reference.None?)) && s.journal.None?
    requires hint in s.secrets && s.secrets[hint] == secret
    ensures SavedAs(s, Set(secret, Some(hint))) == State(Parsed(Some(hint), None), s.secrets, None)
  {
    assert KeptBy(s) == s.secrets;
  }

  /** Asking for the same password again changes nothing. */
  lemma SettingAgainChangesNothing(s: State, secret: Secret, hint: Option<Reference>, again: Option<Reference>)
    requires !s.config.Unparsable?
    ensures var once := SavedAs(s, Set(secret, hint));
            SavedAs(once, Set(secret, again)) == once
  {
    var once := SavedAs(s, Set(secret, hint));
    assert KeptBy(once) == once.secrets;
    assert Reusable(once, secret, again);
  }

  /** What the transaction of a new password leaves, once its journal is reconciled. */
  lemma NewPasswordIsSaved(s: State, secret: Secret, hint: Option<Reference>, minted: bool)
    requires s.journal.None? && !s.config.Unparsable? && (minted <==> !Reusable(s, secret, hint))
    ensures Requested(s, Set(secret, hint)) == Parsed(Some(ReferenceFor(s, secret, hint)), None)
    ensures var r := ReferenceFor(s, secret, hint);
            var published := Published(s.config);
            SavedAs(s, Set(secret, hint)) ==
              State(Parsed(Some(r), None),
                    if minted then Kept(Some(r), s.secrets[r := secret], Some(Journal({r}, AsSet(published))))
                    else Kept(Some(r), s.secrets, None),
                    None)
  {
    var r := ReferenceFor(s, secret, hint);
    var published := Published(s.config);
    KeptWithoutJournal(published, s.secrets);
    KeptWithoutJournal(Some(r), s.secrets);
    if minted {
      assert Kept(Some(r), s.secrets[r := secret], Some(Journal({r}, AsSet(published))))
             == s.secrets[r := secret] - AsSet(published);
    }
  }

  lemma MigratedSecretIsKept(secrets: map<Reference, Secret>)
    ensures Kept(Some(SlotA), secrets, Some(Journal({SlotA}, {}))) == secrets
  {}

  lemma KeptWithoutJournal(published: Option<Reference>, secrets: map<Reference, Secret>)
    ensures Kept(published, secrets, None) == secrets
  {}

  /** The request is published as it was asked. */
  predicate PublishedAsAsked(s: State, request: Request, config: ConfigFile) {
    config == Requested(s, request)
  }

  /** What a save may do. Wherever it fails or dies, the password is the old one or the requested one,
      the live slot is untouched and every stored slot is accounted for. The published reference is
      stored unless a reference was adopted that is not backed, and then it is not. */
  predicate Saves(s: State, request: Request, after: State, result: SaveResult) {
    var backed := Backed(request, s.config, s.secrets, s.journal);
    && Accounted(after)
    && (backed ==>
          Effective(after.config, after.secrets) in {Effective(s.config, s.secrets), Wanted(request, s.secrets)})
    && (backed && !result.SaveFailed? ==>
          after.config.Parsed? && Effective(after.config, after.secrets) == Wanted(request, s.secrets))
    && (!result.SaveFailed? ==> PublishedAsAsked(s, request, after.config))
    && (after.config == s.config || after.config == Requested(s, request))
    && (PublishedIsStored(s.config, s.secrets) && backed ==> PublishedIsStored(after.config, after.secrets))
    && (!backed && !result.SaveFailed? ==> !PublishedIsStored(after.config, after.secrets))
    && LiveSecretKept(s.config, s.secrets, after.config, after.secrets)
    && (result.Saved? ==> Reconciled(after.config, after.secrets, after.journal))
    && (s.config.Unparsable? ==> result.SaveFailed? && after == s)
    && (request.Retain? && Published(s.config).Some? && Published(s.config) != Some(request.reference) ==>
          result.SaveFailed? && Effective(after.config, after.secrets) == Effective(s.config, s.secrets))
  }

  /** What a load may do: the password stays the same and reachable. */
  predicate Loads(s: State, after: State) {
    && Accounted(after)
    && Effective(after.config, after.secrets) == Effective(s.config, s.secrets)
    && (PublishedIsStored(s.config, s.secrets) ==> PublishedIsStored(after.config, after.secrets))
    && LiveSecretKept(s.config, s.secrets, after.config, after.secrets)
    && (after.config == s.config
        || (after.config.Parsed? && after.config.reference.Some? && after.config.cleartext.None?))
  }

  /** The reference that a migration publishes. */
  function OwnReference(reference: Option<Reference>): Reference {
    if reference.Some? then reference.value else SlotA
  }

  /** Exactly the published slot is left in the store, and no journal. */
  predicate Reconciled(config: ConfigFile, secrets: map<Reference, Secret>, journal: Option<Journal>) {
    journal.None? && forall r :: r in secrets && IsSlot(r) ==> Published(config) == Some(r)
  }

  /** What reconciliation may do to the store: it deletes only what the journal lists and the file does
      not publish, and drops the journal only when all of that is gone. */
  predicate Reconciles(s: State, after: State) {
    && after.config == s.config
    && after.secrets.Keys <= s.secrets.Keys && (forall r :: r in after.secrets ==> after.secrets[r] == s.secrets[r])
    && (forall r :: r in s.secrets && (Published(s.config) == Some(r) || !Journalled(s.journal, r)) ==>
         r in after.secrets)
    && (after.journal == s.journal
        || (after.journal.None?
            && forall r :: Journalled(s.journal, r) && Published(s.config) != Some(r) ==> r !in after.secrets))
  }

  lemma ReconcilingSaves(s: State, after: State, request: Request)
    requires Accounted(s) && !s.config.Unparsable? && Reconciles(s, after)
    ensures Saves(s, request, after, SaveFailed)
  {}

  lemma ReconcilingKeeps(s: State, after: State)
    requires Reconciles(s, after) && after.journal.None?
    ensures after.secrets == KeptBy(s) && KeptBy(after) == after.secrets
    ensures Published(after.config) == Published(s.config)
  {}

  /** A save of what reconciliation left is a save of what was there before. */
  lemma ReconciledThenSaved(s: State, mid: State, request: Request, after: State, result: SaveResult)
    requires !s.config.Unparsable? && Reconciles(s, mid) && mid.journal.None?
    requires Saves(mid, request, after, result)
    ensures Saves(s, request, after, result)
    ensures Clean(s.journal) ==>
              (Accepts(request, mid.config, mid.secrets, None) <==> Accepts(request, s.config, s.secrets, s.journal))
    ensures SavedAs(mid, request) == SavedAs(s, request)
  {
    ReconcilingKeeps(s, mid);
    assert Backed(request, s.config, s.secrets, s.journal) <==> Backed(request, mid.config, mid.secrets, None);
  }

  lemma ReconcilingLoads(s: State, after: State)
    requires Accounted(s) && !s.config.Unparsable? && Reconciles(s, after)
    ensures Loads(s, after)
    ensures Clean(s.journal) && after.journal.None? && (s.config.Missing? || s.config.cleartext.None?) ==>
              after == LoadedAs(s)
  {
    if after.journal.None? {
      ReconcilingKeeps(s, after);
    }
  }

  lemma ReconciledThenLoaded(s: State, mid: State, after: State)
    requires !s.config.Unparsable? && Reconciles(s, mid) && mid.journal.None? && Loads(mid, after)
    ensures Loads(s, after)
    ensures Clean(s.journal) ==> MigratedState(mid) == LoadedAs(s)
    ensures Ambiguous(mid.config, mid.secrets) <==> Ambiguous(s.config, s.secrets)
  {
    ReconcilingKeeps(s, mid);
  }

  class ConfigStore {
    var config: ConfigFile
    var secrets: map<Reference, Secret>
    var journal: Option<Journal>
    var script: seq<Fate>
    var dead: bool

    constructor (config: ConfigFile, secrets: map<Reference, Secret>, journal: Option<Journal>)
      ensures this.config == config && this.secrets == secrets && this.journal == journal && !dead && script == []
    {
      this.config, this.secrets, this.journal, this.script, this.dead := config, secrets, journal, [], false;
    }

    /** Nothing will go wrong in this process. */
    ghost predicate Untroubled()
      reads this`script, this`dead
    {
      script == [] && !dead
    }

    function Now(): State
      reads this
    {
      State(config, secrets, journal)
    }

    // ---- Single calls. ----

    /** Take the next fate: does the call have its effect, and how does it end? A dead process has no
        effect any more. */
    method Next() returns (effect: bool, call: Call)
      modifies this`script, this`dead
      ensures old(dead) ==> dead && !effect && !call.Done?
      ensures call.Done? ==> effect && !dead
      ensures old(Untroubled()) ==> call.Done? && Untroubled()
    {
      if dead {
        return false, Failed;
      }
      if script == [] {
        return true, Done;
      }
      var fate := script[0];
      script := script[1..];
      match fate
      case Proceed => return true, Done;
      case Unavailable => return false, Unreachable;
      case Fault => return false, Failed;
      case LateFault => return true, Failed;
      case HaltBefore => dead := true; return false, Failed;
      case HaltAfter => dead := true; return true, Failed;
    }

    method SetSecret(r: Reference, secret: Secret) returns (call: Call)
      modifies this`secrets, this`script, this`dead
      ensures secrets == old(secrets) || secrets == old(secrets)[r := secret]
      ensures call.Done? ==> secrets == old(secrets)[r := secret] && !dead
      ensures r.Invalid? ==> call.Failed? && secrets == old(secrets)
      ensures old(dead) ==> dead && secrets == old(secrets)
      ensures old(Untroubled()) ==> Untroubled() && (call.Done? <==> !r.Invalid?)
    {
      if r.Invalid? {
        return Failed;
      }
      var effect;
      effect, call := Next();
      if effect {
        secrets := secrets[r := secret];
      }
    }

    method GetSecret(r: Reference) returns (fetch: Fetch)
      modifies this`script, this`dead
      ensures fetch.Found? ==> r in secrets && secrets[r] == fetch.secret && !dead
      ensures fetch.NotFound? ==> r !in secrets && !dead
      ensures old(dead) ==> dead
      ensures old(Untroubled()) ==>
                && Untroubled()
                && fetch == if r.Invalid? then FetchFailed else if r in secrets then Found(secrets[r]) else NotFound
    {
      if r.Invalid? {
        return FetchFailed;
      }
      var effect, call := Next();
      match call
      case Done => return if r in secrets then Found(secrets[r]) else NotFound;
      case Failed => return FetchFailed;
      case Unreachable => return FetchUnreachable;
    }

    /** All references are checked before the first is deleted; missing ones are no error. */
    method DeleteSecrets(references: set<Reference>) returns (call: Call)
      modifies this`secrets, this`script, this`dead
      ensures secrets.Keys <= old(secrets).Keys
      ensures forall r :: r in secrets ==> secrets[r] == old(secrets)[r]
      ensures forall r :: r in old(secrets) && r !in references ==> r in secrets
      ensures call.Done? ==> forall r :: r in references ==> r !in secrets
      ensures old(dead) ==> dead && secrets == old(secrets)
      ensures old(Untroubled()) ==> Untroubled() && (call.Done? <==> forall r :: r in references ==> !r.Invalid?)
    {
      if exists r :: r in references && r.Invalid? {
        return Failed;
      }
      var todo := references;
      while todo != {}
        invariant todo <= references
        invariant secrets.Keys <= old(secrets).Keys
        invariant forall r :: r in secrets ==> secrets[r] == old(secrets)[r]
        invariant forall r :: r in old(secrets) && r !in references ==> r in secrets
        invariant forall r :: r in references - todo ==> r !in secrets
        invariant old(dead) ==> dead && secrets == old(secrets)
        invariant old(Untroubled()) ==> Untroubled()
        decreases |todo|
      {
        var r :| r in todo;
        var effect;
        effect, call := Next();
        if effect {
          secrets := secrets - {r};
        }
        if !call.Done? {
          return;
        }
        todo := todo - {r};
      }
      call := Done;
    }

    method BeginPublication(references: set<Reference>, retire: set<Reference>) returns (ok: bool)
      modifies this`journal, this`script, this`dead
      ensures journal == old(journal) || (old(journal).None? && journal == Some(Journal(references, retire)))
      ensures ok ==> old(journal).None? && journal == Some(Journal(references, retire)) && !dead
      ensures ok ==> JournalValid(Journal(references, retire))
      ensures old(dead) ==> dead && journal == old(journal)
      ensures old(Untroubled()) ==>
                && Untroubled() && (ok <==> old(journal).None? && JournalValid(Journal(references, retire)))
                && (!ok ==> journal == old(journal))
    {
      if !JournalValid(Journal(references, retire)) || journal.Some? {
        return false;
      }
      var effect, call := Next();
      if effect {
        journal := Some(Journal(references, retire));
      }
      ok := call.Done?;
    }

    method RemoveJournal() returns (call: Call)
      modifies this`journal, this`script, this`dead
      ensures journal == old(journal) || journal.None?
      ensures call.Done? ==> journal.None? && !dead
      ensures !call.Unreachable?
      ensures old(dead) ==> dead && journal == old(journal)
      ensures old(Untroubled()) ==> call.Done? && Untroubled()
    {
      var effect;
      effect, call := Next();
      if effect {
        journal := None;
      }
      if call.Unreachable? {
        call := Failed;
      }
    }

    /** Revoke what the journal lists and the file does not publish, then drop the journal. Untroubled,
        this fails only on a journal that is not valid. */
    method Reconcile(published: Option<Reference>) returns (call: Call)
      modifies this`secrets, this`journal, this`script, this`dead
      ensures secrets.Keys <= old(secrets).Keys
      ensures forall r :: r in secrets ==> secrets[r] == old(secrets)[r]
      ensures forall r :: r in old(secrets) && (published == Some(r) || !Journalled(old(journal), r)) ==> r in secrets
      ensures journal == old(journal)
              || (journal.None? && forall r :: Journalled(old(journal), r) && published != Some(r) ==> r !in secrets)
      ensures call.Done? ==> journal.None? && (dead ==> old(dead))
      ensures old(journal).None? ==> call.Done? && secrets == old(secrets) && dead == old(dead) && script == old(script)
      ensures old(dead) ==> dead && journal == old(journal) && secrets == old(secrets)
      ensures !Clean(old(journal)) ==> call.Failed? && journal == old(journal) && secrets == old(secrets)
      ensures old(Untroubled()) ==> Untroubled() && (call.Done? <==> Clean(old(journal)))
      ensures call.Done? ==> secrets == Kept(published, old(secrets), old(journal))
    {
      KeptWithoutJournal(published, secrets);
      if journal.None? {
        return Done;
      }
      if !JournalValid(journal.value) {
        return Failed;
      }
      call := DeleteSecrets(journal.value.references + journal.value.retire - AsSet(published));
      if call.Done? {
        call := RemoveJournal();
      }
    }

    /** Revoke new references and drop the journal. */
    method Abort(references: set<Reference>)
      modifies this`secrets, this`journal, this`script, this`dead
      ensures secrets.Keys <= old(secrets).Keys
      ensures forall r :: r in secrets ==> secrets[r] == old(secrets)[r]
      ensures forall r :: r in old(secrets) && r !in references ==> r in secrets
      ensures journal == old(journal) || (journal.None? && forall r :: r in references ==> r !in secrets)
      ensures old(dead) ==> dead && journal == old(journal) && secrets == old(secrets)
    {
      var call := DeleteSecrets(references);
      if call.Done? {
        var _ := RemoveJournal();
      }
    }

    method PublishConfig(file: ConfigFile) returns (publication: Publication)
      modifies this`config, this`script, this`dead
      ensures config == old(config) || config == file
      ensures !publication.NotPublished? ==> config == file
      ensures publication.NotPublished? && !dead ==> config == old(config)
      ensures publication.Durable? ==> !dead
      ensures old(Untroubled()) ==> publication.Durable? && Untroubled()
      ensures old(dead) ==> dead && config == old(config)
    {
      var effect, call := Next();
      if effect {
        config := file;
      }
      publication := if call.Done? then Durable else if effect && !dead then Unconfirmed else NotPublished;
    }

    // ---- Saving. ----

    /** The reference to publish for `secret`: one that already holds it, or the slot that is not live
        after storing it there under a journal. */
    method PrepareSecret(secret: Secret, hint: Option<Reference>, published: Option<Reference>)
      returns (ok: bool, reference: Reference, minted: bool)
      requires published == Published(config) && journal.None? && SlotsAccounted(config, secrets, journal)
      requires !config.Unparsable?
      modifies this`secrets, this`journal, this`script, this`dead
      ensures SlotsAccounted(config, secrets, journal)
      ensures forall r :: r != NextSlot(published) ==>
                (r in secrets <==> r in old(secrets)) && (r in secrets ==> secrets[r] == old(secrets)[r])
      ensures ok ==> reference in secrets && secrets[reference] == secret && !dead
      ensures ok ==> reference == ReferenceFor(old(Now()), secret, hint)
      ensures ok ==> (minted <==> !Reusable(old(Now()), secret, hint))
      ensures ok && !minted ==>
                secrets == old(secrets) && journal.None? && (published.Some? ==> reference == published.value)
      ensures ok && minted ==>
                && reference == NextSlot(published) && secrets == old(secrets)[reference := secret]
                && journal == Some(Journal({reference}, AsSet(published))) && JournalValid(journal.value)
      ensures old(Untroubled()) ==>
                && Untroubled()
                && (ok <==> var candidate := if published.Some? then published else hint;
                            candidate.Some? ==> !candidate.value.Invalid? && candidate.value in old(secrets))
                && (!ok ==> secrets == old(secrets) && journal.None?)
    {
      KeptWithoutJournal(published, secrets);
      minted := false;
      reference := NextSlot(published);
      var candidate := if published.Some? then published else hint;
      if candidate.Some? {
        var fetch := GetSecret(candidate.value);
        if !fetch.Found? {
          return false, reference, false;
        }
        if fetch.secret == secret {
          return true, candidate.value, false;
        }
      }
      ok := BeginPublication({reference}, AsSet(published));
      if !ok {
        return;
      }
      var call := SetSecret(reference, secret);
      if !call.Done? {
        Abort({reference});
        return false, reference, false;
      }
      minted := true;
    }

    /** Publish the file and finish or undo the transaction that is pending. */
    method Commit(published: Option<Reference>, desired: Option<Reference>, minted: bool, pending: bool)
      returns (result: SaveResult)
      requires published == Published(config) && !config.Unparsable? && !dead
      requires SlotsAccounted(config, secrets, journal) && SlotsAccounted(Parsed(desired, None), secrets, journal)
      requires minted ==> pending && desired.Some? && desired != published
      requires pending ==> journal == Some(Journal(if minted then AsSet(desired) else {}, AsSet(published)))
      requires pending ==> JournalValid(journal.value)
      requires !pending ==> journal.None?
      modifies this
      ensures SlotsAccounted(config, secrets, journal)
      ensures config == old(config) || config == Parsed(desired, None)
      ensures Published(config).Some? && Published(config).value in old(secrets) ==>
                && Published(config).value in secrets
                && secrets[Published(config).value] == old(secrets)[Published(config).value]
      ensures Published(config).Some? && Published(config).value !in old(secrets) ==>
                Published(config).value !in secrets
      ensures !result.SaveFailed? ==> config == Parsed(desired, None)
      ensures old(Untroubled()) ==> result.Saved?
      ensures result.Saved? ==> journal.None? && forall r :: r in secrets && IsSlot(r) ==> desired == Some(r)
      ensures result.Saved? ==> secrets == Kept(desired, old(secrets), old(journal))
    {
      KeptWithoutJournal(desired, secrets);
      var publication := PublishConfig(Parsed(desired, None));
      if publication.Durable? {
        if !pending {
          return Saved;
        }
        var call := Reconcile(desired);
        return match call case Done => Saved case Unreachable => SavedCleanupDeferred case Failed => SaveFailed;
      }
      if publication.Unconfirmed? {
        return SavedUnconfirmed;
      }
      if minted {
        Abort(AsSet(desired));
      } else if pending {
        var _ := Reconcile(published);
      }
      result := SaveFailed;
    }

    method SaveNew(secret: Secret, hint: Option<Reference>) returns (result: SaveResult)
      requires Accounted(Now()) && journal.None? && !config.Unparsable? && !dead
      modifies this
      ensures Saves(old(Now()), Set(secret, hint), Now(), result)
      ensures old(Untroubled()) ==>
                result == if Accepts(Set(secret, hint), old(config), old(secrets), None) then Saved else SaveFailed
      ensures result.Saved? ==> Now() == SavedAs(old(Now()), Set(secret, hint))
      ensures old(Untroubled()) && result.SaveFailed? ==> Now() == old(Now())
    {
      hide SavedAs, Kept, KeptBy, Reusable, ReferenceFor, Requested;
      ghost var before := Now();
      var published := Published(config);
      var ok, reference, minted := PrepareSecret(secret, hint, published);
      if !ok {
        return SaveFailed;
      }
      NewPasswordIsSaved(before, secret, hint, minted);
      result := Commit(published, Some(reference), minted, minted);
    }

    method SaveRetained(reference: Reference) returns (result: SaveResult)
      requires Accounted(Now()) && journal.None? && !config.Unparsable? && !dead
      modifies this
      ensures Saves(old(Now()), Retain(reference), Now(), result)
      ensures old(Untroubled()) ==>
                result == if Accepts(Retain(reference), old(config), old(secrets), None) then Saved else SaveFailed
      ensures result.Saved? ==> Now() == SavedAs(old(Now()), Retain(reference))
      ensures old(Untroubled()) && result.SaveFailed? ==> Now() == old(Now())
    {
      var published := Published(config);
      if published.Some? && published.value != reference {
        return SaveFailed;
      }
      result := Commit(published, Some(reference), false, false);
    }

    method SaveCleared() returns (result: SaveResult)
      requires Accounted(Now()) && journal.None? && !config.Unparsable? && !dead
      modifies this
      ensures Saves(old(Now()), Clear, Now(), result)
      ensures old(Untroubled()) ==>
                result == if Accepts(Clear, old(config), old(secrets), None) then Saved else SaveFailed
      ensures result.Saved? ==> Now() == SavedAs(old(Now()), Clear)
      ensures old(Untroubled()) && result.SaveFailed? ==> Now() == old(Now())
    {
      var published := Published(config);
      if published.Some? {
        var ok := BeginPublication({}, AsSet(published));
        if !ok {
          return SaveFailed;
        }
      }
      result := Commit(published, None, false, published.Some?);
    }

    /** Save a configuration. Untroubled, a request that is refused changes nothing but what reconciliation
        clears away. */
    method Save(request: Request) returns (result: SaveResult)
      requires Accounted(Now())
      modifies this
      ensures Saves(old(Now()), request, Now(), result)
      ensures old(Untroubled()) ==>
                result == if Accepts(request, old(config), old(secrets), old(journal)) then Saved else SaveFailed
      ensures result.Saved? ==> Now() == SavedAs(old(Now()), request)
      ensures old(Untroubled()) && result.SaveFailed? ==> Reconciles(old(Now()), Now())
    {
      ghost var before := Now();
      var effect, call := Next();
      if !call.Done? || config.Unparsable? {
        return SaveFailed;
      }
      call := Reconcile(Published(config));
      ghost var halfway := Now();
      ReconcilingSaves(before, halfway, request);
      if !call.Done? {
        return SaveFailed;
      }
      match request {
        case Set(secret, hint) => result := SaveNew(secret, hint);
        case Retain(reference) => result := SaveRetained(reference);
        case Clear => result := SaveCleared();
      }
      ReconciledThenSaved(before, halfway, request, Now(), result);
    }

    // ---- Loading. ----

    /** The reference to migrate a cleartext password to, with `pending` when a transaction was begun.
        `Err(true)` keeps the cleartext and loads; `Err(false)` fails. */
    method MigrationReference(cleartext: Secret) returns (r: Result<Reference, bool>, pending: bool)
      requires config.Parsed? && config.cleartext == Some(cleartext) && journal.None?
      requires SlotsAccounted(config, secrets, journal)
      modifies this`secrets, this`journal, this`script, this`dead
      ensures SlotsAccounted(config, secrets, journal)
      ensures LiveSecretKept(config, old(secrets), config, secrets)
      ensures PublishedIsStored(config, old(secrets)) ==> PublishedIsStored(config, secrets)
      ensures r.Ok? ==> secrets == old(secrets)[r.value := cleartext] && !dead
      ensures r.Ok? && pending ==> config.reference.None? && r.value == SlotA && journal == Some(Journal({SlotA}, {}))
      ensures r.Ok? && !pending ==> config.reference == Some(r.value) && journal.None?
      ensures r.Ok? && pending ==> JournalValid(journal.value)
      ensures old(Untroubled()) ==>
                && Untroubled()
                && if Ambiguous(config, old(secrets)) then r == Err(false) else r == Ok(OwnReference(config.reference))
    {
      pending := false;
      if config.reference.Some? {
        var fetch := GetSecret(config.reference.value);
        match fetch {
          case Found(stored) =>
            r := if stored == cleartext then Ok(config.reference.value) else Err(false);
          case FetchUnreachable => r := Err(true);
          case FetchFailed => r := Err(false);
          case NotFound =>
            var call := SetSecret(config.reference.value, cleartext);
            r := if call.Done? then Ok(config.reference.value) else Err(call.Unreachable?);
        }
        return;
      }
      var reference := NextSlot(None);
      var ok := BeginPublication({reference}, {});
      if !ok {
        return Err(false), false;
      }
      var call := SetSecret(reference, cleartext);
      if !call.Done? {
        Abort({reference});
        return Err(call.Unreachable?), false;
      }
      r, pending := Ok(reference), true;
    }

    /** Move the cleartext password to the secret store. */
    method Migrate() returns (ok: bool)
      requires Accounted(Now()) && config.Parsed? && config.cleartext.Some? && journal.None?
      modifies this
      ensures Loads(old(Now()), Now())
      ensures old(Untroubled()) ==>
                && (ok <==> !Ambiguous(old(config), old(secrets)))
                && (ok ==> Now() == MigratedState(old(Now())))
    {
      hide Kept;
      var r, pending := MigrationReference(config.cleartext.value);
      if r.Err? {
        return r.error;
      }
      var effect, call := Next();
      if !call.Done? {
        if pending {
          Abort({r.value});
        }
        return false;
      }
      var publication := PublishConfig(Parsed(Some(r.value), None));
      if publication.Durable? && pending {
        ghost var stored := secrets;
        call := Reconcile(Some(r.value));
        MigratedSecretIsKept(stored);
        return call.Done?;
      }
      if publication.NotPublished? && pending {
        Abort({r.value});
      }
      ok := publication.Durable?;
    }

    /** Load the configuration, moving a cleartext password to the secret store. Untroubled, the load
        fails only on a file that does not parse or contradicts itself, and leaves no cleartext. */
    method Load() returns (ok: bool)
      requires Accounted(Now())
      modifies this
      ensures Loads(old(Now()), Now())
      ensures old(Untroubled()) ==>
                && (ok <==> !old(config).Unparsable? && (Clean(old(journal)) ==> !Ambiguous(old(config), old(secrets))))
                && (ok ==> Now() == LoadedAs(old(Now())))
    {
      hide KeptBy, Kept, MigratedState;
      ghost var before := Now();
      var effect, call := Next();
      if !call.Done? || config.Unparsable? {
        return false;
      }
      call := Reconcile(Published(config));
      ghost var halfway := Now();
      ReconcilingLoads(before, halfway);
      if config.Missing? || config.cleartext.None? || journal.Some? {
        return true;
      }
      ok := Migrate();
      ReconciledThenLoaded(before, halfway, Now());
    }
  }

  /** A reference that stays published keeps its secret. */
  predicate LiveSecretKept(config: ConfigFile, secrets: map<Reference, Secret>,
                           after: ConfigFile, secretsAfter: map<Reference, Secret>) {
    Published(config).Some? && Published(after) == Published(config) && Published(config).value in secrets ==>
      && Published(config).value in secretsAfter
      && secretsAfter[Published(config).value] == secrets[Published(config).value]
  }

  // ---- Runs. ----

  /** One session: it runs by its script and may die anywhere in it. */
  datatype Session = Saving(request: Request, script: seq<Fate>) | Loading(script: seq<Fate>)

  /** What each session does, and what it achieves if nothing happens to it. */
  ghost predicate Follows(s: State, session: Session, after: State) {
    match session
    case Saving(request, script) =>
      exists result ::
        && Saves(s, request, after, result)
        && (script == [] ==>
              && result == (if Accepts(request, s.config, s.secrets, s.journal) then Saved else SaveFailed)
              && (if result.Saved? then after == SavedAs(s, request) else Reconciles(s, after)))
    case Loading(script) =>
      && Loads(s, after)
      && (script == [] && !s.config.Unparsable? && !Ambiguous(s.config, s.secrets) ==> after == LoadedAs(s))
  }

  predicate AdoptsNothingUnbacked(session: Session, s: State) {
    session.Saving? ==> Backed(session.request, s.config, s.secrets, s.journal)
  }

  /** No save up to `k` adopted a reference that is not backed. */
  predicate AllBacked(states: seq<State>, sessions: seq<Session>, k: nat)
    requires k <= |sessions| < |states|
  {
    forall j :: 0 <= j < k ==> AdoptsNothingUnbacked(sessions[j], states[j])
  }

  predicate Stored(s: State) { PublishedIsStored(s.config, s.secrets) }

  /** One session, in a process of its own. */
  method RunSession(store: ConfigStore, session: Session)
    requires Accounted(store.Now())
    modifies store
    ensures Accounted(store.Now()) && Follows(old(store.Now()), session, store.Now())
    ensures Stored(old(store.Now())) && AdoptsNothingUnbacked(session, old(store.Now())) ==> Stored(store.Now())
  {
    ghost var before := store.Now();
    store.script, store.dead := session.script, false;
    assert store.Now() == before;
    match session {
      case Saving(request, _) =>
        var result := store.Save(request);
        assert Saves(before, request, store.Now(), result);
      case Loading(_) =>
        var _ := store.Load();
    }
  }

  /** The states of every run of saves and loads, with any failures and deaths: each follows from the
      one before by its session, every stored slot is accounted for in all of them, and the published
      reference is stored in each of them up to which no save adopted a reference that is not backed.
      Without a journal, nothing but the published slot is in the store. */
  method RunSessions(start: State, sessions: seq<Session>) returns (states: seq<State>)
    requires Accounted(start) && Stored(start)
    ensures |states| == |sessions| + 1 && states[0] == start
    ensures forall k :: 0 <= k < |sessions| ==> Follows(states[k], sessions[k], states[k + 1])
    ensures forall k :: 0 <= k <= |sessions| ==> Accounted(states[k])
    ensures forall k :: 0 <= k <= |sessions| && AllBacked(states, sessions, k) ==> Stored(states[k])
    ensures forall k :: 0 <= k <= |sessions| && states[k].journal.None? && !states[k].config.Unparsable? ==>
              Reconciled(states[k].config, states[k].secrets, states[k].journal)
  {
    var store := new ConfigStore(start.config, start.secrets, start.journal);
    states := [start];
    for k := 0 to |sessions|
      invariant fresh(store)
      invariant |states| == k + 1 && states[0] == start && states[k] == store.Now()
      invariant forall j :: 0 <= j < k ==> Follows(states[j], sessions[j], states[j + 1])
      invariant forall j :: 0 <= j <= k ==> Accounted(states[j])
      invariant forall j :: 0 <= j < k && Stored(states[j]) && AdoptsNothingUnbacked(sessions[j], states[j]) ==>
                  Stored(states[j + 1])
    {
      RunSession(store, sessions[k]);
      states := states + [store.Now()];
    }
    forall k | 0 <= k <= |sessions| && AllBacked(states, sessions, k)
      ensures Stored(states[k])
    {
      StoredWhileBacked(states, sessions, k);
    }
  }

  lemma StoredWhileBacked(states: seq<State>, sessions: seq<Session>, k: nat)
    requires k <= |sessions| < |states| && AllBacked(states, sessions, k)
    requires Stored(states[0])
    requires forall j :: 0 <= j < |sessions| && Stored(states[j]) && AdoptsNothingUnbacked(sessions[j], states[j]) ==>
               Stored(states[j + 1])
    ensures Stored(states[k])
  {
    if k > 0 {
      StoredWhileBacked(states, sessions, k - 1);
    }
  }

  /** Retaining a reference that is neither published nor stored publishes it all the same. From then on
      every new password is refused, and only clearing the old one gets out. */
  method AdoptingAnUnstoredReference(secret: Secret, hint: Option<Reference>)
    returns (adopted: State, refused: SaveResult, cleared: SaveResult, end: State)
    ensures Stored(State(Missing, map[], None)) && !Stored(adopted)
    ensures refused.SaveFailed? && cleared.Saved? && Published(end.config).None?
  {
    var store := new ConfigStore(Missing, map[], None);
    var result := store.Save(Retain(SlotA));
    adopted := store.Now();
    store.script, store.dead := [], false;
    assert store.Now() == adopted;
    refused := store.Save(Set(secret, hint));
    store.script, store.dead := [], false;
    cleared := store.Save(Clear);
    end := store.Now();
  }
}
