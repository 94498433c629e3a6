/** Interleaved runs of canonical writers with the one actor that maintains the projection.

    A writer's transaction stores a claim together with its claim event, or appends another event, in one
    step. The maintenance actor is an asynchronous program: it reads the log, reads its processed marks,
    reads claims one at a time in any order, and commits in one transaction; writers may step between any
    two of these, and the actor may fail anywhere. */
module ProjectionRuns {
  import opened Kernel
  import opened EntityIdentity
  import opened RetrievalProjection
  import Sorting

  datatype Actor =
    | Idle
    | ReadingMarks(snapshot: Log)
    | Rebuilding
    | ReadingClaims(snapshot: Log, pending: Log, rebuild: bool, wanted: set<ClaimId>, fetched: Fetched)

  datatype System = System(claims: Claims, log: Log, rows: Rows, processed: set<EventId>, actor: Actor)

  datatype Step =
    | WriteClaim(claim: Claim, event: DomainEvent)
    | AppendEvent(event: DomainEvent)
    | StartSync
    | ReadMarks
    | StartRebuild
    | ReadRebuildLog
    | ReadClaim(id: ClaimId)
    | Commit
    | Fail

  /** Writers keep the claim table and the log together and never reuse an event id. */
  ghost predicate Allowed(s: System, step: Step) {
    match step
    case WriteClaim(claim, event) =>
      IsClaimEvent(event) && event.claimId == claim.id && event.eventId !in IdsOf(s.log)
    case AppendEvent(event) => !IsClaimEvent(event) && event.eventId !in IdsOf(s.log)
    case _ => true
  }

  /** Where the actor stands after one of its own steps that leaves the tables alone. */
  function NextActor(s: System, step: Step): Actor {
    match step
    case StartSync => if s.actor.Idle? then ReadingMarks(s.log) else s.actor
    case ReadMarks =>
      if !s.actor.ReadingMarks? then s.actor
      else
        var pending := Pending(s.actor.snapshot, s.processed);
        if pending == [] then Idle
        else if exists e :: e in pending && IsIdentityEvent(e) then Rebuilding
        else ReadingClaims(s.actor.snapshot, pending, false, ClaimIds(pending), map[])
    case StartRebuild => if s.actor.Idle? then Rebuilding else s.actor
    case ReadRebuildLog =>
      if s.actor.Rebuilding? then ReadingClaims(s.log, RelevantEvents(s.log), true, ClaimIds(s.log), map[])
      else s.actor
    case ReadClaim(id) =>
      if s.actor.ReadingClaims? && id in s.actor.wanted - s.actor.fetched.Keys then
        s.actor.(fetched := s.actor.fetched[id := Lookup(s.claims, id)])
      else s.actor
    case Fail => Idle
    case _ => s.actor
  }

  /** The two transactions, once every wanted claim has been read. */
  function TakeCommit(s: System, embed: Embedder): System {
    if s.actor.ReadingClaims? && s.actor.fetched.Keys == s.actor.wanted then
      var redirects := ResolverRedirects(RelevantEvents(s.actor.snapshot));
      if s.actor.rebuild then
        s.(rows := RebuiltRows(s.actor.fetched, redirects, embed),
           processed := IdsOf(s.actor.pending),
           actor := Idle)
      else
        s.(rows := SyncedRows(s.rows, s.actor.fetched, redirects, embed),
           processed := s.processed + IdsOf(s.actor.pending),
           actor := Idle)
    else s
  }

  function Take(s: System, step: Step, embed: Embedder): System {
    match step
    case WriteClaim(claim, event) => s.(claims := s.claims[claim.id := claim], log := s.log + [event])
    case AppendEvent(event) => s.(log := s.log + [event])
    case Commit => TakeCommit(s, embed)
    case _ => s.(actor := NextActor(s, step))
  }

  function Start(): System {
    System(map[], [], map[], {}, Idle)
  }

  function Run(steps: seq<Step>, embed: Embedder): System {
    if steps == [] then Start() else Take(Run(steps[..|steps| - 1], embed), steps[|steps| - 1], embed)
  }

  ghost predicate AllowedRun(steps: seq<Step>, embed: Embedder) {
    steps == [] ||
    (AllowedRun(steps[..|steps| - 1], embed) &&
     Allowed(Run(steps[..|steps| - 1], embed), steps[|steps| - 1]))
  }

  // ----- coherence

  function Marked(processed: set<EventId>): DomainEvent -> bool {
    (e: DomainEvent) => e.eventId in processed
  }

  function ProcessedEvents(s: System): Log {
    Sorting.Filter(s.log, Marked(s.processed))
  }

  /** Every claim event of `c` has been processed. */
  ghost predicate Settled(s: System, c: ClaimId) {
    forall e :: e in s.log && IsClaimEvent(e) && e.claimId == c ==> e.eventId in s.processed
  }

  /** The row a claim's current version projects to through the redirects of the processed events. */
  function DueRow(s: System, c: ClaimId, embed: Embedder): Option<Row> {
    var current := Lookup(s.claims, c);
    if Active(current) then
      Some(Project(current.value, ResolverRedirects(RelevantEvents(ProcessedEvents(s))), embed))
    else None
  }

  ghost predicate Coherent(s: System, embed: Embedder) {
    forall c: ClaimId :: Settled(s, c) ==> Lookup(s.rows, c) == DueRow(s, c, embed)
  }

  /** A claim read by the actor is current unless an event after its snapshot touched the claim. */
  ghost predicate ReadFresh(s: System, c: ClaimId)
    requires s.actor.ReadingClaims? && c in s.actor.fetched
  {
    s.actor.fetched[c] == Lookup(s.claims, c) ||
    exists e :: e in s.log && IsClaimEvent(e) && e.claimId == c && e !in s.actor.snapshot
  }

  ghost predicate ActorSound(s: System) {
    match s.actor
    case Idle => true
    case Rebuilding => true
    case ReadingMarks(snapshot) => snapshot <= s.log && s.processed <= IdsOf(RelevantEvents(snapshot))
    case ReadingClaims(snapshot, pending, rebuild, wanted, fetched) =>
      && snapshot <= s.log
      && s.processed <= IdsOf(RelevantEvents(snapshot))
      && fetched.Keys <= wanted
      && (forall c :: c in fetched ==> ReadFresh(s, c))
      && (if rebuild then pending == RelevantEvents(snapshot) && wanted == ClaimIds(snapshot)
          else
            && pending == Pending(snapshot, s.processed) && wanted == ClaimIds(pending)
            && forall e :: e in pending ==> !IsIdentityEvent(e))
  }

  ghost predicate TablesSound(s: System) {
    && DistinctIds(s.log)
    && s.processed <= IdsOf(RelevantEvents(s.log))
    && s.claims.Keys <= ClaimIds(s.log)
    && forall c :: c in s.claims ==> s.claims[c].id == c
  }

  ghost predicate Inv(s: System, embed: Embedder) {
    TablesSound(s) && ActorSound(s) && Coherent(s, embed)
  }

  // ----- redirects of the processed events

  lemma IdsOfRelevant(log: Log, e: DomainEvent)
    requires DistinctIds(log) && e in log
    ensures e.eventId in IdsOf(RelevantEvents(log)) <==> IsRelevant(e)
  {
    RelevantMembers(log);
    if e.eventId in IdsOf(RelevantEvents(log)) {
      var f :| f in RelevantEvents(log) && f.eventId == e.eventId;
      var i :| 0 <= i < |log| && log[i] == e;
      var j :| 0 <= j < |log| && log[j] == f;
    }
  }

  lemma IdsOfPrefix(log: Log, snapshot: Log, e: DomainEvent)
    requires DistinctIds(log) && snapshot <= log && e in log && e.eventId in IdsOf(RelevantEvents(snapshot))
    ensures e in snapshot && IsRelevant(e)
  {
    RelevantMembers(snapshot);
    var f :| f in RelevantEvents(snapshot) && f.eventId == e.eventId;
    var i :| 0 <= i < |log| && log[i] == e;
    var j :| 0 <= j < |snapshot| && snapshot[j] == f;
    assert log[j] == f;
  }

  lemma ProcessedRedirects(s: System)
    requires DistinctIds(s.log)
    ensures ResolverRedirects(RelevantEvents(ProcessedEvents(s))) ==
            CanonicalRedirects(Sorting.Filter(ProcessedEvents(s), IsIdentityEvent))
  {
    FilterDistinct(s.log, Marked(s.processed));
    ReadersShareRedirects(ProcessedEvents(s));
    IdentityEventsDecide(ProcessedEvents(s));
  }

  lemma {:induction false} FilterDistinct(log: Log, keep: DomainEvent -> bool)
    requires DistinctIds(log)
    ensures DistinctIds(Sorting.Filter(log, keep))
  {
    if log != [] {
      var front, last := log[..|log| - 1], log[|log| - 1];
      FilterDistinct(front, keep);
      forall e | e in Sorting.Filter(front, keep) ensures e.eventId != last.eventId {
        var i :| 0 <= i < |front| && front[i] == e;
        assert log[i] == e;
      }
    }
  }

  function MarkedIdentity(processed: set<EventId>): DomainEvent -> bool {
    (e: DomainEvent) => e.eventId in processed && IsIdentityEvent(e)
  }

  /** The redirect table depends only on which identity events are marked. */
  lemma SameIdentityMarks(s: System, t: System)
    requires DistinctIds(s.log) && s.log == t.log
    requires forall e :: e in s.log && IsIdentityEvent(e) ==> (e.eventId in s.processed <==> e.eventId in t.processed)
    ensures ResolverRedirects(RelevantEvents(ProcessedEvents(s))) ==
            ResolverRedirects(RelevantEvents(ProcessedEvents(t)))
  {
    ProcessedRedirects(s);
    ProcessedRedirects(t);
    var a, b := MarkedIdentity(s.processed), MarkedIdentity(t.processed);
    Sorting.FilterNested(s.log, Marked(s.processed), IsIdentityEvent, a);
    Sorting.FilterNested(t.log, Marked(t.processed), IsIdentityEvent, b);
    Sorting.FilterAgree(s.log, a, b);
  }

  lemma SnapshotIdentity(s: System, snapshot: Log)
    requires DistinctIds(s.log) && snapshot <= s.log && s.processed == IdsOf(RelevantEvents(snapshot))
    ensures Sorting.Filter(ProcessedEvents(s), IsIdentityEvent) == Sorting.Filter(snapshot, IsIdentityEvent)
  {
    var rest := s.log[|snapshot|..];
    assert s.log == snapshot + rest;
    var marked := MarkedIdentity(s.processed);
    Sorting.FilterNested(s.log, Marked(s.processed), IsIdentityEvent, marked);
    Sorting.FilterAppend(snapshot, rest, marked);
    PrefixDistinct(s.log, |snapshot|);
    forall e | e in snapshot ensures marked(e) == IsIdentityEvent(e) {
      IdsOfRelevant(snapshot, e);
    }
    Sorting.FilterAgree(snapshot, marked, IsIdentityEvent);
    forall e | e in rest ensures !marked(e) {
      RestUnmarked(s.log, snapshot, e);
    }
    Sorting.FilterNone(rest, marked);
  }

  /** Once exactly the snapshot's relevant events are marked, the processed redirects are the snapshot's. */
  lemma SnapshotRedirects(s: System, snapshot: Log)
    requires DistinctIds(s.log) && snapshot <= s.log && s.processed == IdsOf(RelevantEvents(snapshot))
    ensures ResolverRedirects(RelevantEvents(ProcessedEvents(s))) == ResolverRedirects(RelevantEvents(snapshot))
  {
    SnapshotIdentity(s, snapshot);
    ProcessedRedirects(s);
    PrefixDistinct(s.log, |snapshot|);
    ReadersShareRedirects(snapshot);
    IdentityEventsDecide(snapshot);
  }

  lemma PrefixDistinct(log: Log, n: nat)
    requires DistinctIds(log) && n <= |log|
    ensures DistinctIds(log[..n])
  {}

  lemma RestUnmarked(log: Log, snapshot: Log, e: DomainEvent)
    requires DistinctIds(log) && snapshot <= log && e in log[|snapshot|..]
    ensures e.eventId !in IdsOf(RelevantEvents(snapshot))
    ensures e !in snapshot
  {
    RelevantMembers(snapshot);
    var i :| |snapshot| <= i < |log| && log[i] == e;
    forall f | f in snapshot ensures f.eventId != e.eventId {
      var j :| 0 <= j < |snapshot| && snapshot[j] == f;
      assert log[j] == f;
    }
  }

  // ----- steps keep the invariant

  lemma NewEventUnmarked(s: System, e: DomainEvent)
    requires TablesSound(s) && e.eventId !in IdsOf(s.log)
    ensures e.eventId !in s.processed
    ensures DistinctIds(s.log + [e])
    ensures Sorting.Filter(s.log + [e], Marked(s.processed)) == ProcessedEvents(s)
    ensures IdsOf(RelevantEvents(s.log)) <= IdsOf(RelevantEvents(s.log + [e]))
  {
    RelevantMembers(s.log);
    RelevantMembers(s.log + [e]);
    forall x | x in IdsOf(RelevantEvents(s.log)) ensures x in IdsOf(RelevantEvents(s.log + [e])) && x in IdsOf(s.log) {
      var f :| f in RelevantEvents(s.log) && f.eventId == x;
      assert f in s.log + [e];
    }
    forall i | 0 <= i < |s.log| ensures s.log[i].eventId != e.eventId {
      assert s.log[i] in s.log;
    }
    assert (s.log + [e])[..|s.log|] == s.log;
  }

  lemma ClaimIdsGrow(log: Log, e: DomainEvent)
    ensures ClaimIds(log + [e]) == ClaimIds(log) + if IsClaimEvent(e) then {e.claimId} else {}
  {
    var grown := ClaimIds(log) + if IsClaimEvent(e) then {e.claimId} else {};
    forall x | x in grown ensures x in ClaimIds(log + [e]) {
      if x in ClaimIds(log) {
        var f :| f in log && IsClaimEvent(f) && f.claimId == x;
        assert f in log + [e];
      } else {
        assert e in log + [e];
      }
    }
  }

  lemma WriterLeavesRow(s: System, t: System, e: DomainEvent, c: ClaimId, embed: Embedder)
    requires TablesSound(s) && Coherent(s, embed) && e.eventId !in IdsOf(s.log)
    requires t.log == s.log + [e] && t.rows == s.rows && t.processed == s.processed
    requires Settled(t, c) && Lookup(t.claims, c) == Lookup(s.claims, c)
    ensures Lookup(t.rows, c) == DueRow(t, c, embed)
  {
    NewEventUnmarked(s, e);
    assert Settled(s, c);
    assert ProcessedEvents(t) == ProcessedEvents(s);
  }

  /** A writer unsettles the claim it writes and leaves every other claim as it was. */
  lemma WriterKeepsCoherent(s: System, t: System, e: DomainEvent, embed: Embedder)
    requires TablesSound(s) && Coherent(s, embed) && e.eventId !in IdsOf(s.log)
    requires t.log == s.log + [e] && t.rows == s.rows && t.processed == s.processed
    requires forall c :: !(IsClaimEvent(e) && e.claimId == c) ==> Lookup(t.claims, c) == Lookup(s.claims, c)
    ensures Coherent(t, embed)
  {
    NewEventUnmarked(s, e);
    assert e in t.log;
    forall c: ClaimId | Settled(t, c) ensures Lookup(t.rows, c) == DueRow(t, c, embed) {
      WriterLeavesRow(s, t, e, c, embed);
    }
  }

  lemma WriterKeepsActor(s: System, t: System, e: DomainEvent)
    requires TablesSound(s) && ActorSound(s) && e.eventId !in IdsOf(s.log)
    requires t.log == s.log + [e] && t.processed == s.processed && t.actor == s.actor
    requires forall c :: !(IsClaimEvent(e) && e.claimId == c) ==> Lookup(t.claims, c) == Lookup(s.claims, c)
    ensures ActorSound(t)
  {
    if s.actor.ReadingClaims? {
      forall c | c in t.actor.fetched ensures ReadFresh(t, c) {
        assert ReadFresh(s, c);
        assert e in t.log;
        assert e !in s.log by { assert e in s.log ==> e.eventId in IdsOf(s.log); }
        if f :| f in s.log && IsClaimEvent(f) && f.claimId == c && f !in s.actor.snapshot {
          assert f in t.log;
        }
      }
    }
  }

  lemma WriterKeepsTables(s: System, t: System, e: DomainEvent)
    requires TablesSound(s) && e.eventId !in IdsOf(s.log)
    requires t.log == s.log + [e] && t.processed == s.processed
    requires t.claims.Keys <= s.claims.Keys + if IsClaimEvent(e) then {e.claimId} else {}
    requires forall c :: c in t.claims ==> t.claims[c].id == c
    ensures TablesSound(t)
  {
    NewEventUnmarked(s, e);
    ClaimIdsGrow(s.log, e);
  }

  lemma WriterKeepsInv(s: System, t: System, e: DomainEvent, embed: Embedder)
    requires Inv(s, embed) && e.eventId !in IdsOf(s.log)
    requires t.log == s.log + [e] && t.rows == s.rows && t.processed == s.processed && t.actor == s.actor
    requires t.claims.Keys <= s.claims.Keys + if IsClaimEvent(e) then {e.claimId} else {}
    requires forall c :: c in t.claims ==> t.claims[c].id == c
    requires forall c :: !(IsClaimEvent(e) && e.claimId == c) ==> Lookup(t.claims, c) == Lookup(s.claims, c)
    ensures Inv(t, embed)
  {
    WriterKeepsTables(s, t, e);
    WriterKeepsCoherent(s, t, e, embed);
    WriterKeepsActor(s, t, e);
  }

  lemma WriteClaimKeepsInv(s: System, claim: Claim, event: DomainEvent, embed: Embedder)
    requires Inv(s, embed) && Allowed(s, WriteClaim(claim, event))
    ensures Inv(Take(s, WriteClaim(claim, event), embed), embed)
  {
    var t := Take(s, WriteClaim(claim, event), embed);
    assert forall c :: c in t.claims ==> t.claims[c].id == c;
    WriterKeepsInv(s, t, event, embed);
  }

  lemma AppendEventKeepsInv(s: System, event: DomainEvent, embed: Embedder)
    requires Inv(s, embed) && Allowed(s, AppendEvent(event))
    ensures Inv(Take(s, AppendEvent(event), embed), embed)
  {
    WriterKeepsInv(s, Take(s, AppendEvent(event), embed), event, embed);
  }

  lemma SameTablesCoherent(s: System, t: System, embed: Embedder)
    requires TablesSound(s) && Coherent(s, embed)
    requires t.claims == s.claims && t.log == s.log && t.rows == s.rows && t.processed == s.processed
    ensures TablesSound(t) && Coherent(t, embed)
  {
    forall c: ClaimId ensures Settled(t, c) <==> Settled(s, c) {}
  }

  lemma ReadMarksKeepsActor(s: System, embed: Embedder)
    requires ActorSound(s)
    ensures ActorSound(Take(s, ReadMarks, embed))
  {
    if s.actor.ReadingMarks? {
      PendingMembers(s.actor.snapshot, s.processed);
    }
  }

  lemma ReadClaimKeepsActor(s: System, id: ClaimId, embed: Embedder)
    requires ActorSound(s)
    ensures ActorSound(Take(s, ReadClaim(id), embed))
  {
    var t := Take(s, ReadClaim(id), embed);
    if s.actor.ReadingClaims? {
      forall c | c in t.actor.fetched ensures ReadFresh(t, c) {
        assert c in s.actor.fetched ==> ReadFresh(s, c);
      }
    }
  }

  lemma ActorStepsKeepActor(s: System, step: Step, embed: Embedder)
    requires TablesSound(s) && ActorSound(s) && !step.WriteClaim? && !step.AppendEvent? && !step.Commit?
    ensures ActorSound(Take(s, step, embed))
  {
    match step
    case ReadMarks => ReadMarksKeepsActor(s, embed);
    case ReadClaim(id) => ReadClaimKeepsActor(s, id, embed);
    case StartSync =>
    case StartRebuild =>
    case ReadRebuildLog =>
    case Fail =>
  }

  lemma ActorStepsKeepTables(s: System, step: Step, embed: Embedder)
    requires TablesSound(s) && Coherent(s, embed) && !step.WriteClaim? && !step.AppendEvent? && !step.Commit?
    ensures TablesSound(Take(s, step, embed)) && Coherent(Take(s, step, embed), embed)
  {
    SameTablesCoherent(s, s.(actor := NextActor(s, step)), embed);
  }

  lemma ActorStepsKeepInv(s: System, step: Step, embed: Embedder)
    requires Inv(s, embed) && !step.WriteClaim? && !step.AppendEvent? && !step.Commit?
    ensures Inv(Take(s, step, embed), embed)
  {
    ActorStepsKeepTables(s, step, embed);
    ActorStepsKeepActor(s, step, embed);
  }

  ghost predicate ReadyToCommit(s: System) {
    s.actor.ReadingClaims? && s.actor.fetched.Keys == s.actor.wanted
  }

  /** A commit marks exactly the snapshot's relevant events. */
  lemma CommitMarks(s: System, embed: Embedder)
    requires TablesSound(s) && ActorSound(s) && ReadyToCommit(s)
    ensures Take(s, Commit, embed).processed == IdsOf(RelevantEvents(s.actor.snapshot))
  {
    var snapshot := s.actor.snapshot;
    RelevantMembers(snapshot);
    if !s.actor.rebuild {
      PendingMembers(snapshot, s.processed);
      forall x | x in IdsOf(RelevantEvents(snapshot)) ensures x in s.processed + IdsOf(s.actor.pending) {
        var e :| e in RelevantEvents(snapshot) && e.eventId == x;
        assert x !in s.processed ==> e in s.actor.pending;
      }
    }
  }

  lemma CommitKeepsTables(s: System, embed: Embedder)
    requires TablesSound(s) && ActorSound(s) && ReadyToCommit(s)
    ensures TablesSound(Take(s, Commit, embed))
  {
    CommitMarks(s, embed);
    RelevantMembers(s.actor.snapshot);
    RelevantMembers(s.log);
    forall x | x in IdsOf(RelevantEvents(s.actor.snapshot)) ensures x in IdsOf(RelevantEvents(s.log)) {
      var e :| e in RelevantEvents(s.actor.snapshot) && e.eventId == x;
      assert e in s.log;
    }
  }

  lemma SettledInSnapshot(t: System, snapshot: Log, c: ClaimId)
    requires DistinctIds(t.log) && snapshot <= t.log && t.processed == IdsOf(RelevantEvents(snapshot))
    requires Settled(t, c)
    ensures forall e :: e in t.log && IsClaimEvent(e) && e.claimId == c ==> e in snapshot
  {
    forall e | e in t.log && IsClaimEvent(e) && e.claimId == c ensures e in snapshot {
      IdsOfPrefix(t.log, snapshot, e);
    }
  }

  /** After the commit a settled claim was read, if at all, in its current version. */
  lemma SettledReadCurrent(s: System, c: ClaimId, embed: Embedder)
    requires TablesSound(s) && ActorSound(s) && ReadyToCommit(s)
    requires Settled(Take(s, Commit, embed), c) && c in s.actor.wanted
    ensures s.actor.fetched[c] == Lookup(s.claims, c)
  {
    CommitMarks(s, embed);
    SettledInSnapshot(Take(s, Commit, embed), s.actor.snapshot, c);
    assert ReadFresh(s, c);
  }

  /** A settled claim outside a sync's reads was settled before. */
  lemma SettledBefore(s: System, c: ClaimId, embed: Embedder)
    requires TablesSound(s) && ActorSound(s) && ReadyToCommit(s)
    requires Settled(Take(s, Commit, embed), c) && c !in s.actor.wanted && !s.actor.rebuild
    ensures Settled(s, c)
  {
    CommitMarks(s, embed);
    PendingMembers(s.actor.snapshot, s.processed);
    forall e | e in s.log && IsClaimEvent(e) && e.claimId == c ensures e.eventId in s.processed {
      IdsOfPrefix(s.log, s.actor.snapshot, e);
    }
  }

  /** A settled claim outside a rebuild's reads does not exist. */
  lemma SettledAbsent(s: System, c: ClaimId, embed: Embedder)
    requires TablesSound(s) && ActorSound(s) && ReadyToCommit(s)
    requires Settled(Take(s, Commit, embed), c) && c !in s.actor.wanted && s.actor.rebuild
    ensures c !in s.claims
  {
    CommitMarks(s, embed);
    if c in s.claims {
      var e :| e in s.log && IsClaimEvent(e) && e.claimId == c;
      IdsOfPrefix(s.log, s.actor.snapshot, e);
      assert false;
    }
  }

  lemma CommitRedirects(s: System, embed: Embedder)
    requires TablesSound(s) && ActorSound(s) && ReadyToCommit(s)
    ensures ResolverRedirects(RelevantEvents(ProcessedEvents(Take(s, Commit, embed)))) ==
            ResolverRedirects(RelevantEvents(s.actor.snapshot))
  {
    CommitMarks(s, embed);
    SnapshotRedirects(Take(s, Commit, embed), s.actor.snapshot);
  }

  lemma DifferentEvents(log: Log, e: DomainEvent, f: DomainEvent)
    requires DistinctIds(log) && e in log && f in log && e != f
    ensures e.eventId != f.eventId
  {
    var i :| 0 <= i < |log| && log[i] == e;
    var j :| 0 <= j < |log| && log[j] == f;
  }

  lemma IdentityNotPending(log: Log, pending: Log, e: DomainEvent)
    requires DistinctIds(log) && e in log && IsIdentityEvent(e)
    requires forall f :: f in pending ==> f in log && !IsIdentityEvent(f)
    ensures e.eventId !in IdsOf(pending)
  {
    forall f | f in pending ensures f.eventId != e.eventId {
      DifferentEvents(log, e, f);
    }
  }

  lemma SyncMarksNoIdentity(s: System, e: DomainEvent, embed: Embedder)
    requires TablesSound(s) && ActorSound(s) && ReadyToCommit(s) && !s.actor.rebuild
    requires e in s.log && IsIdentityEvent(e)
    ensures e.eventId in s.processed <==> e.eventId in Take(s, Commit, embed).processed
  {
    PendingMembers(s.actor.snapshot, s.processed);
    IdentityNotPending(s.log, s.actor.pending, e);
  }

  /** A sync has no identity event to process, so rows it leaves alone keep the right redirects. */
  lemma SyncKeepsRedirects(s: System, embed: Embedder)
    requires TablesSound(s) && ActorSound(s) && ReadyToCommit(s) && !s.actor.rebuild
    ensures ResolverRedirects(RelevantEvents(ProcessedEvents(Take(s, Commit, embed)))) ==
            ResolverRedirects(RelevantEvents(ProcessedEvents(s)))
  {
    forall e | e in s.log && IsIdentityEvent(e)
      ensures e.eventId in s.processed <==> e.eventId in Take(s, Commit, embed).processed
    {
      SyncMarksNoIdentity(s, e, embed);
    }
    SameIdentityMarks(s, Take(s, Commit, embed));
  }

  lemma WantedRow(s: System, c: ClaimId, embed: Embedder)
    requires TablesSound(s) && ActorSound(s) && ReadyToCommit(s)
    requires Settled(Take(s, Commit, embed), c) && c in s.actor.wanted
    ensures var t := Take(s, Commit, embed); Lookup(t.rows, c) == DueRow(t, c, embed)
  {
    SettledReadCurrent(s, c, embed);
    CommitRedirects(s, embed);
  }

  lemma UnwantedRow(s: System, c: ClaimId, embed: Embedder)
    requires TablesSound(s) && ActorSound(s) && Coherent(s, embed) && ReadyToCommit(s)
    requires Settled(Take(s, Commit, embed), c) && c !in s.actor.wanted && !s.actor.rebuild
    ensures var t := Take(s, Commit, embed); Lookup(t.rows, c) == DueRow(t, c, embed)
  {
    SettledBefore(s, c, embed);
    SyncKeepsRedirects(s, embed);
  }

  lemma CommitKeepsCoherent(s: System, embed: Embedder)
    requires Inv(s, embed) && ReadyToCommit(s)
    ensures Coherent(Take(s, Commit, embed), embed)
  {
    var t := Take(s, Commit, embed);
    forall c: ClaimId | Settled(t, c) ensures Lookup(t.rows, c) == DueRow(t, c, embed) {
      if c in s.actor.wanted {
        WantedRow(s, c, embed);
      } else if s.actor.rebuild {
        SettledAbsent(s, c, embed);
      } else {
        UnwantedRow(s, c, embed);
      }
    }
  }

  lemma StepKeepsInv(s: System, step: Step, embed: Embedder)
    requires Inv(s, embed) && Allowed(s, step)
    ensures Inv(Take(s, step, embed), embed)
  {
    if step.WriteClaim? {
      WriteClaimKeepsInv(s, step.claim, step.event, embed);
    } else if step.AppendEvent? {
      AppendEventKeepsInv(s, step.event, embed);
    } else if step.Commit? {
      if s.actor.ReadingClaims? && s.actor.fetched.Keys == s.actor.wanted {
        CommitKeepsTables(s, embed);
        CommitKeepsCoherent(s, embed);
      }
    } else {
      ActorStepsKeepInv(s, step, embed);
    }
  }

  // ----- the guarantees

  /** In every interleaved run each settled claim has exactly the row its current version projects to. */
  lemma {:induction false} EveryRunIsCoherent(steps: seq<Step>, embed: Embedder)
    requires AllowedRun(steps, embed)
    ensures Inv(Run(steps, embed), embed)
  {
    if steps == [] {
      assert DistinctIds([]);
    } else {
      var front := steps[..|steps| - 1];
      EveryRunIsCoherent(front, embed);
      StepKeepsInv(Run(front, embed), steps[|steps| - 1], embed);
    }
  }

  lemma DueRowStates(s: System, embed: Embedder, c: ClaimId)
    requires Lookup(s.rows, c) == DueRow(s, c, embed)
    ensures c in s.rows <==> c in s.claims && !s.claims[c].status.Retracted?
    ensures c in s.rows ==>
              States(s.rows[c], s.claims[c], ResolverRedirects(RelevantEvents(ProcessedEvents(s))), embed)
  {}

  lemma UnpendingIsSettled(s: System, c: ClaimId)
    requires forall e :: e in s.log && (e.ClaimAsserted? || e.ClaimRetracted?) && e.claimId == c ==>
               e.eventId in s.processed
    ensures Settled(s, c)
  {}

  /** The same in the fields of the claim: in every interleaved run, a claim whose claim events are all processed has a
      row if and only if it is written and not retracted, and the row says what the claim's current version says. */
  lemma EveryRowStatesItsClaim(steps: seq<Step>, embed: Embedder, c: ClaimId)
    requires AllowedRun(steps, embed)
    requires var s := Run(steps, embed);
             forall e :: e in s.log && (e.ClaimAsserted? || e.ClaimRetracted?) && e.claimId == c ==>
               e.eventId in s.processed
    ensures var s := Run(steps, embed);
            && (c in s.rows <==> c in s.claims && !s.claims[c].status.Retracted?)
            && (c in s.rows ==>
                  States(s.rows[c], s.claims[c], ResolverRedirects(RelevantEvents(ProcessedEvents(s))), embed))
  {
    EveryRunIsCoherent(steps, embed);
    UnpendingIsSettled(Run(steps, embed), c);
    DueRowStates(Run(steps, embed), embed, c);
  }

  lemma NothingPending(s: System)
    requires TablesSound(s) && Pending(s.log, s.processed) == []
    ensures forall c: ClaimId :: Settled(s, c)
    ensures s.processed == IdsOf(RelevantEvents(s.log))
  {
    PendingMembers(s.log, s.processed);
    RelevantMembers(s.log);
    forall x | x in IdsOf(RelevantEvents(s.log)) ensures x in s.processed {
      var e :| e in RelevantEvents(s.log) && e.eventId == x;
    }
  }

  lemma CaughtUpRow(s: System, c: ClaimId, embed: Embedder)
    requires TablesSound(s) && Coherent(s, embed) && Pending(s.log, s.processed) == []
    ensures Lookup(s.rows, c) == Lookup(FullRows(s.claims, s.log, embed), c)
  {
    NothingPending(s);
    SnapshotRedirects(s, s.log);
    assert Settled(s, c);
  }

  lemma SameRows(a: Rows, b: Rows)
    requires forall c: ClaimId :: Lookup(a, c) == Lookup(b, c)
    ensures a == b
  {
    forall c: ClaimId ensures c in a <==> c in b
                      ensures c in a ==> a[c] == b[c] {
      assert Lookup(a, c) == Lookup(b, c);
    }
  }

  lemma CaughtUpTable(s: System, embed: Embedder)
    requires TablesSound(s) && Coherent(s, embed) && Pending(s.log, s.processed) == []
    ensures s.rows == FullRows(s.claims, s.log, embed)
  {
    forall c: ClaimId { CaughtUpRow(s, c, embed); }
    SameRows(s.rows, FullRows(s.claims, s.log, embed));
  }

  /** Zero pending events means the incremental table is exactly the one a rebuild would write. */
  lemma CaughtUpEqualsRebuild(steps: seq<Step>, embed: Embedder)
    requires AllowedRun(steps, embed)
    requires var s := Run(steps, embed); Pending(s.log, s.processed) == []
    ensures var s := Run(steps, embed); s.rows == FullRows(s.claims, s.log, embed)
  {
    EveryRunIsCoherent(steps, embed);
    CaughtUpTable(Run(steps, embed), embed);
  }

  lemma AllMarkedNonePending(log: Log)
    ensures Pending(log, IdsOf(RelevantEvents(log))) == []
  {
    RelevantMembers(log);
    forall e | e in RelevantEvents(log) ensures !Unprocessed(IdsOf(RelevantEvents(log)))(e) {}
    Sorting.FilterNone(RelevantEvents(log), Unprocessed(IdsOf(RelevantEvents(log))));
  }

  lemma InFlightSync(s: System, pending: Log) returns (r: System)
    requires TablesSound(s) && pending == Pending(s.log, s.processed)
    requires forall e :: e in pending ==> !IsIdentityEvent(e)
    ensures r == s.(actor := ReadingClaims(s.log, pending, false, ClaimIds(pending),
                                           ReadAll(s.claims, ClaimIds(pending))))
    ensures TablesSound(r) && ActorSound(r) && ReadyToCommit(r)
  {
    r := s.(actor := ReadingClaims(s.log, pending, false, ClaimIds(pending), ReadAll(s.claims, ClaimIds(pending))));
    forall c | c in r.actor.fetched ensures ReadFresh(r, c) {}
  }

  lemma IncrementalSync(s: System, pending: Log, embed: Embedder)
    requires TablesSound(s) && Coherent(s, embed) && pending == Pending(s.log, s.processed)
    requires forall e :: e in pending ==> !IsIdentityEvent(e)
    ensures SyncedRows(s.rows, ReadAll(s.claims, ClaimIds(pending)), ResolverRedirects(RelevantEvents(s.log)), embed) ==
            FullRows(s.claims, s.log, embed)
  {
    var r := InFlightSync(s, pending);
    SameTablesCoherent(s, r, embed);
    var t := TakeCommit(r, embed);
    assert t == Take(r, Commit, embed);
    CommitMarks(r, embed);
    CommitKeepsTables(r, embed);
    CommitKeepsCoherent(r, embed);
    AllMarkedNonePending(t.log);
    CaughtUpTable(t, embed);
  }

  /** An uninterrupted sync of coherent tables writes the very table an uninterrupted rebuild would. */
  lemma SyncEqualsRebuild(s: System, embed: Embedder)
    requires TablesSound(s) && Coherent(s, embed)
    ensures SyncRows(s.rows, s.processed, s.claims, s.log, embed) == FullRows(s.claims, s.log, embed)
  {
    var pending := Pending(s.log, s.processed);
    if pending == [] {
      CaughtUpTable(s, embed);
    } else if forall e :: e in pending ==> !IsIdentityEvent(e) {
      IncrementalSync(s, pending, embed);
    }
  }

  // ----- catching up

  function RunFrom(s: System, steps: seq<Step>, embed: Embedder): System
    decreases |steps|
  {
    if steps == [] then s else RunFrom(Take(s, steps[0], embed), steps[1..], embed)
  }

  ghost predicate ActorOnly(steps: seq<Step>) {
    forall step :: step in steps ==> !step.WriteClaim? && !step.AppendEvent?
  }

  /** From `s` on only the tables have changed, nothing is pending, and the rows are those of a rebuild. */
  ghost predicate CaughtUp(s: System, t: System, embed: Embedder) {
    && t.claims == s.claims && t.log == s.log
    && Pending(t.log, t.processed) == []
    && t.rows == FullRows(t.claims, t.log, embed)
  }

  lemma Prepend(s: System, step: Step, rest: seq<Step>, embed: Embedder)
    ensures RunFrom(s, [step] + rest, embed) == RunFrom(Take(s, step, embed), rest, embed)
  {
    assert ([step] + rest)[1..] == rest;
  }

  lemma NonePendingCaughtUp(s: System, t: System, embed: Embedder)
    requires TablesSound(t) && Coherent(t, embed) && t.claims == s.claims && t.log == s.log
    requires t.processed == IdsOf(RelevantEvents(t.log))
    ensures CaughtUp(s, t, embed)
  {
    AllMarkedNonePending(t.log);
    CaughtUpTable(t, embed);
  }

  lemma CommitDone(s: System, t: System, embed: Embedder)
    requires Inv(s, embed) && ReadyToCommit(s) && t == Take(s, Commit, embed)
    ensures TablesSound(t) && Coherent(t, embed) && t.claims == s.claims && t.log == s.log
    ensures t.processed == IdsOf(RelevantEvents(s.actor.snapshot))
  {
    CommitMarks(s, embed);
    CommitKeepsTables(s, embed);
    CommitKeepsCoherent(s, embed);
  }

  lemma CommitCatchesUp(s: System, embed: Embedder)
    requires Inv(s, embed) && ReadyToCommit(s) && s.actor.snapshot == s.log
    ensures CaughtUp(s, Take(s, Commit, embed), embed)
  {
    var t := Take(s, Commit, embed);
    CommitDone(s, t, embed);
    NonePendingCaughtUp(s, t, embed);
  }

  /** With no writer in between, reading the remaining claims in any order and committing catches up. */
  lemma {:induction false} FinishReading(s: System, embed: Embedder) returns (more: seq<Step>)
    requires Inv(s, embed) && s.actor.ReadingClaims? && s.actor.snapshot == s.log
    ensures ActorOnly(more) && CaughtUp(s, RunFrom(s, more, embed), embed)
    decreases s.actor.wanted - s.actor.fetched.Keys
  {
    if s.actor.fetched.Keys == s.actor.wanted {
      more := [Commit];
      CommitCatchesUp(s, embed);
      Prepend(s, Commit, [], embed);
      assert [Commit] + [] == more;
    } else {
      assert s.actor.fetched.Keys <= s.actor.wanted;
      assert s.actor.wanted - s.actor.fetched.Keys != {} by {
        assert s.actor.wanted == s.actor.fetched.Keys + (s.actor.wanted - s.actor.fetched.Keys);
      }
      var id :| id in s.actor.wanted - s.actor.fetched.Keys;
      StepKeepsInv(s, ReadClaim(id), embed);
      var rest := FinishReading(Take(s, ReadClaim(id), embed), embed);
      Prepend(s, ReadClaim(id), rest, embed);
      more := [ReadClaim(id)] + rest;
    }
  }

  /** A sync that has read its marks ends caught up, by way of a rebuild where an identity event is pending. */
  lemma FinishSync(s: System, embed: Embedder) returns (more: seq<Step>)
    requires Inv(s, embed) && s.actor == ReadingMarks(s.log)
    ensures ActorOnly(more) && CaughtUp(s, RunFrom(s, more, embed), embed)
  {
    var t := Take(s, ReadMarks, embed);
    StepKeepsInv(s, ReadMarks, embed);
    var rest: seq<Step> := [];
    if t.actor.Idle? {
      CaughtUpTable(t, embed);
    } else if t.actor.Rebuilding? {
      StepKeepsInv(t, ReadRebuildLog, embed);
      var finish := FinishReading(Take(t, ReadRebuildLog, embed), embed);
      Prepend(t, ReadRebuildLog, finish, embed);
      rest := [ReadRebuildLog] + finish;
    } else {
      rest := FinishReading(t, embed);
    }
    Prepend(s, ReadMarks, rest, embed);
    more := [ReadMarks] + rest;
  }

  /** Whatever has happened, and wherever the actor was stopped, one sync without writers in between leaves nothing
      pending and exactly the rows a rebuild would write. */
  lemma OneSyncCatchesUp(steps: seq<Step>, embed: Embedder) returns (more: seq<Step>)
    requires AllowedRun(steps, embed)
    ensures ActorOnly(more) && CaughtUp(Run(steps, embed), RunFrom(Run(steps, embed), more, embed), embed)
  {
    var s := Run(steps, embed);
    EveryRunIsCoherent(steps, embed);
    StepKeepsInv(s, Fail, embed);
    var stopped := Take(s, Fail, embed);
    StepKeepsInv(stopped, StartSync, embed);
    var rest := FinishSync(Take(stopped, StartSync, embed), embed);
    Prepend(stopped, StartSync, rest, embed);
    Prepend(s, Fail, [StartSync] + rest, embed);
    more := [Fail] + ([StartSync] + rest);
  }

  lemma FinishRebuild(s: System, embed: Embedder) returns (more: seq<Step>)
    requires Inv(s, embed) && s.actor.Rebuilding?
    ensures ActorOnly(more) && CaughtUp(s, RunFrom(s, more, embed), embed)
  {
    StepKeepsInv(s, ReadRebuildLog, embed);
    var finish := FinishReading(Take(s, ReadRebuildLog, embed), embed);
    Prepend(s, ReadRebuildLog, finish, embed);
    more := [ReadRebuildLog] + finish;
  }

  /** And so does one rebuild. */
  lemma OneRebuildCatchesUp(steps: seq<Step>, embed: Embedder) returns (more: seq<Step>)
    requires AllowedRun(steps, embed)
    ensures ActorOnly(more) && [Fail, StartRebuild] <= more
    ensures CaughtUp(Run(steps, embed), RunFrom(Run(steps, embed), more, embed), embed)
  {
    var s := Run(steps, embed);
    EveryRunIsCoherent(steps, embed);
    StepKeepsInv(s, Fail, embed);
    var stopped := Take(s, Fail, embed);
    StepKeepsInv(stopped, StartRebuild, embed);
    var rest := FinishRebuild(Take(stopped, StartRebuild, embed), embed);
    Prepend(stopped, StartRebuild, rest, embed);
    Prepend(s, Fail, [StartRebuild] + rest, embed);
    more := [Fail] + ([StartRebuild] + rest);
  }

  // ----- what the runs range over

  /** An event of the snapshot that affects the projection and bears no mark. */
  ghost predicate Unmarked(s: System, snapshot: Log, e: DomainEvent) {
    && e in snapshot && e.eventId !in s.processed
    && (e.ClaimAsserted? || e.ClaimRetracted? || e.EntityMerged? || e.MergeReverted?)
  }

  /** What a sync does once it has read its marks: nothing if no event is unmarked, a rebuild if a merge or a revert is,
      and otherwise it reads exactly the claims that the unmarked events name. */
  lemma SyncDecides(s: System, embed: Embedder)
    requires s.actor.ReadingMarks?
    ensures var snapshot, next := s.actor.snapshot, Take(s, ReadMarks, embed).actor;
            && (next.Idle? <==> forall e :: !Unmarked(s, snapshot, e))
            && (next.Rebuilding? <==> exists e :: Unmarked(s, snapshot, e) && (e.EntityMerged? || e.MergeReverted?))
            && (next.ReadingClaims? ==>
                  && !next.rebuild && next.fetched == map[]
                  && forall c :: c in next.wanted <==>
                       exists e ::
                         Unmarked(s, snapshot, e) && (e.ClaimAsserted? || e.ClaimRetracted?) && e.claimId == c)
            && (next.Idle? || next.Rebuilding? || next.ReadingClaims?)
  {
    var pending := Pending(s.actor.snapshot, s.processed);
    PendingMembers(s.actor.snapshot, s.processed);
    forall e ensures e in pending <==> Unmarked(s, s.actor.snapshot, e) {}
    assert pending != [] ==> pending[0] in pending;
  }

  /** One maintenance run at a time: starting one while another is under way, or a step of another stage, does
      nothing. */
  lemma OneRunAtATime(s: System, embed: Embedder)
    ensures !s.actor.Idle? ==> Take(s, StartSync, embed) == s && Take(s, StartRebuild, embed) == s
    ensures !s.actor.Rebuilding? ==> Take(s, ReadRebuildLog, embed) == s
    ensures !s.actor.ReadingMarks? ==> Take(s, ReadMarks, embed) == s
    ensures !s.actor.ReadingClaims? ==> Take(s, Commit, embed) == s
  {}

  /** Writers may write any version of any claim, with either claim event, and append any other event, at any point,
      under an id not used before. */
  lemma WritersMay(s: System, claim: Claim, event: DomainEvent, embed: Embedder)
    requires forall e :: e in s.log ==> e.eventId != event.eventId
    ensures (event.ClaimAsserted? || event.ClaimRetracted?) && event.claimId == claim.id ==>
              && Allowed(s, WriteClaim(claim, event))
              && Take(s, WriteClaim(claim, event), embed) ==
                 s.(claims := s.claims[claim.id := claim], log := s.log + [event])
    ensures !event.ClaimAsserted? && !event.ClaimRetracted? ==>
              Allowed(s, AppendEvent(event)) && Take(s, AppendEvent(event), embed) == s.(log := s.log + [event])
  {
    assert event.eventId !in IdsOf(s.log);
  }
}
