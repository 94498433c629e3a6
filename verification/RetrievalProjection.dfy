/** The incremental retrieval projection: a table of projected claims and a set of processed event ids,
    kept up to date from the canonical log by `sync` and rewritten from it by `rebuild`.

    SQL tables are maps, a transaction is one method, and the embedding provider is a deterministic
    function of a claim's text. */
module RetrievalProjection {
  import opened Kernel
  import opened EntityIdentity
  import opened Redirects
  import Sorting

  datatype TextObject = Words(text: string) | EntityName(id: EntityId)

  datatype ClaimText = ClaimText(predicateName: string, obj: TextObject)

  type Embedder = ClaimText -> seq<real>

  datatype Row = Row(
    claimId: ClaimId,
    scope: Scope,
    body: ClaimText,
    subjectId: EntityId,
    objectEntityId: Option<EntityId>,
    vector: seq<real>,
    validFrom: Timestamp,
    validTo: Option<Timestamp>)

  function TextOf(claim: Claim): ClaimText {
    var obj := match claim.obj
                  case LiteralObject(text, _) => Words(text)
                  case EntityObject(id) => EntityName(id);
    ClaimText(claim.predicateName, obj)
  }

  /** The row `upsertClaim` writes for a claim. */
  function Project(claim: Claim, redirects: RedirectMap, embed: Embedder): Row {
    Row(claim.id, claim.scope, TextOf(claim),
        Chase(redirects, claim.subject),
        if claim.obj.EntityObject? then Some(Chase(redirects, claim.obj.entityId)) else None,
        embed(TextOf(claim)), claim.validFrom, claim.validTo)
  }

  predicate Active(claim: Option<Claim>) {
    claim.Some? && claim.value.status != Retracted
  }

  type Claims = map<ClaimId, Claim>
  type Rows = map<ClaimId, Row>

  /** Claims read one by one by id; a missing claim fetched as None. */
  type Fetched = map<ClaimId, Option<Claim>>

  predicate FetchedKeyed(fetched: Fetched) {
    forall c :: c in fetched && fetched[c].Some? ==> fetched[c].value.id == c
  }

  function IdsOf(events: Log): set<EventId> {
    set e | e in events :: e.eventId
  }

  function ClaimIds(events: Log): set<ClaimId> {
    set e | e in events && IsClaimEvent(e) :: e.claimId
  }

  function Unprocessed(processed: set<EventId>): DomainEvent -> bool {
    (e: DomainEvent) => IsRelevant(e) && e.eventId !in processed
  }

  /** The relevant events no commit has marked yet. */
  function Pending(log: Log, processed: set<EventId>): Log {
    Sorting.Filter(RelevantEvents(log), Unprocessed(processed))
  }

  lemma PendingMembers(log: Log, processed: set<EventId>)
    ensures forall e :: e in Pending(log, processed) <==> e in log && IsRelevant(e) && e.eventId !in processed
  {
    RelevantMembers(log);
  }

  // ----- what the two transactions write

  function SyncedRows(rows: Rows, fetched: Fetched, redirects: RedirectMap, embed: Embedder): Rows {
    map c | c in rows.Keys + fetched.Keys && (c in fetched ==> Active(fetched[c])) ::
      if c in fetched then Project(fetched[c].value, redirects, embed) else rows[c]
  }

  function RebuiltRows(fetched: Fetched, redirects: RedirectMap, embed: Embedder): Rows {
    map c | c in fetched && Active(fetched[c]) :: Project(fetched[c].value, redirects, embed)
  }

  /** The whole table a rebuild would write for the store as it stands. */
  function FullRows(claims: Claims, log: Log, embed: Embedder): Rows {
    RebuiltRows(ReadAll(claims, ClaimIds(log)), ResolverRedirects(RelevantEvents(log)), embed)
  }

  function ReadAll(claims: Claims, ids: set<ClaimId>): Fetched {
    map c | c in ids :: Lookup(claims, c)
  }

  /** Uninterrupted sync over a store that stands still. */
  function SyncRows(rows: Rows, processed: set<EventId>, claims: Claims, log: Log, embed: Embedder): Rows {
    var pending := Pending(log, processed);
    if pending == [] then rows
    else if exists e :: e in pending && IsIdentityEvent(e) then FullRows(claims, log, embed)
    else SyncedRows(rows, ReadAll(claims, ClaimIds(pending)), ResolverRedirects(RelevantEvents(log)), embed)
  }

  /** The row says what the claim says: its words or its object entity, embedded, between the ids that `m` resolves
      its ends to, over the same scope and interval. */
  ghost predicate States(r: Row, a: Claim, m: RedirectMap, embed: Embedder) {
    && r.claimId == a.id && r.scope == a.scope && r.validFrom == a.validFrom && r.validTo == a.validTo
    && r.body.predicateName == a.predicateName && r.vector == embed(r.body) && r.subjectId == Chase(m, a.subject)
    && (a.obj.LiteralObject? ==> r.body.obj == Words(a.obj.text) && r.objectEntityId == None)
    && (a.obj.EntityObject? ==>
          r.body.obj == EntityName(a.obj.entityId) && r.objectEntityId == Some(Chase(m, a.obj.entityId)))
  }

  /** A rebuilt table has a row for exactly the unretracted claims that a claim event of the log names, and each row
      says what its claim says. */
  lemma RowsStateClaims(claims: Claims, log: Log, embed: Embedder, c: ClaimId)
    requires c in claims ==> claims[c].id == c
    ensures var rows := FullRows(claims, log, embed);
            && (c in rows <==>
                  && c in claims && !claims[c].status.Retracted?
                  && exists e :: e in log && (e.ClaimAsserted? || e.ClaimRetracted?) && e.claimId == c)
            && (c in rows ==> States(rows[c], claims[c], ResolverRedirects(RelevantEvents(log)), embed))
  {}

  lemma SyncOneMore(rows: Rows, done: Fetched, c: ClaimId, claim: Option<Claim>, redirects: RedirectMap,
                    embed: Embedder)
    requires c !in done
    ensures SyncedRows(rows, done[c := claim], redirects, embed) ==
            if Active(claim) then SyncedRows(rows, done, redirects, embed)[c := Project(claim.value, redirects, embed)]
            else SyncedRows(rows, done, redirects, embed) - {c}
  {}

  lemma RebuildOneMore(done: Fetched, c: ClaimId, claim: Option<Claim>, redirects: RedirectMap, embed: Embedder)
    requires c !in done
    ensures RebuiltRows(done[c := claim], redirects, embed) ==
            if Active(claim) then RebuiltRows(done, redirects, embed)[c := Project(claim.value, redirects, embed)]
            else RebuiltRows(done, redirects, embed)
  {}

  lemma SameFetched(a: Fetched, b: Fetched)
    requires a.Keys == b.Keys && forall c :: c in a ==> a[c] == b[c]
    ensures a == b
  {}

  /** The relevant events are listed in time order, so the last is the latest. */
  lemma LatestRelevant(log: Log)
    ensures var events := RelevantEvents(log);
            && (events == [] <==> forall e :: e in log ==> !IsRelevant(e))
            && (events != [] ==>
                  var last := events[|events| - 1];
                  last in log && IsRelevant(last) &&
                  forall e :: e in log && IsRelevant(e) ==> e.occurredAt <= last.occurredAt)
  {
    var events := RelevantEvents(log);
    RelevantMembers(log);
    EventOrderIsTotal();
    Sorting.SortOrders(Sorting.Filter(log, IsRelevant), EventOrder);
    assert events != [] ==> events[|events| - 1] in events;
    forall e | e in events ensures e.occurredAt <= events[|events| - 1].occurredAt {
      var i :| 0 <= i < |events| && events[i] == e;
      assert i < |events| - 1 ==> EventOrder(events[i], events[|events| - 1]);
    }
    if events == [] {
      forall e | e in log ensures !IsRelevant(e) {
        assert e !in events;
      }
    }
  }

  class RetrievalProjection {
    var rows: Rows
    var processed: set<EventId>
    var syncedAt: Option<Timestamp>
    const embed: Embedder

    constructor (embed: Embedder)
      ensures rows == map[] && processed == {} && syncedAt == None && this.embed == embed
    {
      rows, processed, syncedAt := map[], {}, None;
      this.embed := embed;
    }

    method UpsertClaim(claim: Claim, vector: seq<real>, redirects: RedirectMap)
      requires vector == embed(TextOf(claim))
      modifies this`rows
      ensures rows == old(rows)[claim.id := Project(claim, redirects, embed)]
      ensures States(rows[claim.id], claim, redirects, embed)
    {
      var subjectId := ResolveEntity(redirects, claim.subject);
      var objectEntityId := None;
      if claim.obj.EntityObject? {
        var obj := ResolveEntity(redirects, claim.obj.entityId);
        objectEntityId := Some(obj);
      }
      rows := rows[claim.id := Row(claim.id, claim.scope, TextOf(claim), subjectId, objectEntityId,
                                   vector, claim.validFrom, claim.validTo)];
    }

    method MarkProcessed(events: Log)
      modifies this`processed
      ensures processed == old(processed) + IdsOf(events)
    {
      for i := 0 to |events|
        invariant processed == old(processed) + IdsOf(events[..i])
      {
        processed := processed + {events[i].eventId};
        assert events[..i + 1] == events[..i] + [events[i]];
        assert IdsOf(events[..i + 1]) == IdsOf(events[..i]) + {events[i].eventId};
      }
      assert events[..|events|] == events;
    }

    method MarkSynced(now: Timestamp)
      modifies this`syncedAt
      ensures syncedAt == Some(now)
    {
      syncedAt := Some(now);
    }

    /** The sync transaction: delete or upsert each claim read, mark the pending events, stamp the time. */
    method CommitSync(fetched: Fetched, pending: Log, redirects: RedirectMap, now: Timestamp)
      requires FetchedKeyed(fetched)
      modifies this`rows, this`processed, this`syncedAt
      ensures rows == SyncedRows(old(rows), fetched, redirects, embed)
      ensures syncedAt == Some(now)
      ensures processed == old(processed) + IdsOf(pending)
    {
      var todo := fetched.Keys;
      ghost var done: Fetched := map[];
      assert rows == SyncedRows(old(rows), done, redirects, embed);
      while todo != {}
        invariant done.Keys + todo == fetched.Keys && done.Keys !! todo
        invariant forall c :: c in done ==> done[c] == fetched[c]
        invariant rows == SyncedRows(old(rows), done, redirects, embed)
        invariant processed == old(processed)
      {
        var c :| c in todo;
        SyncOneMore(old(rows), done, c, fetched[c], redirects, embed);
        if Active(fetched[c]) {
          UpsertClaim(fetched[c].value, embed(TextOf(fetched[c].value)), redirects);
        } else {
          rows := rows - {c};
        }
        todo, done := todo - {c}, done[c := fetched[c]];
      }
      SameFetched(done, fetched);
      MarkProcessed(pending);
      MarkSynced(now);
    }

    /** The rebuild transaction: empty both tables, upsert every active claim, mark every event, stamp the time. */
    method CommitRebuild(fetched: Fetched, events: Log, redirects: RedirectMap, now: Timestamp)
      requires FetchedKeyed(fetched)
      modifies this`rows, this`processed, this`syncedAt
      ensures rows == RebuiltRows(fetched, redirects, embed)
      ensures syncedAt == Some(now)
      ensures processed == IdsOf(events)
    {
      rows, processed := map[], {};
      var todo := fetched.Keys;
      ghost var done: Fetched := map[];
      assert rows == RebuiltRows(done, redirects, embed);
      while todo != {}
        invariant done.Keys + todo == fetched.Keys && done.Keys !! todo
        invariant forall c :: c in done ==> done[c] == fetched[c]
        invariant rows == RebuiltRows(done, redirects, embed)
        invariant processed == {}
      {
        var c :| c in todo;
        RebuildOneMore(done, c, fetched[c], redirects, embed);
        if Active(fetched[c]) {
          UpsertClaim(fetched[c].value, embed(TextOf(fetched[c].value)), redirects);
        }
        todo, done := todo - {c}, done[c := fetched[c]];
      }
      SameFetched(done, fetched);
      MarkProcessed(events);
      MarkSynced(now);
    }

    method Rebuild(claims: Claims, log: Log, now: Timestamp)
      requires forall c :: c in claims ==> claims[c].id == c
      modifies this`rows, this`processed, this`syncedAt
      ensures rows == FullRows(claims, log, embed)
      ensures syncedAt == Some(now)
      ensures processed == IdsOf(RelevantEvents(log))
    {
      var events := RelevantEvents(log);
      RelevantMembers(log);
      assert ClaimIds(events) == ClaimIds(log);
      var redirects := BuildResolver(events);
      CommitRebuild(ReadAll(claims, ClaimIds(events)), events, redirects, now);
    }

    method Sync(claims: Claims, log: Log, now: Timestamp)
      requires forall c :: c in claims ==> claims[c].id == c
      modifies this`rows, this`processed, this`syncedAt
      ensures syncedAt == if Pending(log, old(processed)) == [] then old(syncedAt) else Some(now)
      ensures rows == SyncRows(old(rows), old(processed), claims, log, embed)
      ensures processed ==
              if exists e :: e in Pending(log, old(processed)) && IsIdentityEvent(e) then IdsOf(RelevantEvents(log))
              else old(processed) + IdsOf(Pending(log, old(processed)))
    {
      var events := RelevantEvents(log);
      var pending := Sorting.Filter(events, Unprocessed(processed));
      if pending == [] {
        return;
      }
      if exists e :: e in pending && IsIdentityEvent(e) {
        Rebuild(claims, log, now);
        return;
      }
      var redirects := BuildResolver(events);
      CommitSync(ReadAll(claims, ClaimIds(pending)), pending, redirects, now);
    }

    /** The pending count and staleness that gate serving, the time of the latest relevant event, and the last sync.
        `indexPresent` says, where vector acceleration is configured, whether its index exists. */
    method Status(log: Log, indexPresent: Option<bool>)
      returns (pendingEvents: nat, stale: bool, latest: Option<Timestamp>, synced: Option<Timestamp>)
      ensures stale <==>
                || (exists e :: e in log && e.eventId !in processed &&
                                (e.ClaimAsserted? || e.ClaimRetracted? || e.EntityMerged? || e.MergeReverted?))
                || indexPresent == Some(false)
      ensures pendingEvents == |Pending(log, processed)|
      ensures pendingEvents > 0 <==> exists e :: e in log && IsRelevant(e) && e.eventId !in processed
      ensures latest.None? <==> forall e :: e in log ==> !IsRelevant(e)
      ensures latest.Some? ==> exists e :: e in log && IsRelevant(e) && e.occurredAt == latest.value
      ensures latest.Some? ==> forall e :: e in log && IsRelevant(e) ==> e.occurredAt <= latest.value
      ensures synced == syncedAt
    {
      var events := RelevantEvents(log);
      var pending := Pending(log, processed);
      PendingMembers(log, processed);
      pendingEvents := |pending|;
      assert pending != [] ==> pending[0] in pending;
      LatestRelevant(log);
      latest := if events == [] then None else Some(events[|events| - 1].occurredAt);
      stale := pendingEvents > 0 || indexPresent == Some(false);
      synced := syncedAt;
    }
  }
}
