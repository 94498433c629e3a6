/** The two physical layouts of the claim store, each refining the same log of writes. */
module ClaimStore {
  import opened Kernel
  import opened ClaimHistory
  import Sorting

  function AsVersions(claim: Option<Claim>): seq<Claim> {
    if claim.Some? then [claim.value] else []
  }

  function WithinScope(claim: Option<Claim>, f: ReadFilter): Option<Claim> {
    if claim.Some? && InScope(claim.value, f) then claim else None
  }

  // ----- listing, one claim id at a time

  /** `listed` holds what the reader returns for the ids already visited. */
  ghost predicate ListsSoFar(listed: seq<Claim>, read: ClaimId -> Option<Claim>, visited: set<ClaimId>) {
    && (forall c :: c in listed ==> c.id in visited && read(c.id) == Some(c))
    && (forall id :: id in visited && read(id).Some? ==> read(id).value in listed)
    && EachClaimOnce(listed)
  }

  lemma VisitNext(listed: seq<Claim>, read: ClaimId -> Option<Claim>, visited: set<ClaimId>, id: ClaimId)
    requires ListsSoFar(listed, read, visited) && id !in visited
    requires read(id).Some? ==> read(id).value.id == id
    ensures ListsSoFar(listed + AsVersions(read(id)), read, visited + {id})
  {
    var next := listed + AsVersions(read(id));
    forall c | c in next ensures c.id in visited + {id} && read(c.id) == Some(c) {}
    forall x | x in visited + {id} && read(x).Some? ensures read(x).value in next {
      if x != id {
        assert read(x).value in listed;
      } else {
        assert next[|listed|] == read(id).value;
      }
    }
    forall i, j | 0 <= i < j < |next| ensures next[i].id != next[j].id {
      assert next[i] == listed[i] && listed[i] in listed;
    }
  }

  lemma VisitedAll(listed: seq<Claim>, read: ClaimId -> Option<Claim>, visited: set<ClaimId>)
    requires ListsSoFar(listed, read, visited)
    requires forall id :: id !in visited ==> read(id).None?
    ensures Lists(listed, read)
  {}

  // ----- versions of one claim

  lemma VersionsAppend(writes: Writes, claim: Claim, id: ClaimId)
    ensures Versions(writes + [claim], id) == Versions(writes, id) + if claim.id == id then [claim] else []
  {
    Sorting.FilterAppend(writes, [claim], VersionOf(id));
    assert [claim][..0] == [];
  }

  lemma LatestKnownIn(versions: seq<Claim>, knownAt: Option<Timestamp>)
    ensures LatestKnownAt(versions, knownAt).Some? ==> LatestKnownAt(versions, knownAt).value in versions
  {
    if knownAt.Some? {
      LatestKnownIsLatest(versions, knownAt.value);
    } else {
      LastIn(versions);
    }
  }

  lemma ReadsOwnVersions(writes: Writes, f: ReadFilter, id: ClaimId)
    ensures MemoryRead(writes, f, id).Some? ==> MemoryRead(writes, f, id).value in Versions(writes, id)
    ensures RecordRead(writes, f, id).Some? ==> RecordRead(writes, f, id).value in Versions(writes, id)
  {
    LatestKnownIn(Versions(writes, id), f.temporal.knownAt);
    LatestKnownIn(Sorting.Filter(Versions(writes, id), ScopedTo(f)), f.temporal.knownAt);
    LastIn(Versions(writes, id));
  }

  lemma UnwrittenReadsNothing(writes: Writes, f: ReadFilter, id: ClaimId)
    requires Versions(writes, id) == []
    ensures MemoryRead(writes, f, id) == None && RecordRead(writes, f, id) == None
  {
    ReadsOwnVersions(writes, f, id);
  }

  // ----- the in-memory layout

  function HistoryIn(claimHistory: map<ClaimId, seq<Claim>>, id: ClaimId): seq<Claim> {
    if id in claimHistory then claimHistory[id] else []
  }

  /** Every claim's history and current version, read in order, are its writes. */
  ghost predicate HistoryRefines(claims: map<ClaimId, Claim>, claimHistory: map<ClaimId, seq<Claim>>, writes: Writes) {
    && (forall id :: Versions(writes, id) == HistoryIn(claimHistory, id) + AsVersions(Lookup(claims, id)))
    && (forall id :: HistoryIn(claimHistory, id) != [] ==> id in claims)
  }

  lemma WriteRefines(claims: map<ClaimId, Claim>, before: map<ClaimId, seq<Claim>>, after: map<ClaimId, seq<Claim>>,
                     writes: Writes, claim: Claim)
    requires HistoryRefines(claims, before, writes)
    requires forall id :: HistoryIn(after, id) ==
               HistoryIn(before, id) + if id == claim.id then AsVersions(Lookup(claims, id)) else []
    ensures HistoryRefines(claims[claim.id := claim], after, writes + [claim])
  {
    var put := claims[claim.id := claim];
    forall id ensures Versions(writes + [claim], id) == HistoryIn(after, id) + AsVersions(Lookup(put, id)) {
      VersionsAppend(writes, claim, id);
    }
  }

  method PushVisible(listed: seq<Claim>, claim: Option<Claim>, temporal: Temporal) returns (r: seq<Claim>)
    ensures r == listed + AsVersions(Visible(claim, temporal))
  {
    r := listed;
    if claim.Some? && ClaimVisibleAt(claim.value, temporal) {
      r := listed + [claim.value];
    }
  }

  function MemoryVersions(claims: map<ClaimId, Claim>, claimHistory: map<ClaimId, seq<Claim>>, id: ClaimId): seq<Claim>
    requires id in claims
  {
    HistoryIn(claimHistory, id) + [claims[id]]
  }

  lemma MemoryNext(listed: seq<Claim>, claims: map<ClaimId, Claim>, claimHistory: map<ClaimId, seq<Claim>>,
                   writes: Writes, f: ReadFilter, todo: set<ClaimId>, id: ClaimId)
    requires HistoryRefines(claims, claimHistory, writes)
    requires id in todo && todo <= claims.Keys
    requires ListsSoFar(listed, MemoryReader(writes, f), claims.Keys - todo)
    ensures var visible := LatestKnownAt(MemoryVersions(claims, claimHistory, id), f.temporal.knownAt);
            ListsSoFar(if InScope(claims[id], f) then listed + AsVersions(Visible(visible, f.temporal)) else listed,
                       MemoryReader(writes, f), claims.Keys - (todo - {id}))
  {
    var read := MemoryReader(writes, f);
    var versions := MemoryVersions(claims, claimHistory, id);
    assert Versions(writes, id) == versions && Last(versions) == Some(claims[id]);
    ReadsOwnVersions(writes, f, id);
    VisitNext(listed, read, claims.Keys - todo, id);
    assert claims.Keys - (todo - {id}) == claims.Keys - todo + {id};
    assert !InScope(claims[id], f) ==> listed + AsVersions(read(id)) == listed;
  }

  lemma MemoryDone(listed: seq<Claim>, claims: map<ClaimId, Claim>, claimHistory: map<ClaimId, seq<Claim>>,
                   writes: Writes, f: ReadFilter)
    requires HistoryRefines(claims, claimHistory, writes)
    requires ListsSoFar(listed, MemoryReader(writes, f), claims.Keys - {})
    ensures Lists(listed, MemoryReader(writes, f))
  {
    var read := MemoryReader(writes, f);
    forall id | id !in claims ensures read(id).None? {
      UnwrittenReadsNothing(writes, f, id);
    }
    VisitedAll(listed, read, claims.Keys - {});
  }

  /** The loop of `listClaims`: scope is checked on the current version. */
  method ListCurrentVersions(claims: map<ClaimId, Claim>, claimHistory: map<ClaimId, seq<Claim>>, f: ReadFilter,
                             ghost writes: Writes)
    returns (listed: seq<Claim>)
    requires HistoryRefines(claims, claimHistory, writes)
    ensures Lists(listed, MemoryReader(writes, f))
  {
    listed := [];
    var todo := claims.Keys;
    while todo != {}
      invariant todo <= claims.Keys
      invariant ListsSoFar(listed, MemoryReader(writes, f), claims.Keys - todo)
      decreases |todo|
    {
      var id :| id in todo;
      MemoryNext(listed, claims, claimHistory, writes, f, todo, id);
      todo := todo - {id};
      if !InScope(claims[id], f) {
        continue;
      }
      var versions := (if id in claimHistory then claimHistory[id] else []) + [claims[id]];
      var visible := LatestKnownAt(versions, f.temporal.knownAt);
      listed := PushVisible(listed, visible, f.temporal);
    }
    MemoryDone(listed, claims, claimHistory, writes, f);
  }

  /** A map of current claims beside a history list per claim. */
  class MemoryStore {
    var claims: map<ClaimId, Claim>
    var claimHistory: map<ClaimId, seq<Claim>>
    ghost var writes: Writes

    ghost predicate Valid()
      reads this
    {
      HistoryRefines(claims, claimHistory, writes)
    }

    constructor ()
      ensures Valid() && writes == []
    {
      claims, claimHistory, writes := map[], map[], [];
    }

    method RememberCurrentClaim(id: ClaimId)
      modifies this`claimHistory
      ensures forall x :: HistoryIn(claimHistory, x) ==
                old(HistoryIn(claimHistory, x)) + if x == id then AsVersions(Lookup(claims, x)) else []
    {
      if id !in claims {
        return;
      }
      var history := if id in claimHistory then claimHistory[id] else [];
      claimHistory := claimHistory[id := history + [claims[id]]];
    }

    method AssertClaim(claim: Claim)
      requires Valid()
      modifies this
      ensures Valid() && writes == old(writes) + [claim]
    {
      RememberCurrentClaim(claim.id);
      WriteRefines(claims, old(claimHistory), claimHistory, writes, claim);
      claims := claims[claim.id := claim];
      writes := writes + [claim];
    }

    /** A retraction is a write like any other: a new version whose status is `Retracted`. */
    method RetractClaim(claim: Claim)
      requires Valid()
      modifies this
      ensures Valid() && writes == old(writes) + [claim]
    {
      RememberCurrentClaim(claim.id);
      WriteRefines(claims, old(claimHistory), claimHistory, writes, claim);
      claims := claims[claim.id := claim];
      writes := writes + [claim];
    }

    method GetClaim(id: ClaimId) returns (claim: Option<Claim>)
      requires Valid()
      ensures claim == Last(Versions(writes, id))
    {
      claim := Lookup(claims, id);
    }

    method ListClaims(f: ReadFilter) returns (listed: seq<Claim>)
      requires Valid()
      ensures Lists(listed, MemoryReader(writes, f))
    {
      listed := ListCurrentVersions(claims, claimHistory, f, writes);
    }
  }

  // ----- the record layout

  /** The versions that a record store hands to `listClaims`: the scoped history, then the scoped current
      rows. */
  lemma ScopedVersions(history: seq<Claim>, current: seq<Claim>, row: Option<Claim>, versions: seq<Claim>,
                       f: ReadFilter, id: ClaimId)
    requires Versions(current, id) == AsVersions(WithinScope(row, f))
    requires versions == Versions(history, id) + AsVersions(row)
    ensures Versions(Sorting.Filter(history, ScopedTo(f)) + current, id) == Sorting.Filter(versions, ScopedTo(f))
  {
    Sorting.FilterAppend(Sorting.Filter(history, ScopedTo(f)), current, VersionOf(id));
    Sorting.FilterAppend(Versions(history, id), AsVersions(row), ScopedTo(f));
    ScopedVersionsCommute(history, f, id);
    assert Sorting.Filter(AsVersions(row), ScopedTo(f)) == AsVersions(WithinScope(row, f)) by {
      if row.Some? {
        assert [row.value][..0] == [];
      }
    }
  }

  function ScopedVersionOf(f: ReadFilter, id: ClaimId): Claim -> bool {
    (c: Claim) => c.id == id && InScope(c, f)
  }

  lemma ScopedVersionsCommute(history: seq<Claim>, f: ReadFilter, id: ClaimId)
    ensures Versions(Sorting.Filter(history, ScopedTo(f)), id) == Sorting.Filter(Versions(history, id), ScopedTo(f))
  {
    Sorting.FilterNested(history, ScopedTo(f), VersionOf(id), ScopedVersionOf(f, id));
    Sorting.FilterNested(history, VersionOf(id), ScopedTo(f), ScopedVersionOf(f, id));
  }

  /** The groups hold each claim's versions in reading order. */
  ghost predicate Grouped(groups: map<ClaimId, seq<Claim>>, versions: seq<Claim>) {
    forall id :: (id in groups <==> Versions(versions, id) != []) &&
                 (id in groups ==> groups[id] == Versions(versions, id))
  }

  method GroupVersions(versions: seq<Claim>) returns (groups: map<ClaimId, seq<Claim>>)
    ensures Grouped(groups, versions)
  {
    groups := map[];
    for i := 0 to |versions|
      invariant Grouped(groups, versions[..i])
    {
      var claim := versions[i];
      assert versions[..i + 1] == versions[..i] + [claim];
      forall id ensures Versions(versions[..i + 1], id) ==
                        Versions(versions[..i], id) + if claim.id == id then [claim] else [] {
        VersionsAppend(versions[..i], claim, id);
      }
      var group := if claim.id in groups then groups[claim.id] else [];
      groups := groups[claim.id := group + [claim]];
    }
    assert versions[..|versions|] == versions;
  }

  ghost predicate GroupsScoped(groups: map<ClaimId, seq<Claim>>, writes: Writes, f: ReadFilter) {
    forall id :: (id in groups <==> Sorting.Filter(Versions(writes, id), ScopedTo(f)) != []) &&
                 (id in groups ==> groups[id] == Sorting.Filter(Versions(writes, id), ScopedTo(f)))
  }

  lemma GroupRead(groups: map<ClaimId, seq<Claim>>, writes: Writes, f: ReadFilter, id: ClaimId)
    requires f.temporal.knownAt.Some? && GroupsScoped(groups, writes, f)
    ensures RecordRead(writes, f, id) ==
            if id in groups then Visible(LatestKnownAt(groups[id], f.temporal.knownAt), f.temporal) else None
    ensures RecordRead(writes, f, id).Some? ==> RecordRead(writes, f, id).value.id == id
  {
    if id !in groups {
      LatestKnownIn([], f.temporal.knownAt);
    }
    ReadsOwnVersions(writes, f, id);
  }

  /** The groups' versions determine the read of every claim. */
  ghost predicate GroupsDecide(groups: map<ClaimId, seq<Claim>>, temporal: Temporal, read: ClaimId -> Option<Claim>) {
    forall id :: read(id) == GroupVisible(groups, temporal, id) && (read(id).Some? ==> read(id).value.id == id)
  }

  function GroupVisible(groups: map<ClaimId, seq<Claim>>, temporal: Temporal, id: ClaimId): Option<Claim> {
    if id in groups then Visible(LatestKnownAt(groups[id], temporal.knownAt), temporal) else None
  }

  lemma GroupNext(listed: seq<Claim>, groups: map<ClaimId, seq<Claim>>, temporal: Temporal,
                  read: ClaimId -> Option<Claim>, todo: set<ClaimId>, id: ClaimId)
    requires GroupsDecide(groups, temporal, read) && id in todo && todo <= groups.Keys
    requires ListsSoFar(listed, read, groups.Keys - todo)
    ensures ListsSoFar(listed + AsVersions(GroupVisible(groups, temporal, id)), read, groups.Keys - (todo - {id}))
  {
    VisitNext(listed, read, groups.Keys - todo, id);
    assert groups.Keys - (todo - {id}) == groups.Keys - todo + {id};
  }

  /** One visible version of every group. */
  method ListGroups(groups: map<ClaimId, seq<Claim>>, temporal: Temporal, ghost read: ClaimId -> Option<Claim>)
    returns (listed: seq<Claim>)
    requires GroupsDecide(groups, temporal, read)
    ensures Lists(listed, read)
  {
    listed := [];
    var todo := groups.Keys;
    while todo != {}
      invariant todo <= groups.Keys
      invariant ListsSoFar(listed, read, groups.Keys - todo)
      decreases |todo|
    {
      var id :| id in todo;
      GroupNext(listed, groups, temporal, read, todo, id);
      todo := todo - {id};
      var claim := LatestKnownAt(groups[id], temporal.knownAt);
      listed := PushVisible(listed, claim, temporal);
    }
    VisitedAll(listed, read, groups.Keys - todo);
  }

  /** `rows` holds the in-scope records of the ids already visited. */
  ghost predicate RowsSoFar(rows: seq<Claim>, records: map<ClaimId, Claim>, f: ReadFilter, visited: set<ClaimId>) {
    forall id :: Versions(rows, id) == if id in visited then AsVersions(WithinScope(Lookup(records, id), f)) else []
  }

  lemma RowNext(rows: seq<Claim>, records: map<ClaimId, Claim>, f: ReadFilter, visited: set<ClaimId>, id: ClaimId)
    requires RowsSoFar(rows, records, f, visited) && id in records && id !in visited && records[id].id == id
    ensures RowsSoFar(if InScope(records[id], f) then rows + [records[id]] else rows, records, f, visited + {id})
  {
    forall x ensures Versions(rows + [records[id]], x) == Versions(rows, x) + if x == id then [records[id]] else [] {
      VersionsAppend(rows, records[id], x);
    }
  }

  /** The rows of one scope, each once, in an order the database chooses. */
  method SelectRows(records: map<ClaimId, Claim>, f: ReadFilter) returns (rows: seq<Claim>)
    requires forall id :: id in records ==> records[id].id == id
    ensures RowsSoFar(rows, records, f, records.Keys)
  {
    rows := [];
    var todo := records.Keys;
    while todo != {}
      invariant todo <= records.Keys
      invariant RowsSoFar(rows, records, f, records.Keys - todo)
      decreases |todo|
    {
      var id :| id in todo;
      RowNext(rows, records, f, records.Keys - todo, id);
      assert records.Keys - (todo - {id}) == records.Keys - todo + {id};
      todo := todo - {id};
      if InScope(records[id], f) {
        rows := rows + [records[id]];
      }
    }
    assert records.Keys - todo == records.Keys;
  }

  /** Every claim's superseded records and current record, read in order, are its writes. */
  ghost predicate RecordsRefine(records: map<ClaimId, Claim>, recordHistory: seq<Claim>, writes: Writes) {
    && (forall id :: Versions(writes, id) == Versions(recordHistory, id) + AsVersions(Lookup(records, id)))
    && (forall id :: Versions(recordHistory, id) != [] ==> id in records)
    && (forall id :: id in records ==> records[id].id == id)
  }

  lemma Supersede(records: map<ClaimId, Claim>, recordHistory: seq<Claim>, superseded: ClaimId, id: ClaimId)
    requires superseded in records ==> records[superseded].id == superseded
    ensures Versions(recordHistory + AsVersions(Lookup(records, superseded)), id) ==
            Versions(recordHistory, id) + if id == superseded then AsVersions(Lookup(records, superseded)) else []
  {
    if superseded in records {
      VersionsAppend(recordHistory, records[superseded], id);
    } else {
      assert recordHistory + [] == recordHistory;
    }
  }

  lemma PutRefinesAt(records: map<ClaimId, Claim>, recordHistory: seq<Claim>, writes: Writes, claim: Claim,
                     id: ClaimId)
    requires RecordsRefine(records, recordHistory, writes)
    ensures var after := recordHistory + AsVersions(Lookup(records, claim.id));
            && Versions(writes + [claim], id) ==
               Versions(after, id) + AsVersions(Lookup(records[claim.id := claim], id))
            && (Versions(after, id) != [] ==> id in records || id == claim.id)
  {
    VersionsAppend(writes, claim, id);
    Supersede(records, recordHistory, claim.id, id);
    assert Versions(writes, id) == Versions(recordHistory, id) + AsVersions(Lookup(records, id));
  }

  lemma PutRefines(records: map<ClaimId, Claim>, recordHistory: seq<Claim>, writes: Writes, claim: Claim)
    requires RecordsRefine(records, recordHistory, writes)
    ensures RecordsRefine(records[claim.id := claim], recordHistory + AsVersions(Lookup(records, claim.id)),
                          writes + [claim])
  {
    forall id: ClaimId {
      PutRefinesAt(records, recordHistory, writes, claim, id);
    }
  }

  /** A table of current records beside one table of superseded ones, in write order. */
  class RecordStore {
    var records: map<ClaimId, Claim>
    var recordHistory: seq<Claim>
    ghost var writes: Writes

    ghost predicate Valid()
      reads this
    {
      RecordsRefine(records, recordHistory, writes)
    }

    constructor ()
      ensures Valid() && writes == []
    {
      records, recordHistory, writes := map[], [], [];
    }

    method PutRecord(claim: Claim)
      requires Valid()
      modifies this
      ensures Valid() && writes == old(writes) + [claim]
    {
      PutRefines(records, recordHistory, writes, claim);
      if claim.id in records {
        recordHistory := recordHistory + [records[claim.id]];
      } else {
        assert recordHistory + AsVersions(Lookup(records, claim.id)) == recordHistory;
      }
      records := records[claim.id := claim];
      writes := writes + [claim];
    }

    method GetRecord(id: ClaimId) returns (claim: Option<Claim>)
      requires Valid()
      ensures claim == Last(Versions(writes, id)) && claim == Lookup(records, id)
    {
      claim := Lookup(records, id);
    }

    method ListRecords(f: ReadFilter) returns (rows: seq<Claim>)
      requires Valid()
      ensures forall id :: Versions(rows, id) == AsVersions(WithinScope(Lookup(records, id), f))
    {
      rows := SelectRows(records, f);
    }

    method ListHistoricalRecords(f: ReadFilter) returns (rows: seq<Claim>)
      ensures rows == Sorting.Filter(recordHistory, ScopedTo(f))
    {
      rows := Sorting.Filter(recordHistory, ScopedTo(f));
    }

    method ListClaims(f: ReadFilter) returns (listed: seq<Claim>)
      requires Valid()
      ensures Lists(listed, RecordReader(writes, f))
    {
      var current := ListRecords(f);
      if f.temporal.knownAt.None? {
        listed := ListCurrent(current, f);
      } else {
        var history := ListHistoricalRecords(f);
        var groups := GroupVersions(history + current);
        forall id ensures Versions(history + current, id) == Sorting.Filter(Versions(writes, id), ScopedTo(f)) {
          ScopedVersions(recordHistory, current, Lookup(records, id), Versions(writes, id), f, id);
        }
        forall id { GroupRead(groups, writes, f, id); }
        listed := ListGroups(groups, f.temporal, RecordReader(writes, f));
      }
    }

    method ListCurrent(current: seq<Claim>, f: ReadFilter) returns (listed: seq<Claim>)
      requires Valid() && f.temporal.knownAt.None?
      requires forall id :: Versions(current, id) == AsVersions(WithinScope(Lookup(records, id), f))
      ensures Lists(listed, RecordReader(writes, f))
    {
      listed := Sorting.Filter(current, VisibleIn(f.temporal));
      CurrentLists(current, f);
    }

    lemma CurrentRead(f: ReadFilter, id: ClaimId)
      requires Valid() && f.temporal.knownAt.None?
      ensures RecordRead(writes, f, id) ==
              if id in records && InScope(records[id], f) && ClaimVisibleAt(records[id], f.temporal)
              then Some(records[id]) else None
    {
      assert Versions(writes, id) == Versions(recordHistory, id) + AsVersions(Lookup(records, id));
    }

    lemma CurrentLists(current: seq<Claim>, f: ReadFilter)
      requires Valid() && f.temporal.knownAt.None?
      requires forall id :: Versions(current, id) == AsVersions(WithinScope(Lookup(records, id), f))
      ensures Lists(Sorting.Filter(current, VisibleIn(f.temporal)), RecordReader(writes, f))
    {
      var listed := Sorting.Filter(current, VisibleIn(f.temporal));
      forall c ensures c in current <==> c.id in records && c == records[c.id] && InScope(c, f) {
        assert c in current <==> c in Versions(current, c.id);
      }
      forall c | c in listed ensures RecordRead(writes, f, c.id) == Some(c) {
        CurrentRead(f, c.id);
      }
      forall id | RecordRead(writes, f, id).Some? ensures RecordRead(writes, f, id).value in listed {
        CurrentRead(f, id);
      }
      forall id ensures |Versions(current, id)| <= 1 {}
      AtMostOnce(current, VisibleIn(f.temporal));
    }

    /** The single-claim read of lexical search: it ignores scope. */
    method ClaimKnownAt(id: ClaimId, knownAt: Option<Timestamp>) returns (claim: Option<Claim>)
      requires Valid()
      ensures claim == LatestKnownAt(Versions(writes, id), knownAt)
    {
      var current := GetRecord(id);
      if current.None? {
        LatestKnownIn([], knownAt);
        return None;
      }
      if knownAt.None? {
        return current;
      }
      var history := Sorting.Filter(recordHistory, VersionOf(id));
      claim := LatestKnownAt(history + [current.value], knownAt);
    }
  }

  function VisibleIn(temporal: Temporal): Claim -> bool {
    (c: Claim) => ClaimVisibleAt(c, temporal)
  }

  lemma {:induction false} AtMostOnce(rows: seq<Claim>, keep: Claim -> bool)
    requires forall id :: |Versions(rows, id)| <= 1
    ensures EachClaimOnce(Sorting.Filter(rows, keep))
  {
    if rows != [] {
      var front, last := rows[..|rows| - 1], rows[|rows| - 1];
      assert rows == front + [last];
      forall id ensures |Versions(front, id)| <= 1 && (id == last.id ==> Versions(front, id) == []) {
        VersionsAppend(front, last, id);
      }
      AtMostOnce(front, keep);
      forall c | c in Sorting.Filter(front, keep) ensures c.id != last.id {
        assert c in Versions(front, c.id);
      }
      var before, kept := Sorting.Filter(front, keep), Sorting.Filter(rows, keep);
      assert kept == before + if keep(last) then [last] else [];
      forall i, j | 0 <= i < j < |kept| ensures kept[i].id != kept[j].id {
        assert kept[i] == before[i] && before[i] in before;
        assert kept[j] == if j < |before| then before[j] else last;
      }
    }
  }
}
