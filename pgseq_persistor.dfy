/** The persistor for the PostgreSQL sequence dialect: each entry lifecycle operation as one
    statement over the outbox table. The database is the table, the sequence txno_outbox_seq_seq
    and the batch of inserts queued on the current transaction. */
module PgSeqPersistorModel {
  import opened Common
  import opened OutboxEntry
  import opened OutboxTable
  import PgSeqDialect
  import Dialects

  const TableName: string := "TXNO_OUTBOX"

  /** Seconds a lock or unblock statement may wait for a row lock. */
  const WriteLockTimeoutSeconds: int := 2

  /** The orderedTakeLast column's default, used for rows inserted without the topic columns
      (the migration that adds the column is not part of this model). */
  const DefaultOrderedTakeLast: bool := false

  datatype SaveError =
    | AlreadyScheduled(message: string)
    | SqlFailure(cause: string)

  /** What the insert statement of save did. */
  datatype InsertResult = Queued | Stored | Duplicate | Failed(cause: string)

  datatype OptimisticLockException = OptimisticLockException

  /** Executing the batch failed on a duplicate primary key. */
  datatype BatchError = DuplicateKey(id: Id)

  /** The row an insert writes for an entry. Without a topic the topic, seq and orderedTakeLast
      columns are not written and take their defaults ('*', the sequence, false); the seq default
      is drawn when the row is stored, so it is absent here. */
  function InsertedRow(e: EntryState, blob: Blob): (r: Row)
    requires e.id.Some?
    ensures r.id == e.id.value && r.uniqueRequestId == e.uniqueRequestId && r.invocation == blob
    ensures e.topic.Some? ==> r.topic == e.topic.value && r.sequence == e.sequence && r.orderedTakeLast == e.orderedTakeLast
    ensures e.topic.None? ==> r.topic == UnorderedTopic && r.sequence.None? && r.orderedTakeLast == DefaultOrderedTakeLast
  {
    Row(e.id.value, e.uniqueRequestId, blob,
        if e.topic.Some? then e.topic.value else UnorderedTopic,
        if e.topic.Some? then e.sequence else None,
        e.lastAttemptTime, e.nextAttemptTime, e.attempts, e.blocked, e.processed, e.version,
        if e.topic.Some? then e.orderedTakeLast else DefaultOrderedTakeLast)
  }

  /** Reading a row back into an entry: topic '*' means no topic; the invocation is deserialised. */
  function MapRow(deserialize: Blob -> Invocation, r: Row): EntryState {
    EntryState(
      id := Some(r.id),
      uniqueRequestId := r.uniqueRequestId,
      topic := if r.topic == UnorderedTopic then None else Some(r.topic),
      orderedTakeLast := r.orderedTakeLast,
      sequence := r.sequence,
      invocation := Some(deserialize(r.invocation)),
      lastAttemptTime := r.lastAttemptTime,
      nextAttemptTime := r.nextAttemptTime,
      attempts := r.attempts,
      blocked := r.blocked,
      processed := r.processed,
      version := r.version)
  }

  /** An entry with a topic reads back as saved, apart from the invocation, which is replaced by
      the deserialised stored text. */
  lemma TopicEntryReadsBack(deserialize: Blob -> Invocation, e: EntryState, blob: Blob)
    requires e.id.Some? && e.topic.Some? && e.topic != Some(ReservedTopic)
    ensures MapRow(deserialize, InsertedRow(e, blob)) == e.(invocation := Some(deserialize(blob)))
  {
  }

  /** An entry without a topic reads back with the seq and orderedTakeLast the column defaults
      gave it. */
  lemma UntopicedEntryReadsBack(deserialize: Blob -> Invocation, e: EntryState, blob: Blob, drawn: int)
    requires e.id.Some? && e.topic.None?
    ensures MapRow(deserialize, InsertedRow(e, blob).(sequence := Some(drawn)))
         == e.(invocation := Some(deserialize(blob)), sequence := Some(drawn), orderedTakeLast := DefaultOrderedTakeLast)
  {
  }

  /** The topic "*" does not survive the round trip; validation is what keeps it out. */
  lemma ReservedTopicIsLost(deserialize: Blob -> Invocation, e: EntryState, blob: Blob)
    requires e.id.Some? && e.topic == Some(ReservedTopic)
    ensures MapRow(deserialize, InsertedRow(e, blob)).topic.None?
    ensures !IsValid(e)
  {
  }

  /** The columns update writes; id, uniqueRequestId, invocation, topic, seq and orderedTakeLast
      stay as stored. */
  function UpdatedRow(stored: Row, e: EntryState): (r: Row)
    ensures r.id == stored.id && r.uniqueRequestId == stored.uniqueRequestId && r.invocation == stored.invocation
    ensures r.topic == stored.topic && r.sequence == stored.sequence && r.orderedTakeLast == stored.orderedTakeLast
    ensures r.version == e.version + 1
  {
    stored.(lastAttemptTime := e.lastAttemptTime, nextAttemptTime := e.nextAttemptTime, attempts := e.attempts,
            blocked := e.blocked, processed := e.processed, version := e.version + 1)
  }

  // ---------------------------------------------------------------------------------------------
  // What the database keeps true

  /** A stored row's identifying columns are unique: the primary key id, the unique index on
      uniqueRequestId, and seq drawn from one sequence (so below its next value). Queued rows
      have no uniqueRequestId (only those are queued) and any seq they carry is also fresh. */
  predicate StoreInvariant(t: Table, b: seq<Row>, next: int) {
    && KeyedById(t)
    && (forall id :: id in t ==> t[id].sequence.Some? && t[id].sequence.value < next)
    && (forall x, y :: x in t && y in t && x != y ==> t[x].sequence != t[y].sequence)
    && (forall x, y :: x in t && y in t && x != y && t[x].uniqueRequestId.Some? ==>
          t[x].uniqueRequestId != t[y].uniqueRequestId)
    && (forall j :: 0 <= j < |b| ==> b[j].uniqueRequestId.None?)
    && (forall j :: 0 <= j < |b| && b[j].sequence.Some? ==> b[j].sequence.value < next)
    && (forall j, id :: 0 <= j < |b| && id in t && b[j].sequence.Some? ==> b[j].sequence != t[id].sequence)
    && (forall j, k :: 0 <= j < k < |b| && b[j].sequence.Some? ==> b[j].sequence != b[k].sequence)
  }

  /** So the table meets what the dialect lemmas assume about topics. */
  lemma StoreHasDistinctTopicSeqs(t: Table, b: seq<Row>, next: int)
    requires StoreInvariant(t, b, next)
    ensures Dialects.TopicSeqsDistinct(t)
    ensures forall x, y :: (x in t && y in t && x != y && PgSeqDialect.TakeLast(t[x]) && PgSeqDialect.TakeLast(t[y])) ==>
      t[x].sequence.Some? && t[x].sequence != t[y].sequence
  {
    forall a, c | a in t.Values && c in t.Values && a != c
      ensures a.sequence != c.sequence
    {
      var x :| x in t && t[x] == a;
      var y :| y in t && t[y] == c;
    }
  }

  /** Whether storing the row breaks the primary key or the unique index on uniqueRequestId. */
  predicate Conflicts(t: Table, row: Row) {
    exists id :: id in t && (id == row.id || (row.uniqueRequestId.Some? && t[id].uniqueRequestId == row.uniqueRequestId))
  }

  /** Whether the queued rows can all be stored: their ids are new and distinct. */
  predicate BatchInsertable(t: Table, b: seq<Row>) {
    && (forall j :: 0 <= j < |b| ==> b[j].id !in t)
    && (forall j, k :: 0 <= j < k < |b| ==> b[j].id != b[k].id)
  }

  /** A stored row is the queued one with a seq, its own if it had one. */
  predicate StoredFrom(stored: Row, queued: Row) {
    && stored.sequence.Some?
    && stored == queued.(sequence := stored.sequence)
    && (queued.sequence.Some? ==> stored.sequence == queued.sequence)
  }

  class PgSeqPersistor {
    const serialize: Option<Invocation> -> Blob
    const deserialize: Blob -> Invocation

    /** The outbox table. */
    var table: Table
    /** What nextval('txno_outbox_seq_seq') returns next. */
    var nextSeq: int
    /** Inserts added to the transaction's batch and not yet executed. */
    var batch: seq<Row>

    predicate Valid()
      reads this
    {
      StoreInvariant(table, batch, nextSeq)
    }

    constructor (serialize: Option<Invocation> -> Blob, deserialize: Blob -> Invocation)
      ensures Valid()
      ensures this.serialize == serialize && this.deserialize == deserialize
      ensures table == map[] && batch == [] && nextSeq == 1
    {
      this.serialize := serialize;
      this.deserialize := deserialize;
      table := map[];
      nextSeq := 1;
      batch := [];
    }

    /** save: an entry with a topic first draws its seq from the sequence. Without a
        uniqueRequestId the insert joins the batch; with one it runs at once, and a key that is
        already present makes it fail with AlreadyScheduled. Any other failure (otherFailure)
        is passed on. The description is logged, and so cached, on success and on
        AlreadyScheduled. */
    method Save(entry: TransactionOutboxEntry, otherFailure: Option<string>) returns (r: Outcome<SaveError>)
      requires Valid() && entry.state.id.Some? && (entry.initialized || entry.state.invocation.Some?)
      modifies this`table, this`nextSeq, this`batch, entry`state, entry`initialized, entry`description
      ensures Valid()
      ensures old(entry.state.topic).Some? ==> entry.state == old(entry.state).(sequence := Some(old(nextSeq)))
      ensures old(entry.state.topic).None? ==> entry.state == old(entry.state)
      ensures entry.state.uniqueRequestId.None? ==>
        && r.Pass?
        && batch == old(batch) + [InsertedRow(entry.state, serialize(entry.state.invocation))]
        && table == old(table)
        && nextSeq == old(nextSeq) + (if entry.state.topic.Some? then 1 else 0)
      ensures entry.state.uniqueRequestId.Some? && otherFailure.Some? ==>
        && r == Fail(SqlFailure(otherFailure.value))
        && table == old(table) && batch == old(batch)
        && nextSeq == old(nextSeq) + (if entry.state.topic.Some? then 1 else 0)
      ensures entry.state.uniqueRequestId.Some? && otherFailure.None?
              && Conflicts(old(table), InsertedRow(entry.state, serialize(entry.state.invocation))) ==>
        && r == Fail(AlreadyScheduled("Request " + entry.description + " already exists"))
        && table == old(table) && batch == old(batch)
        && nextSeq == old(nextSeq) + 1
      ensures entry.state.uniqueRequestId.Some? && otherFailure.None?
              && !Conflicts(old(table), InsertedRow(entry.state, serialize(entry.state.invocation))) ==>
        var row := InsertedRow(entry.state, serialize(entry.state.invocation));
        && r.Pass?
        && batch == old(batch)
        && nextSeq == old(nextSeq) + 1
        && table == old(table)[row.id := row.(sequence := Some(old(nextSeq)))]
      ensures r.Pass? || r.error.AlreadyScheduled? ==>
        && entry.initialized
        && (old(entry.initialized) ==> entry.description == old(entry.description))
        && (!old(entry.initialized) ==> entry.description == DescriptionOf(entry.state))
      ensures r.Fail? && r.error.SqlFailure? ==>
        entry.initialized == old(entry.initialized) && entry.description == old(entry.description)
    {
      var blob := serialize(entry.state.invocation);
      ghost var low := nextSeq;
      DrawSequence(entry);
      var row := InsertedRow(entry.state, blob);
      var written := Insert(row, otherFailure, low);
      r := SaveOutcome(entry, written);
    }

    /** setNextSequence: an entry with a topic takes the sequence's next value. */
    method DrawSequence(entry: TransactionOutboxEntry)
      requires Valid()
      modifies this`nextSeq, entry`state
      ensures Valid() && table == old(table) && batch == old(batch)
      ensures old(entry.state.topic).Some? ==>
        entry.state == old(entry.state).(sequence := Some(old(nextSeq))) && nextSeq == old(nextSeq) + 1
      ensures old(entry.state.topic).None? ==> entry.state == old(entry.state) && nextSeq == old(nextSeq)
    {
      if entry.state.topic.Some? {
        entry.SetSequence(Some(nextSeq));
        nextSeq := nextSeq + 1;
      }
    }

    /** The insert statement of save: queued on the batch without a uniqueRequestId, otherwise
        executed at once. A seq the row carries was drawn from the sequence at or after low. A row
        without one takes the seq column's default while it is built, before the unique indexes
        are checked, so a duplicate still uses up a value of the sequence. */
    method Insert(row: Row, otherFailure: Option<string>, ghost low: int) returns (res: InsertResult)
      requires StoreInvariant(table, batch, low) && low <= nextSeq
      requires row.sequence.Some? ==> low <= row.sequence.value < nextSeq
      modifies this`table, this`nextSeq, this`batch
      ensures Valid()
      ensures row.uniqueRequestId.None? ==>
        res == Queued && batch == old(batch) + [row] && table == old(table) && nextSeq == old(nextSeq)
      ensures row.uniqueRequestId.Some? && otherFailure.Some? ==>
        res == Failed(otherFailure.value) && batch == old(batch) && table == old(table) && nextSeq == old(nextSeq)
      ensures row.uniqueRequestId.Some? && otherFailure.None? && Conflicts(old(table), row) ==>
        && res == Duplicate && batch == old(batch) && table == old(table)
        && nextSeq == old(nextSeq) + (if row.sequence.None? then 1 else 0)
      ensures row.uniqueRequestId.Some? && otherFailure.None? && !Conflicts(old(table), row) ==>
        && res == Stored && batch == old(batch)
        && nextSeq == old(nextSeq) + (if row.sequence.None? then 1 else 0)
        && table == old(table)[row.id := row.(sequence := Some(if row.sequence.Some? then row.sequence.value else old(nextSeq)))]
    {
      if row.uniqueRequestId.None? {
        QueueKeepsInvariant(table, batch, low, row, nextSeq);
        batch := batch + [row];
        res := Queued;
      } else if otherFailure.Some? {
        WithLaterNext(table, batch, low, nextSeq);
        res := Failed(otherFailure.value);
      } else if Conflicts(table, row) {
        var next := NextAfter(row, nextSeq);
        WithLaterNext(table, batch, low, next);
        nextSeq := next;
        res := Duplicate;
      } else {
        var stored := QueuedStored(row, nextSeq);
        var next := NextAfter(row, nextSeq);
        assert !Conflicts(table, stored);
        StoreKeepsInvariant(table, batch, low, stored, next);
        table, nextSeq := table[row.id := stored], next;
        res := Stored;
      }
    }

    /** The transaction executing its batch of inserts: rows without a seq get one from the
        column default as they are stored. A duplicate id makes the whole batch fail and the
        table stays as it was. The batch is empty afterwards either way. */
    method FlushBatch() returns (r: Outcome<BatchError>)
      requires Valid()
      modifies this`table, this`nextSeq, this`batch
      ensures Valid() && batch == [] && nextSeq >= old(nextSeq)
      ensures r.Pass? <==> BatchInsertable(old(table), old(batch))
      ensures r.Fail? ==> table == old(table)
      ensures r.Pass? ==>
        && table.Keys == old(table).Keys + PrefixIds(old(batch), |old(batch)|)
        && (forall id :: id in old(table) ==> table[id] == old(table)[id])
        && (forall j :: 0 <= j < |old(batch)| ==> StoredFrom(table[old(batch)[j].id], old(batch)[j]))
    {
      var outcome, stored, next := ExecuteBatch(table, batch, nextSeq);
      r, table, nextSeq, batch := outcome, stored, next, [];
    }

    /** update: only the row with the entry's id and version is changed, and the entry's version
        then goes up by one; otherwise OptimisticLockException and nothing changes. */
    method Update(entry: TransactionOutboxEntry) returns (r: Outcome<OptimisticLockException>)
      requires Valid() && (entry.initialized || entry.state.invocation.Some?)
      modifies this`table, entry
      ensures Valid()
      ensures r.Pass? <==> old(entry.state.id).Some? && old(entry.state.id).value in old(table)
                           && old(table)[old(entry.state.id).value].version == old(entry.state.version)
      ensures r.Pass? ==>
        && table == old(table)[old(entry.state.id).value := UpdatedRow(old(table)[old(entry.state.id).value], old(entry.state))]
        && entry.state == old(entry.state).(version := old(entry.state.version) + 1)
        && entry.initialized
        && (old(entry.initialized) ==> entry.description == old(entry.description))
        && (!old(entry.initialized) ==> entry.description == DescriptionOf(entry.state))
      ensures r.Fail? ==>
        && table == old(table) && entry.state == old(entry.state)
        && entry.initialized == old(entry.initialized) && entry.description == old(entry.description)
    {
      var id := entry.state.id;
      if id.None? || id.value !in table || table[id.value].version != entry.state.version {
        return Fail(OptimisticLockException);
      }
      table := table[id.value := UpdatedRow(table[id.value], entry.state)];
      entry.SetVersion(entry.state.version + 1);
      var _ := entry.Description();
      r := Pass;
    }

    /** delete: removes the row with the entry's id and version, or fails with
        OptimisticLockException and removes nothing. */
    method Delete(entry: TransactionOutboxEntry) returns (r: Outcome<OptimisticLockException>)
      requires Valid() && (entry.initialized || entry.state.invocation.Some?)
      modifies this`table, entry
      ensures Valid()
      ensures entry.state == old(entry.state)
      ensures r.Pass? <==> entry.state.id.Some? && entry.state.id.value in old(table)
                           && old(table)[entry.state.id.value].version == entry.state.version
      ensures r.Pass? ==>
        && table == old(table) - {entry.state.id.value}
        && entry.initialized
        && (old(entry.initialized) ==> entry.description == old(entry.description))
        && (!old(entry.initialized) ==> entry.description == DescriptionOf(entry.state))
      ensures r.Fail? ==>
        table == old(table) && entry.initialized == old(entry.initialized) && entry.description == old(entry.description)
    {
      var id := entry.state.id;
      if id.None? || id.value !in table || table[id.value].version != entry.state.version {
        return Fail(OptimisticLockException);
      }
      FewerRowsKeepInvariant(table, table - {id.value}, batch, nextSeq);
      table := table - {id.value};
      var _ := entry.Description();
      r := Pass;
    }

    /** lock: true when the row with the entry's id and version is found, and then the entry's
        invocation becomes the stored one; false when there is no such row or the attempt times
        out (timedOut; the timeout is logged with the description). The table is not changed. */
    method Lock(entry: TransactionOutboxEntry, timedOut: bool) returns (locked: bool)
      requires Valid() && (entry.initialized || entry.state.invocation.Some?)
      modifies entry
      ensures locked <==> !timedOut && old(entry.state.id).Some?
                          && PgSeqDialect.LockRow(table, old(entry.state.id).value, old(entry.state.version)).Some?
      ensures locked ==> (
        && old(entry.state.id).Some?
        && var found := PgSeqDialect.LockRow(table, old(entry.state.id).value, old(entry.state.version));
           found.Some? && entry.state == old(entry.state).(invocation := Some(deserialize(found.value.invocation))))
      ensures !locked ==> entry.state == old(entry.state)
      ensures timedOut ==>
        && entry.initialized
        && (old(entry.initialized) ==> entry.description == old(entry.description))
        && (!old(entry.initialized) ==> entry.description == DescriptionOf(entry.state))
      ensures !timedOut ==> entry.initialized == old(entry.initialized) && entry.description == old(entry.description)
    {
      if timedOut {
        var _ := entry.Description();
        return false;
      }
      if entry.state.id.None? {
        return false;
      }
      var found := PgSeqDialect.LockRow(table, entry.state.id.value, entry.state.version);
      if found.None? {
        return false;
      }
      entry.SetInvocation(deserialize(found.value.invocation));
      locked := true;
    }

    /** unblock: resets attempts and clears blocked on the row with that id if it is blocked and
        not processed; reports whether a row changed. */
    method Unblock(id: Id) returns (changed: bool)
      requires Valid()
      modifies this`table
      ensures Valid()
      ensures changed <==> id in old(table) && old(table)[id].blocked && !old(table)[id].processed
      ensures changed ==> table == old(table)[id := old(table)[id].(attempts := 0, blocked := false)]
      ensures !changed ==> table == old(table)
    {
      if id in table && table[id].blocked && !table[id].processed {
        table := table[id := table[id].(attempts := 0, blocked := false)];
        changed := true;
      } else {
        changed := false;
      }
    }

    /** gatherResults: every row the query returned, mapped to an entry, in the order returned. */
    method GatherResults(rows: seq<Row>) returns (entries: seq<EntryState>)
      ensures |entries| == |rows|
      ensures forall i :: 0 <= i < |rows| ==> entries[i] == MapRow(deserialize, rows[i])
    {
      entries := [];
      var i := 0;
      while i < |rows|
        invariant 0 <= i <= |rows|
        invariant |entries| == i
        invariant forall k :: 0 <= k < i ==> entries[k] == MapRow(deserialize, rows[k])
      {
        entries := entries + [MapRow(deserialize, rows[i])];
        i := i + 1;
      }
    }

    /** selectBatch: the rows of the dialect's selectBatch statement, as entries. */
    method SelectBatch(batchSize: nat, now: Timestamp) returns (rows: seq<Row>, entries: seq<EntryState>)
      ensures PgSeqDialect.IsSelectBatchResult(table, now, batchSize, rows)
      ensures |entries| == |rows| && forall i :: 0 <= i < |rows| ==> entries[i] == MapRow(deserialize, rows[i])
    {
      rows := TakeLimited(PgSeqDialect.SelectBatchCandidates(table, now), batchSize, true);
      entries := GatherResults(rows);
    }

    /** selectNextInTopics: the rows of the dialect's fetchNextInAllTopics statement, as entries. */
    method SelectNextInTopics(batchSize: nat, now: Timestamp) returns (rows: seq<Row>, entries: seq<EntryState>)
      ensures PgSeqDialect.IsFetchNextInAllTopicsResult(table, now, batchSize, rows)
      ensures |entries| == |rows| && forall i :: 0 <= i < |rows| ==> entries[i] == MapRow(deserialize, rows[i])
    {
      rows := TakeLimited(PgSeqDialect.NextInTopicCandidates(table, now), batchSize, false);
      entries := GatherResults(rows);
    }

    /** deleteProcessedAndExpired: runs deleteExpired and reports how many rows went. */
    method DeleteProcessedAndExpired(batchSize: nat, now: Timestamp) returns (count: nat)
      requires Valid()
      modifies this`table
      ensures Valid()
      ensures PgSeqDialect.IsDeleteExpiredResult(old(table), now, batchSize, table)
      ensures count == |old(table).Keys - table.Keys|
    {
      var expired := PgSeqDialect.ExpiredIds(table, now);
      SubsetOfSize(expired, Min(batchSize, |expired|));
      var gone :| gone <= expired && |gone| == Min(batchSize, |expired|);
      var before := table;
      table := Without(table, gone);
      ExpiredDeletion(before, now, batchSize, gone);
      FewerRowsKeepInvariant(before, table, batch, nextSeq);
      count := |gone|;
    }

    /** deleteOutdatedInAllTopics: runs the statement and reports how many rows went. */
    method DeleteOutdatedInAllTopics() returns (count: nat)
      requires Valid()
      modifies this`table
      ensures Valid()
      ensures table == PgSeqDialect.DeleteOutdated(old(table))
      ensures count == |old(table).Keys - table.Keys|
    {
      var before := table;
      table := PgSeqDialect.DeleteOutdated(table);
      FewerRowsKeepInvariant(before, table, batch, nextSeq);
      count := |before.Keys - table.Keys|;
    }

    /** clear: DELETE FROM the table. */
    method Clear()
      requires Valid()
      modifies this`table
      ensures Valid() && table == map[]
    {
      table := map[];
    }
  }

  /** What save reports for the insert's result. The description is logged, and so cached, for
      a queued or stored row and for a duplicate; it is the message of AlreadyScheduled. */
  method SaveOutcome(entry: TransactionOutboxEntry, written: InsertResult) returns (r: Outcome<SaveError>)
    requires entry.initialized || entry.state.invocation.Some?
    modifies entry`initialized, entry`description
    ensures written.Failed? ==> r == Fail(SqlFailure(written.cause))
    ensures written.Duplicate? ==> r == Fail(AlreadyScheduled("Request " + entry.description + " already exists"))
    ensures written.Queued? || written.Stored? ==> r.Pass?
    ensures !written.Failed? ==>
      && entry.initialized
      && (old(entry.initialized) ==> entry.description == old(entry.description))
      && (!old(entry.initialized) ==> entry.description == DescriptionOf(entry.state))
    ensures written.Failed? ==> entry.initialized == old(entry.initialized) && entry.description == old(entry.description)
  {
    match written
    case Failed(cause) =>
      r := Fail(SqlFailure(cause));
    case Duplicate =>
      var d := entry.Description();
      r := Fail(AlreadyScheduled("Request " + d + " already exists"));
    case _ =>
      var _ := entry.Description();
      r := Pass;
  }

  /** Executing the queued inserts b, in order, against the table saved; the result is the table
      afterwards and the sequence's next value. */
  method ExecuteBatch(saved: Table, b: seq<Row>, first: int) returns (r: Outcome<BatchError>, work: Table, next: int)
    requires StoreInvariant(saved, b, first)
    ensures StoreInvariant(work, [], next) && next >= first
    ensures r.Pass? <==> BatchInsertable(saved, b)
    ensures r.Fail? ==> work == saved
    ensures r.Pass? ==>
      && work.Keys == saved.Keys + PrefixIds(b, |b|)
      && (forall id :: id in saved ==> work[id] == saved[id])
      && (forall j :: 0 <= j < |b| ==> StoredFrom(work[b[j].id], b[j]))
  {
    work, next := saved, first;
    var i := 0;
    ExecutingStart(saved, b, first);
    while i < |b|
      invariant Executing(saved, b, i, work, next, first)
    {
      if b[i].id in work {
        // the clashing row has taken its seq default before the key is checked
        ExecutingClash(saved, b, i, work, next, first);
        WithLaterNext(saved, [], next, NextAfter(b[i], next));
        return Fail(DuplicateKey(b[i].id)), saved, NextAfter(b[i], next);
      }
      ExecutingStep(saved, b, i, work, next, first);
      work, next := work[b[i].id := QueuedStored(b[i], next)], NextAfter(b[i], next);
      i := i + 1;
    }
    ExecutingEnd(saved, b, work, next, first);
    r := Pass;
  }

  /** The row as stored: a queued row without a seq takes the sequence's next value. */
  function QueuedStored(row: Row, next: int): (stored: Row)
    ensures StoredFrom(stored, row)
  {
    row.(sequence := Some(if row.sequence.Some? then row.sequence.value else next))
  }

  /** The sequence's next value after storing the row. */
  function NextAfter(row: Row, next: int): int {
    if row.sequence.Some? then next else next + 1
  }

  /** The state of the loop in ExecuteBatch after i rows. */
  predicate Executing(saved: Table, b: seq<Row>, i: int, work: Table, next: int, first: int) {
    && 0 <= i <= |b|
    && Flushed(saved, b, i, work)
    && StoreInvariant(work, b[i..], next)
    && next >= first
  }

  lemma ExecutingStart(saved: Table, b: seq<Row>, first: int)
    requires StoreInvariant(saved, b, first)
    ensures Executing(saved, b, 0, saved, first, first)
  {
    FlushStart(saved, b);
    assert b[0..] == b;
  }

  lemma ExecutingStep(saved: Table, b: seq<Row>, i: int, work: Table, next: int, first: int)
    requires 0 <= i < |b| && Executing(saved, b, i, work, next, first) && b[i].id !in work
    ensures Executing(saved, b, i + 1, work[b[i].id := QueuedStored(b[i], next)], NextAfter(b[i], next), first)
  {
    var stored := QueuedStored(b[i], next);
    FlushStep(saved, b, i, work, stored);
    StoreAcceptsQueuedRow(work, b[i..], NextAfter(b[i], next), stored, b[i].sequence.None?);
    assert b[i..][1..] == b[i + 1..];
  }

  lemma ExecutingClash(saved: Table, b: seq<Row>, i: int, work: Table, next: int, first: int)
    requires 0 <= i < |b| && Executing(saved, b, i, work, next, first) && b[i].id in work
    ensures !BatchInsertable(saved, b) && StoreInvariant(saved, [], next) && next >= first
  {
    FlushClash(saved, b, i, work);
  }

  lemma ExecutingEnd(saved: Table, b: seq<Row>, work: Table, next: int, first: int)
    requires Executing(saved, b, |b|, work, next, first)
    ensures StoreInvariant(work, [], next) && BatchInsertable(saved, b)
  {
    FlushEnd(saved, b, work);
    assert b[|b|..] == [];
  }

  /** Part way through executing the batch b: its first i rows are stored in t, over the table
      saved as it was before. */
  predicate Flushed(saved: Table, b: seq<Row>, i: int, t: Table) {
    && 0 <= i <= |b|
    && BatchInsertable(saved, b[..i])
    && t.Keys == saved.Keys + PrefixIds(b, i)
    && (forall id :: id in saved ==> t[id] == saved[id])
    && (forall j :: 0 <= j < i ==> StoredFrom(t[b[j].id], b[j]))
  }

  /** The ids of the first i queued rows. */
  function PrefixIds(b: seq<Row>, i: int): (ids: set<Id>)
    requires 0 <= i <= |b|
    ensures forall j :: 0 <= j < i ==> b[j].id in ids
  {
    set j | 0 <= j < i :: b[j].id
  }

  lemma PrefixIdsStep(b: seq<Row>, i: int)
    requires 0 <= i < |b|
    ensures PrefixIds(b, i + 1) == PrefixIds(b, i) + {b[i].id}
  {
  }

  lemma FlushStart(saved: Table, b: seq<Row>)
    ensures Flushed(saved, b, 0, saved)
  {
  }

  lemma FlushStep(saved: Table, b: seq<Row>, i: int, t: Table, stored: Row)
    requires 0 <= i < |b| && Flushed(saved, b, i, t)
    requires b[i].id !in t && StoredFrom(stored, b[i])
    ensures Flushed(saved, b, i + 1, t[b[i].id := stored])
  {
    assert b[..i + 1] == b[..i] + [b[i]];
    PrefixIdsStep(b, i);
    forall j | 0 <= j < i
      ensures b[j].id != b[i].id
    {
      assert b[j].id in t.Keys;
    }
  }

  /** A stored id met again means the batch was not insertable. */
  lemma FlushClash(saved: Table, b: seq<Row>, i: int, t: Table)
    requires 0 <= i < |b| && Flushed(saved, b, i, t) && b[i].id in t
    ensures !BatchInsertable(saved, b)
  {
    if b[i].id !in saved {
      var j :| 0 <= j < i && b[j].id == b[i].id;
    }
  }

  lemma FlushEnd(saved: Table, b: seq<Row>, t: Table)
    requires Flushed(saved, b, |b|, t)
    ensures BatchInsertable(saved, b)
  {
    assert b[..|b|] == b;
  }

  /** Queueing a row without a uniqueRequestId and with no seq, or a fresh one, keeps the
      invariant. */
  lemma QueueKeepsInvariant(t: Table, b: seq<Row>, next: int, row: Row, next': int)
    requires StoreInvariant(t, b, next) && next <= next' && row.uniqueRequestId.None?
    requires row.sequence.Some? ==> next <= row.sequence.value < next'
    ensures StoreInvariant(t, b + [row], next')
  {
  }

  /** Storing a row that conflicts with no stored key, with a fresh seq, keeps the invariant. */
  lemma StoreKeepsInvariant(t: Table, b: seq<Row>, next: int, stored: Row, next': int)
    requires StoreInvariant(t, b, next) && !Conflicts(t, stored)
    requires stored.sequence.Some? && next <= stored.sequence.value < next'
    ensures StoreInvariant(t[stored.id := stored], b, next')
  {
  }

  /** The sequence moving on keeps the invariant. */
  lemma WithLaterNext(t: Table, b: seq<Row>, next: int, next': int)
    requires StoreInvariant(t, b, next) && next <= next'
    ensures StoreInvariant(t, b, next')
  {
  }

  /** Removing rows keeps the invariant. */
  /** The table with the rows of the given ids deleted. */
  function Without(t: Table, gone: set<Id>): (t': Table)
    ensures t'.Keys == t.Keys - gone
    ensures forall id :: id in t' ==> t'[id] == t[id]
  {
    map id | id in t && id !in gone :: t[id]
  }

  /** Deleting min(batchSize, expired) of the expired ids is a result deleteExpired allows. */
  lemma ExpiredDeletion(t: Table, now: Timestamp, batchSize: nat, gone: set<Id>)
    requires gone <= PgSeqDialect.ExpiredIds(t, now)
    requires |gone| == Min(batchSize, |PgSeqDialect.ExpiredIds(t, now)|)
    ensures PgSeqDialect.IsDeleteExpiredResult(t, now, batchSize, Without(t, gone))
    ensures t.Keys - Without(t, gone).Keys == gone
  {
    assert t.Keys - Without(t, gone).Keys == gone;
  }

  lemma FewerRowsKeepInvariant(t: Table, t': Table, b: seq<Row>, next: int)
    requires StoreInvariant(t, b, next)
    requires t'.Keys <= t.Keys && forall id :: id in t' ==> t'[id] == t[id]
    ensures StoreInvariant(t', b, next)
  {
  }

  /** Storing a queued row with a seq no other row has keeps the invariant for the rest of the
      queue. */
  lemma StoreAcceptsQueuedRow(t: Table, b: seq<Row>, next: int, stored: Row, drawn: bool)
    requires |b| > 0 && StoreInvariant(t, b, next - (if drawn then 1 else 0))
    requires b[0].id !in t
    requires drawn ==> b[0].sequence.None? && stored == b[0].(sequence := Some(next - 1))
    requires !drawn ==> b[0].sequence.Some? && stored == b[0]
    ensures StoreInvariant(t[b[0].id := stored], b[1..], next)
  {
  }

  /** A finite set has subsets of every size up to its own. */
  lemma {:induction false} SubsetOfSize(s: set<Id>, n: nat)
    requires n <= |s|
    ensures exists sub :: sub <= s && |sub| == n
    decreases n
  {
    if n == 0 {
      var none: set<Id> := {};
      assert none <= s && |none| == 0;
    } else {
      var x :| x in s;
      SubsetOfSize(s - {x}, n - 1);
      var sub :| sub <= s - {x} && |sub| == n - 1;
      assert sub + {x} <= s && |sub + {x}| == n;
    }
  }

  /** Saves with topics draw strictly increasing seq values, across topics, whatever each save
      then reports (queued, stored, duplicate or another failure). */
  method SuccessiveSavesIncrease(p: PgSeqPersistor, first: TransactionOutboxEntry, second: TransactionOutboxEntry,
                                 firstFailure: Option<string>, secondFailure: Option<string>)
    returns (r1: Outcome<SaveError>, r2: Outcome<SaveError>)
    requires p.Valid() && first != second
    requires first.state.id.Some? && first.state.topic.Some?
    requires second.state.id.Some? && second.state.topic.Some?
    requires first.initialized || first.state.invocation.Some?
    requires second.initialized || second.state.invocation.Some?
    modifies p, first, second
    ensures first.state.sequence.Some? && second.state.sequence.Some?
    ensures first.state.sequence.value < second.state.sequence.value
  {
    r1 := p.Save(first, firstFailure);
    r2 := p.Save(second, secondFailure);
  }
}
