/** The statements of the PostgreSQL dialect that orders topics by a database sequence, written
    as the sets of rows they select or delete. */
module PgSeqDialect {
  import opened Common
  import opened OutboxEntry
  import opened OutboxTable

  /** The sequence every seq value is drawn from, by nextval. */
  const SequenceName: string := "txno_outbox_seq_seq"

  // ---------------------------------------------------------------------------------------------
  // selectBatch: unordered work, oldest first

  /** nextAttemptTime < now AND blocked = false AND processed = false AND topic = '*'. */
  predicate SelectBatchFilter(r: Row, now: Timestamp) {
    Due(r, now) && !r.blocked && !r.processed && r.topic == UnorderedTopic
  }

  function SelectBatchCandidates(t: Table, now: Timestamp): set<Row> {
    set r | r in t.Values && SelectBatchFilter(r, now)
  }

  /** The rows this dialect's selectBatch may return: ORDER BY seq LIMIT batchSize. */
  predicate IsSelectBatchResult(t: Table, now: Timestamp, batchSize: nat, rs: seq<Row>) {
    IsOrderedSelection(SelectBatchCandidates(t, now), batchSize, rs)
  }

  /** Only due, unblocked, unprocessed rows without a topic, in ascending seq, at most batchSize;
      an eligible row left out comes no earlier than any returned one, and fewer than batchSize
      rows come back only when every eligible row did. */
  lemma SelectBatchReturnsEligibleInOrder(t: Table, now: Timestamp, batchSize: nat, rs: seq<Row>)
    requires IsSelectBatchResult(t, now, batchSize, rs)
    ensures |rs| <= batchSize
    ensures forall i :: 0 <= i < |rs| ==>
      rs[i] in t.Values && Due(rs[i], now) && !rs[i].blocked && !rs[i].processed && rs[i].topic == UnorderedTopic
    ensures forall i, j :: 0 <= i < j < |rs| ==> SeqNotAfter(rs[i], rs[j])
    ensures forall i, r :: (0 <= i < |rs| && r in t.Values && SelectBatchFilter(r, now) && r !in rs) ==>
      SeqNotAfter(rs[i], r)
    ensures |rs| < batchSize ==> forall r :: r in t.Values && SelectBatchFilter(r, now) ==> r in rs
  {
    if |rs| < batchSize {
      ShortSelectionTakesAll(SelectBatchCandidates(t, now), batchSize, rs);
    }
  }

  // ---------------------------------------------------------------------------------------------
  // fetchNextInAllTopics: the head of each topic

  /** A row of the ranked set: unprocessed and with a topic. */
  predicate Ranked(t: Table, r: Row) {
    r in t.Values && !r.processed && r.topic != UnorderedTopic
  }

  /** ROW_NUMBER() OVER (PARTITION BY topic ORDER BY seq) = 1: the ranked row that comes before
      every other ranked row of its topic. Where two ranked rows of a topic tie on seq the
      database still numbers one of them 1, while this offers neither; ties never occur in a
      persistor's table (PgSeqPersistorModel.StoreHasDistinctTopicSeqs). */
  predicate RowNumberFirst(t: Table, r: Row) {
    Ranked(t, r)
    && forall o :: o in t.Values && o != r && !o.processed && o.topic == r.topic ==> SeqBefore(r, o)
  }

  /** rn = 1 AND (blocked = false OR orderedTakeLast = false) AND nextAttemptTime < now. */
  function NextInTopicCandidates(t: Table, now: Timestamp): set<Row> {
    set r | r in t.Values && RowNumberFirst(t, r) && (!r.blocked || !r.orderedTakeLast) && Due(r, now)
  }

  /** No ORDER BY: any batchSize of the heads, in any order. */
  predicate IsFetchNextInAllTopicsResult(t: Table, now: Timestamp, batchSize: nat, rs: seq<Row>) {
    IsLimitedSelection(NextInTopicCandidates(t, now), batchSize, rs)
  }

  /** At most one row of each topic is ever returned. */
  lemma NextInTopicsOnePerTopic(t: Table, now: Timestamp, a: Row, b: Row)
    requires a in NextInTopicCandidates(t, now) && b in NextInTopicCandidates(t, now)
    requires a.topic == b.topic
    ensures a == b
  {
  }

  /** A row that has an unprocessed row of its topic before it is never returned, whatever that
      earlier row's due time or blocked flag: the ranking happens before the filters. */
  lemma HeadHidesRest(t: Table, now: Timestamp, head: Row, r: Row)
    requires head in t.Values && !head.processed && head.topic == r.topic && SeqBefore(head, r)
    ensures r !in NextInTopicCandidates(t, now)
  {
  }

  /** The head of a topic is returned exactly when it is due and not both blocked and
      orderedTakeLast. */
  lemma HeadReturnedUnlessBlockedTakeLast(t: Table, now: Timestamp, head: Row)
    requires RowNumberFirst(t, head)
    ensures head in NextInTopicCandidates(t, now) <==> Due(head, now) && !(head.blocked && head.orderedTakeLast)
  {
  }

  // ---------------------------------------------------------------------------------------------
  // deleteOutdatedInAllTopics: keep the newest take-last row of each topic

  /** Rows ranked by deleteOutdatedInAllTopics: orderedTakeLast = true AND topic <> '*'. */
  predicate TakeLast(r: Row) {
    r.orderedTakeLast && r.topic != UnorderedTopic
  }

  /** ROW_NUMBER() OVER (PARTITION BY topic ORDER BY seq DESC) > 1: some take-last row of the same
      topic ranks ahead of it (a larger seq, or a NULL seq, which sorts first in descending order). */
  predicate Outdated(t: Table, r: Row) {
    TakeLast(r) && exists o :: o in t.Values && TakeLast(o) && o.topic == r.topic && SeqBefore(r, o)
  }

  /** The table after deleteOutdatedInAllTopics. */
  function DeleteOutdated(t: Table): (t': Table)
    ensures t'.Keys <= t.Keys
    ensures forall id :: id in t' ==> t'[id] == t[id]
  {
    map id | id in t && !Outdated(t, t[id]) :: t[id]
  }

  lemma SmallerTableValues(t: Table, t': Table)
    requires t'.Keys <= t.Keys && forall id :: id in t' ==> t'[id] == t[id]
    ensures t'.Values <= t.Values
  {
    forall o | o in t'.Values
      ensures o in t.Values
    {
      var id :| id in t' && t'[id] == o;
      assert t[id] == o;
    }
  }

  /** Rows without orderedTakeLast, and rows without a topic, are never deleted. */
  lemma DeleteOutdatedKeepsOthers(t: Table, id: Id)
    requires id in t && !TakeLast(t[id])
    ensures id in DeleteOutdated(t) && DeleteOutdated(t)[id] == t[id]
  {
  }

  /** The take-last row with the greatest seq of its topic is kept, so a topic that had
      take-last rows still has one. */
  lemma DeleteOutdatedKeepsLast(t: Table, topic: string)
    requires exists id :: id in t && TakeLast(t[id]) && t[id].topic == topic
    ensures exists id :: id in DeleteOutdated(t) && TakeLast(t[id]) && t[id].topic == topic
  {
    var part := set r | r in t.Values && TakeLast(r) && r.topic == topic;
    var id0 :| id0 in t && TakeLast(t[id0]) && t[id0].topic == topic;
    assert t[id0] in part;
    LastExists(part);
    var m :| m in part && forall x :: x in part ==> SeqNotAfter(x, m);
    forall o | o in t.Values && TakeLast(o) && o.topic == m.topic
      ensures !SeqBefore(m, o)
    {
      assert o in part;
      OrderFacts(m, o, o);
    }
    var id :| id in t && t[id] == m;
    assert id in DeleteOutdated(t);
  }

  /** When the take-last rows of a topic have distinct seq values, exactly one survives. */
  lemma DeleteOutdatedLeavesOne(t: Table, a: Id, b: Id)
    requires forall x, y :: (x in t && y in t && x != y && TakeLast(t[x]) && TakeLast(t[y])) ==>
      t[x].sequence.Some? && t[x].sequence != t[y].sequence
    requires a in DeleteOutdated(t) && b in DeleteOutdated(t)
    requires TakeLast(t[a]) && TakeLast(t[b]) && t[a].topic == t[b].topic
    ensures a == b
  {
    if a != b {
      OneOfTwoOutdated(t, a, b);
      assert false;
    }
  }

  lemma OneOfTwoOutdated(t: Table, a: Id, b: Id)
    requires a in t && b in t && a != b
    requires t[a].sequence.Some? && t[b].sequence.Some? && t[a].sequence != t[b].sequence
    requires TakeLast(t[a]) && TakeLast(t[b]) && t[a].topic == t[b].topic
    ensures Outdated(t, t[a]) || Outdated(t, t[b])
  {
    assert t[b] in t.Values && t[a] in t.Values;
  }

  /** A second run deletes nothing. */
  lemma DeleteOutdatedIdempotent(t: Table)
    ensures DeleteOutdated(DeleteOutdated(t)) == DeleteOutdated(t)
  {
    var t1 := DeleteOutdated(t);
    SmallerTableValues(t, t1);
    forall id | id in t1
      ensures !Outdated(t1, t1[id])
    {
      assert !Outdated(t, t[id]);
    }
    assert DeleteOutdated(t1).Keys == t1.Keys;
  }

  // ---------------------------------------------------------------------------------------------
  // deleteExpired

  /** nextAttemptTime < now AND processed = true AND blocked = false. */
  predicate ExpiredFilter(r: Row, now: Timestamp) {
    Due(r, now) && r.processed && !r.blocked
  }

  function ExpiredIds(t: Table, now: Timestamp): set<Id> {
    set id | id in t && ExpiredFilter(t[id], now)
  }

  /** DELETE ... WHERE id IN (SELECT id ... LIMIT batchSize): min(batchSize, expired) expired rows
      go and everything else stays as it was. */
  predicate IsDeleteExpiredResult(t: Table, now: Timestamp, batchSize: nat, t': Table) {
    && t'.Keys <= t.Keys
    && (forall id :: id in t' ==> t'[id] == t[id])
    && t.Keys - t'.Keys <= ExpiredIds(t, now)
    && |t.Keys - t'.Keys| == Min(batchSize, |ExpiredIds(t, now)|)
  }

  /** Only processed, unblocked, due rows are ever deleted, and at most batchSize of them. */
  lemma DeleteExpiredOnlyExpired(t: Table, now: Timestamp, batchSize: nat, t': Table, id: Id)
    requires IsDeleteExpiredResult(t, now, batchSize, t')
    requires id in t && id !in t'
    ensures t[id].processed && !t[id].blocked && t[id].nextAttemptTime < now
    ensures |t.Keys - t'.Keys| <= batchSize
  {
    assert id in t.Keys - t'.Keys;
  }

  // ---------------------------------------------------------------------------------------------
  // lock

  /** SELECT id, invocation ... WHERE id = ? AND version = ?. */
  function LockRow(t: Table, id: Id, version: int): (r: Option<Row>)
    requires KeyedById(t)
    ensures r.Some? <==> exists row :: row in t.Values && row.id == id && row.version == version
    ensures r.Some? ==> r.value in t.Values && r.value.id == id && r.value.version == version
    ensures r.Some? ==> forall row :: row in t.Values && row.id == id ==> row == r.value
  {
    if id in t && t[id].version == version then Some(t[id]) else None
  }
}
