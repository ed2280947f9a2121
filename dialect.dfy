/** The SQL dialects: how each one's statements select and delete rows, how it writes booleans,
    which schema migration steps it changes or skips, and how it creates the version table. */
module Dialects {
  import opened Common
  import opened OutboxEntry
  import opened OutboxTable
  import PgSeqDialect

  datatype Dialect = MySql5 | MySql8 | Postgresql9 | H2 | Oracle | MsSqlServer | PostgresqlSeq

  /** The dialects that give their own selectBatch, fetchNextInAllTopics, deleteExpired and lock
      statements (MY_SQL_5 and H2 keep the defaults of DefaultDialect, which is not part of this
      model). */
  type TemplatedDialect = d: Dialect | !d.MySql5? && !d.H2? witness MySql8

  // ---------------------------------------------------------------------------------------------
  // selectBatch

  /** Every dialect filters on due, unblocked, unprocessed rows without a topic; only the
      sequence dialect adds ORDER BY seq. */
  predicate IsSelectBatchResult(d: TemplatedDialect, t: Table, now: Timestamp, batchSize: nat, rs: seq<Row>) {
    if d.PostgresqlSeq? then PgSeqDialect.IsSelectBatchResult(t, now, batchSize, rs)
    else IsLimitedSelection(PgSeqDialect.SelectBatchCandidates(t, now), batchSize, rs)
  }

  /** Whatever the sequence dialect's selectBatch returns, every other dialect could return too;
      every dialect returns only eligible rows, at most batchSize. */
  lemma SelectBatchAgrees(d: TemplatedDialect, t: Table, now: Timestamp, batchSize: nat, rs: seq<Row>)
    ensures PgSeqDialect.IsSelectBatchResult(t, now, batchSize, rs) ==> IsSelectBatchResult(d, t, now, batchSize, rs)
    ensures IsSelectBatchResult(d, t, now, batchSize, rs) ==>
      |rs| <= batchSize && forall i :: 0 <= i < |rs| ==> rs[i] in t.Values && PgSeqDialect.SelectBatchFilter(rs[i], now)
  {
  }

  // ---------------------------------------------------------------------------------------------
  // fetchNextInAllTopics

  /** MS SQL Server's form: seq = (SELECT MIN(seq) ... same topic, processed = 0). MIN skips
      NULLs, and a NULL seq equals nothing. */
  predicate MinSeqHead(t: Table, r: Row) {
    && r in t.Values && !r.processed && r.topic != UnorderedTopic && r.sequence.Some?
    && forall b :: b in t.Values && b.topic == r.topic && !b.processed && b.sequence.Some? ==>
         r.sequence.value <= b.sequence.value
  }

  /** Whether a row passes the dialect's fetchNextInAllTopics filter. */
  predicate IsNextInTopic(d: TemplatedDialect, t: Table, now: Timestamp, r: Row) {
    && r in t.Values && Due(r, now)
    && match d {
         case PostgresqlSeq => PgSeqDialect.RowNumberFirst(t, r) && (!r.blocked || !r.orderedTakeLast)
         case MsSqlServer => MinSeqHead(t, r)
         case _ => PgSeqDialect.RowNumberFirst(t, r)
       }
  }

  function NextInTopicCandidates(d: TemplatedDialect, t: Table, now: Timestamp): set<Row> {
    set r | r in t.Values && IsNextInTopic(d, t, now, r)
  }

  predicate IsFetchNextInAllTopicsResult(d: TemplatedDialect, t: Table, now: Timestamp, batchSize: nat, rs: seq<Row>) {
    IsLimitedSelection(NextInTopicCandidates(d, t, now), batchSize, rs)
  }

  lemma SequenceDialectMatches(t: Table, now: Timestamp)
    ensures NextInTopicCandidates(PostgresqlSeq, t, now) == PgSeqDialect.NextInTopicCandidates(t, now)
  {
  }

  /** Every row with a topic has a seq, and no two rows of a topic share one. */
  predicate TopicSeqsDistinct(t: Table) {
    && (forall a :: a in t.Values && a.topic != UnorderedTopic ==> a.sequence.Some?)
    && (forall a, b :: (a in t.Values && b in t.Values && a != b && a.topic == b.topic && a.topic != UnorderedTopic) ==>
          a.sequence != b.sequence)
  }

  /** The ROW_NUMBER() = 1 form and the MIN(seq) form pick the same row of each topic. */
  lemma RowNumberMatchesMinSeq(t: Table, r: Row)
    requires TopicSeqsDistinct(t)
    ensures PgSeqDialect.RowNumberFirst(t, r) <==> MinSeqHead(t, r)
  {
    if MinSeqHead(t, r) {
      forall o | o in t.Values && o != r && !o.processed && o.topic == r.topic
        ensures SeqBefore(r, o)
      {
        assert o.sequence.Some? && o.sequence != r.sequence;
      }
    }
    if PgSeqDialect.RowNumberFirst(t, r) {
      forall b | b in t.Values && b.topic == r.topic && !b.processed && b.sequence.Some?
        ensures r.sequence.value <= b.sequence.value
      {
        if b != r {
          assert SeqBefore(r, b);
        }
      }
    }
  }

  /** So MY_SQL_8, POSTGRESQL_9, ORACLE and MS_SQL_SERVER offer the same rows. */
  lemma FourDialectsAgree(t: Table, now: Timestamp)
    requires TopicSeqsDistinct(t)
    ensures NextInTopicCandidates(MsSqlServer, t, now) == NextInTopicCandidates(Postgresql9, t, now)
    ensures NextInTopicCandidates(MySql8, t, now) == NextInTopicCandidates(Postgresql9, t, now)
    ensures NextInTopicCandidates(Oracle, t, now) == NextInTopicCandidates(Postgresql9, t, now)
  {
    forall r | r in t.Values
      ensures IsNextInTopic(MsSqlServer, t, now, r) <==> IsNextInTopic(Postgresql9, t, now, r)
    {
      RowNumberMatchesMinSeq(t, r);
    }
  }

  /** The sequence dialect offers the same rows minus the heads that are blocked and
      orderedTakeLast. */
  lemma SequenceDialectSkipsBlockedTakeLast(t: Table, now: Timestamp)
    ensures NextInTopicCandidates(PostgresqlSeq, t, now)
         == set r | r in NextInTopicCandidates(Postgresql9, t, now) && !(r.blocked && r.orderedTakeLast)
  {
  }

  /** The other four dialects do not look at blocked: a due head is offered even when blocked. */
  lemma BlockedHeadStillOffered(d: TemplatedDialect, t: Table, now: Timestamp, head: Row)
    requires !d.PostgresqlSeq? && TopicSeqsDistinct(t)
    requires PgSeqDialect.RowNumberFirst(t, head) && Due(head, now) && head.blocked
    ensures head in NextInTopicCandidates(d, t, now)
  {
    RowNumberMatchesMinSeq(t, head);
  }

  /** In every dialect an unprocessed row of the topic that comes first hides the rows after it,
      whether or not it is due or blocked itself. */
  lemma HeadHidesRestInEveryDialect(d: TemplatedDialect, t: Table, now: Timestamp, head: Row, r: Row)
    requires head in t.Values && !head.processed && head.topic == r.topic && SeqBefore(head, r)
    ensures r !in NextInTopicCandidates(d, t, now)
  {
    if d.MsSqlServer? {
      if r.sequence.Some? {
        assert head.sequence.value < r.sequence.value;
      }
    } else {
      PgSeqDialect.HeadHidesRest(t, now, head, r);
    }
  }

  /** At most one row per topic, in every dialect. */
  lemma OnePerTopicInEveryDialect(d: TemplatedDialect, t: Table, now: Timestamp, a: Row, b: Row)
    requires TopicSeqsDistinct(t)
    requires a in NextInTopicCandidates(d, t, now) && b in NextInTopicCandidates(d, t, now) && a.topic == b.topic
    ensures a == b
  {
    RowNumberMatchesMinSeq(t, a);
    RowNumberMatchesMinSeq(t, b);
    assert PgSeqDialect.RowNumberFirst(t, a) && PgSeqDialect.RowNumberFirst(t, b);
  }

  // ---------------------------------------------------------------------------------------------
  // deleteExpired

  /** MY_SQL_8 deletes with LIMIT, ORACLE with ROWNUM, MS_SQL_SERVER with TOP, POSTGRESQL_9 and
      the sequence dialect through a LIMITed id subquery: in each, some min(batchSize, expired)
      of the processed, unblocked, due rows. */
  predicate IsDeleteExpiredResult(d: TemplatedDialect, t: Table, now: Timestamp, batchSize: nat, t': Table) {
    PgSeqDialect.IsDeleteExpiredResult(t, now, batchSize, t')
  }

  /** In every dialect deleteExpired removes only expired rows, at most batchSize of them, and
      when fewer than batchSize go, every expired row went. */
  lemma DeleteExpiredInEveryDialect(d: TemplatedDialect, t: Table, now: Timestamp, batchSize: nat, t': Table)
    requires IsDeleteExpiredResult(d, t, now, batchSize, t')
    ensures forall id :: id in t && id !in t' ==> t[id].processed && !t[id].blocked && Due(t[id], now)
    ensures forall id :: id in t' ==> t'[id] == t[id]
    ensures |t.Keys - t'.Keys| <= batchSize
    ensures |t.Keys - t'.Keys| < batchSize ==> forall id :: id in t && PgSeqDialect.ExpiredFilter(t[id], now) ==> id !in t'
  {
    var gone := t.Keys - t'.Keys;
    var expired := PgSeqDialect.ExpiredIds(t, now);
    if |gone| < batchSize {
      assert |gone| == |expired|;
      assert gone <= expired;
      assert |expired - gone| == |expired| - |gone|;
      forall id | id in t && PgSeqDialect.ExpiredFilter(t[id], now)
        ensures id !in t'
      {
        assert id in expired;
      }
    }
    forall id | id in t && id !in t'
      ensures t[id].processed && !t[id].blocked && Due(t[id], now)
    {
      assert id in gone;
    }
  }

  // ---------------------------------------------------------------------------------------------
  // Booleans

  /** ORACLE and MS_SQL_SERVER store booleans as numbers. */
  type NumericBooleanDialect = d: Dialect | d.Oracle? || d.MsSqlServer? witness Oracle

  function BooleanValue(d: NumericBooleanDialect, v: bool): (s: string)
    ensures s == "1" || s == "0"
  {
    if v then "1" else "0"
  }

  function ParseBooleanValue(s: string): Option<bool> {
    if s == "1" then Some(true) else if s == "0" then Some(false) else None
  }

  /** true is written "1" and false "0", so a written value reads back as itself. */
  lemma BooleanValueRoundTrip(d: NumericBooleanDialect, v: bool)
    ensures ParseBooleanValue(BooleanValue(d, v)) == Some(v)
    ensures BooleanValue(d, true) == "1" && BooleanValue(d, false) == "0"
  {
  }

  // ---------------------------------------------------------------------------------------------
  // Migrations

  /** What a dialect does to one step of the default migration list. */
  datatype MigrationChange = Unchanged | Replaced(sql: string) | Disabled

  const PgUniqueRequestIdWidth: string := "ALTER TABLE TXNO_OUTBOX ALTER COLUMN uniqueRequestId TYPE VARCHAR(250)"
  const PgRenameBlacklisted: string := "ALTER TABLE TXNO_OUTBOX RENAME COLUMN blacklisted TO blocked"
  const PgAddLastAttemptTime: string := "ALTER TABLE TXNO_OUTBOX ADD COLUMN lastAttemptTime TIMESTAMP(6)"
  const PgSeqColumn: string := "ALTER TABLE TXNO_OUTBOX ADD COLUMN seq " + SerialNotNull
  const SerialNotNull: string := "BIGSERIAL NOT NULL"
  const MsSqlFilteredUniqueIndex: string :=
    "CREATE UNIQUE INDEX UX_TXNO_OUTBOX_uniqueRequestId ON TXNO_OUTBOX (uniqueRequestId) " + OnlyWithRequestId
  const OnlyWithRequestId: string := "WHERE uniqueRequestId IS NOT NULL"

  /** The per-dialect changes to the migration list (the CREATE TABLE texts of ORACLE and
      MS_SQL_SERVER steps 1 and 11 are abbreviated to their purpose). */
  function MigrationOverride(d: Dialect, step: nat): MigrationChange {
    match d
    case MySql5 => Unchanged
    case MySql8 => Unchanged
    case Postgresql9 =>
      if step == 5 then Replaced(PgUniqueRequestIdWidth)
      else if step == 6 then Replaced(PgRenameBlacklisted)
      else if step == 7 then Replaced(PgAddLastAttemptTime)
      else if step == 8 then Disabled
      else Unchanged
    case PostgresqlSeq =>
      if step == 5 then Replaced(PgUniqueRequestIdWidth)
      else if step == 6 then Replaced(PgRenameBlacklisted)
      else if step == 7 then Replaced(PgAddLastAttemptTime)
      else if step == 8 then Disabled
      else if step == 10 then Replaced(PgSeqColumn)
      else if step == 11 then Disabled
      else Unchanged
    case H2 =>
      if step == 5 then Replaced("ALTER TABLE TXNO_OUTBOX ALTER COLUMN uniqueRequestId VARCHAR(250)")
      else if step == 6 then Replaced("ALTER TABLE TXNO_OUTBOX RENAME COLUMN blacklisted TO blocked")
      else if step == 8 then Disabled
      else Unchanged
    case Oracle =>
      if step == 1 then Replaced("CREATE TABLE TXNO_OUTBOX (id VARCHAR2(36) PRIMARY KEY, ...)")
      else if step == 2 then Replaced("ALTER TABLE TXNO_OUTBOX ADD uniqueRequestId VARCHAR(100) NULL UNIQUE")
      else if step == 3 then Replaced("ALTER TABLE TXNO_OUTBOX ADD processed NUMBER(1)")
      else if step == 5 then Replaced("ALTER TABLE TXNO_OUTBOX MODIFY uniqueRequestId VARCHAR2(250)")
      else if step == 6 then Replaced("ALTER TABLE TXNO_OUTBOX RENAME COLUMN blacklisted TO blocked")
      else if step == 7 then Replaced("ALTER TABLE TXNO_OUTBOX ADD lastAttemptTime TIMESTAMP(6)")
      else if step == 8 then Disabled
      else if step == 9 then Replaced("ALTER TABLE TXNO_OUTBOX ADD topic VARCHAR(250) DEFAULT '*' NOT NULL")
      else if step == 10 then Replaced("ALTER TABLE TXNO_OUTBOX ADD seq NUMBER")
      else if step == 11 then Replaced("CREATE TABLE TXNO_SEQUENCE (topic, seq, PRIMARY KEY (topic, seq))")
      else Unchanged
    case MsSqlServer =>
      if step == 1 then Replaced("CREATE TABLE TXNO_OUTBOX (id VARCHAR(36) PRIMARY KEY, ...)")
      else if step == 2 then Replaced("ALTER TABLE TXNO_OUTBOX ADD uniqueRequestId VARCHAR(100)")
      else if step == 3 then Replaced("ALTER TABLE TXNO_OUTBOX ADD processed BIT")
      else if step == 5 then Replaced("ALTER TABLE TXNO_OUTBOX ALTER COLUMN uniqueRequestId VARCHAR(250)")
      else if step == 6 then Replaced("EXEC sp_rename 'TXNO_OUTBOX.blacklisted', 'blocked', 'COLUMN'")
      else if step == 7 then Replaced("ALTER TABLE TXNO_OUTBOX ADD lastAttemptTime DATETIME2(6)")
      else if step == 8 then Replaced(MsSqlFilteredUniqueIndex)
      else if step == 9 then Replaced("ALTER TABLE TXNO_OUTBOX ADD topic VARCHAR(250) DEFAULT '*' NOT NULL")
      else if step == 10 then Replaced("ALTER TABLE TXNO_OUTBOX ADD seq INT")
      else if step == 11 then Replaced("CREATE TABLE TXNO_SEQUENCE (topic, seq, PRIMARY KEY (topic, seq))")
      else Unchanged
  }

  /** Step 8 is skipped by POSTGRESQL_9, POSTGRESQL_SEQ, H2 and ORACLE; MS_SQL_SERVER replaces it
      with a unique index that only covers rows having a uniqueRequestId. */
  lemma StepEight()
    ensures forall d :: d in {Postgresql9, PostgresqlSeq, H2, Oracle} ==> MigrationOverride(d, 8) == Disabled
    ensures MigrationOverride(MsSqlServer, 8).Replaced?
    ensures Contains(MigrationOverride(MsSqlServer, 8).sql, OnlyWithRequestId)
  {
    ContainsInfix("CREATE UNIQUE INDEX UX_TXNO_OUTBOX_uniqueRequestId ON TXNO_OUTBOX (uniqueRequestId) ",
      OnlyWithRequestId, "");
    assert MsSqlFilteredUniqueIndex + "" == MsSqlFilteredUniqueIndex;
  }

  /** The sequence dialect keeps POSTGRESQL_9's changes up to step 8 and adds its own: seq
      becomes a NOT NULL column filled from a database sequence, and step 11 (the per-topic
      sequence table) is skipped. */
  lemma SequenceDialectMigrations()
    ensures forall step :: 1 <= step <= 9 ==> MigrationOverride(PostgresqlSeq, step) == MigrationOverride(Postgresql9, step)
    ensures MigrationOverride(PostgresqlSeq, 10) == Replaced(PgSeqColumn)
    ensures Contains(PgSeqColumn, SerialNotNull)
    ensures MigrationOverride(PostgresqlSeq, 11) == Disabled
  {
    ContainsInfix("ALTER TABLE TXNO_OUTBOX ADD COLUMN seq ", SerialNotNull, "");
    assert PgSeqColumn + "" == PgSeqColumn;
  }

  // ---------------------------------------------------------------------------------------------
  // The version table

  /** ORACLE runs CREATE TABLE TXNO_VERSION and tolerates a failure only when its message
      carries error code 955 (name already used); any other failure is passed on as it is. */
  function OracleCreateVersionTable(create: Outcome<string>): (r: Outcome<string>)
    ensures r.Pass? <==> create.Pass? || Contains(create.error, "955")
    ensures r.Fail? ==> r == create
  {
    if create.Fail? && !Contains(create.error, "955") then create else Pass
  }

  lemma OracleToleratesExistingTable(before: string, after: string)
    ensures OracleCreateVersionTable(Fail(before + "955" + after)) == Pass
  {
    ContainsInfix(before, "955", after);
  }

  const VersionTable: string := "TXNO_VERSION"

  datatype SchemaChange = SchemaChange(created: bool, tables: set<string>)

  /** MS_SQL_SERVER creates the version table inside IF NOT EXISTS. */
  function MsSqlCreateVersionTable(tables: set<string>): (r: SchemaChange)
    ensures r.created <==> VersionTable !in tables
    ensures r.tables == tables + {VersionTable}
  {
    if VersionTable in tables then SchemaChange(false, tables) else SchemaChange(true, tables + {VersionTable})
  }

  /** Running it again creates nothing and changes nothing. */
  lemma MsSqlCreateVersionTableIdempotent(tables: set<string>)
    ensures !MsSqlCreateVersionTable(MsSqlCreateVersionTable(tables).tables).created
    ensures MsSqlCreateVersionTable(MsSqlCreateVersionTable(tables).tables).tables == MsSqlCreateVersionTable(tables).tables
  {
  }
}
