# transaction-outbox in Dafny

This project is a model of the core of *transaction-outbox*. That library stores each method
call that must happen "after commit" as a row of an outbox table, inside the caller's own
database transaction, and replays it later. The model covers these parts:

- **The outbox entry** (`outbox_entry.dfy`): its validation rule, its memoised description with
  the recursive argument renderer, equality without the cache, and the logging context (MDC)
  that wraps an invocation.
- **The outbox table and its SQL** (`outbox_table.dfy`, `pgseq_dialect.dfy`, `dialect.dfy`).
  The table is a `map<Id, Row>`. Every statement template is a predicate over the table that
  describes *every* result a database may return. `LIMIT` without `ORDER BY` may return any
  `batchSize` qualifying rows. The model covers:
  - the PostgreSQL-sequence dialect;
  - the MY_SQL_8, POSTGRESQL_9, ORACLE and MS_SQL_SERVER forms of the same statements, proved
    to agree with it or to differ exactly where the SQL differs;
  - boolean rendering, migration override tables, and the version-table error rule.
- **The persistor** (`pgseq_persistor.dfy`). It is a class whose state is:
  - the table;
  - the next value of the database sequence `txno_outbox_seq_seq`;
  - the JDBC batch of inserts added to the transaction but not yet executed.

  It has one method per persistor operation. Its class invariant is that ids, unique request
  ids and seq values are unique and that seq values are below the sequence's next value. Every
  method preserves it.
- **Listeners** (`listener.dfy`): `EMPTY` and `andThen`, as event traces and nested invocators.
- **The thread-local transaction stack** (`transaction_manager.dfy`).
- **The Spring layer**:
  - `annotations.dfy`: the annotation with its defaults.
  - `topic_generator.dfy`: topic strings.
  - `method_interceptor.dfy`: dispatch of annotated and plain calls.
  - `method_registry.dfy`: pairing outbox methods with result handlers.
  - `bean_post_processor.dfy`: selecting, validating and registering a bean's methods.

Inputs the model does not compute are parameters:

- the serializer and deserializer of invocations;
- the value a SpEL expression evaluates to;
- whether a lock attempt timed out;
- whether a statement failed for a reason other than a duplicate key;
- whether an MDC adapter exists;
- what the bean itself would return or throw when called.

Integers are unbounded. Timestamps are integers.

Two behaviours of the source that are easy to miss:

- The seq column of the sequence dialect is `BIGSERIAL NOT NULL` (migration step 10), so rows
  saved without a topic also receive a seq, drawn from the same sequence when the row is
  stored.
- A lock's `FOR UPDATE SKIP LOCKED` is concurrency and is not modelled.

## Model

| member | source | states |
|---|---|---|
| OutboxEntry.IsValid | transactionoutbox-core/src/main/java/com/gruelbox/transactionoutbox/TransactionOutboxEntry.java:164-173 | The validation rule on its own: an id and an invocation, uid and topic null or not blank, attempts and version not negative, and a topic other than `*`. `Validate` is proved to report no error exactly when it holds. |
| OutboxEntry.Validate | transactionoutbox-core/src/main/java/com/gruelbox/transactionoutbox/TransactionOutboxEntry.java:164-173 | No error exactly when the entry is valid: id and invocation present, uid and topic null or not blank, attempts and version not negative, topic not "*". Any reported error names a rule the entry really breaks; a null id is the first error reported. |
| OutboxEntry.StringifyAsWritten | transactionoutbox-core/src/main/java/com/gruelbox/transactionoutbox/TransactionOutboxEntry.java:151-162 | The renderer as written, casting every array to `Object[]`: no result (the ClassCastException) for a value that is or contains an array of primitives. `PrimitiveArrayBreaksStringify` and `StringifyAgreesWithSource` are stated over it. |
| OutboxEntry.StringifyAllAsWritten | transactionoutbox-core/src/main/java/com/gruelbox/transactionoutbox/TransactionOutboxEntry.java:136-138 | The arguments rendered as written: when every argument renders there is one text per argument, in order; when any fails, so does the whole. |
| OutboxEntry.PrimitiveArrayBreaksStringify | transactionoutbox-core/src/main/java/com/gruelbox/transactionoutbox/TransactionOutboxEntry.java:151-162 | The source's renderer fails on an `int[]` argument, also when it is nested in an `Object[]`. |
| OutboxEntry.Stringify | transactionoutbox-core/src/main/java/com/gruelbox/transactionoutbox/TransactionOutboxEntry.java:151-162 | null renders as `null`, a string in double quotes, any other object as its `toString`, and an array in brackets. |
| OutboxEntry.StringifyAll | transactionoutbox-core/src/main/java/com/gruelbox/transactionoutbox/TransactionOutboxEntry.java:136-138 | One rendering per argument, each the element rendered on its own. |
| OutboxEntry.StringifyAgreesWithSource | transactionoutbox-core/src/main/java/com/gruelbox/transactionoutbox/TransactionOutboxEntry.java:151-162 | Wherever no array of primitives occurs, the corrected renderer gives exactly the source's output. |
| OutboxEntry.JoinFirst | transactionoutbox-core/src/main/java/com/gruelbox/transactionoutbox/TransactionOutboxEntry.java:136-138 | Joining with a separator splits off the first part: `first + sep + join(rest)`. |
| OutboxEntry.DescriptionOf | transactionoutbox-core/src/main/java/com/gruelbox/transactionoutbox/TransactionOutboxEntry.java:129-141 | The text `description()` formats: `Class.method(args) [id]`, then the uid part, then the seq part. What it states is given by the lemmas below (`DescriptionStartsWithCall` to `DescriptionShowsSequence`). |
| OutboxEntry.DescriptionStartsWithCall | transactionoutbox-core/src/main/java/com/gruelbox/transactionoutbox/TransactionOutboxEntry.java:129-141 | The description starts with `Class.method(`. |
| OutboxEntry.DescriptionEndsWithBracket | transactionoutbox-core/src/main/java/com/gruelbox/transactionoutbox/TransactionOutboxEntry.java:129-141 | The description always ends with `]`, whichever optional parts are present. |
| OutboxEntry.NullArgsShown | transactionoutbox-core/src/main/java/com/gruelbox/transactionoutbox/TransactionOutboxEntry.java:134-135 | Null arguments show as `(null) [` in the description. |
| OutboxEntry.OptionalParts | transactionoutbox-core/src/main/java/com/gruelbox/transactionoutbox/TransactionOutboxEntry.java:140-141 | The ` uid=[..]` part is present exactly when there is a uniqueRequestId, and the ` seq=[..]` part exactly when there is a topic. |
| OutboxEntry.DescriptionIgnoresProgress | transactionoutbox-core/src/main/java/com/gruelbox/transactionoutbox/TransactionOutboxEntry.java:129-141 | Attempt times, attempts, blocked, processed and version never affect the description. |
| OutboxEntry.DescriptionShowsSequence | transactionoutbox-core/src/main/java/com/gruelbox/transactionoutbox/TransactionOutboxEntry.java:141 | With a topic, different sequences give different descriptions, so a cached description can go stale. |
| OutboxEntry.FilledContext | transactionoutbox-core/src/main/java/com/gruelbox/transactionoutbox/TransactionOutboxEntry.java:211-217 | The context during the call is the invocation's MDC plus `outbox.class`, `outbox.method`, `outbox.id` and `outbox.attempt` (Integer.toString of attempts); every other key keeps the invocation's value. |
| OutboxEntry.TransactionOutboxEntry.constructor | transactionoutbox-core/src/main/java/com/gruelbox/transactionoutbox/TransactionOutboxEntry.java:119-120 | A new entry has the given fields and no cached description. |
| OutboxEntry.TransactionOutboxEntry.Description | transactionoutbox-core/src/main/java/com/gruelbox/transactionoutbox/TransactionOutboxEntry.java:125-149 | The first call computes the description from the fields. Later calls return the cached text. The cache is filled afterwards. |
| OutboxEntry.TransactionOutboxEntry.SetSequence | transactionoutbox-core/src/main/java/com/gruelbox/transactionoutbox/TransactionOutboxEntry.java:49-52 | Only the sequence changes. |
| OutboxEntry.TransactionOutboxEntry.SetInvocation | transactionoutbox-core/src/main/java/com/gruelbox/transactionoutbox/TransactionOutboxEntry.java:58-61 | Only the invocation changes. |
| OutboxEntry.TransactionOutboxEntry.SetVersion | transactionoutbox-core/src/main/java/com/gruelbox/transactionoutbox/TransactionOutboxEntry.java:114-117 | Only the version changes. |
| OutboxEntry.TransactionOutboxEntry.SetAttempts | transactionoutbox-core/src/main/java/com/gruelbox/transactionoutbox/TransactionOutboxEntry.java:85-88 | Only the attempts change. |
| OutboxEntry.TransactionOutboxEntry.WithinMdc | transactionoutbox-core/src/main/java/com/gruelbox/transactionoutbox/TransactionOutboxEntry.java:175-209 | With an invocation MDC and an adapter, the callback sees the filled context, and afterwards the MDC is exactly what it was before (none if none), whatever the callback put in it. Otherwise the callback sees the context as it was, and the context it leaves stays. Either way the callback's return or throw is passed on. |
| OutboxEntry.DescriptionComputedOnce | transactionoutbox-core/src/main/java/com/gruelbox/transactionoutbox/TransactionOutboxEntry.java:125-149 | A description read, then setSequence/setVersion/setAttempts, then a second read gives the same text twice. |
| OutboxEntry.TransactionOutboxEntry.Equals | transactionoutbox-core/src/main/java/com/gruelbox/transactionoutbox/TransactionOutboxEntry.java:119-120 | The equality Lombok generates (the class is `@EqualsAndHashCode`): all fields, except the cache flag and the cached text. |
| OutboxEntry.DescriptionKeepsEquality | transactionoutbox-core/src/main/java/com/gruelbox/transactionoutbox/TransactionOutboxEntry.java:119-120 | Filling the description cache keeps an entry equal to every entry it was equal to. |
| OutboxListener.Fire | transactionoutbox-core/src/main/java/com/gruelbox/transactionoutbox/TransactionOutboxListener.java:102-130 | An event reaching a listener: an observer is notified and may throw; `andThen` notifies self and then, unless self threw, other. `FireInOrder` and `ThrowStopsDelivery` state the resulting order against `Notify`. |
| OutboxListener.WrapInvocation | transactionoutbox-core/src/main/java/com/gruelbox/transactionoutbox/TransactionOutboxListener.java:108-112 | `andThen`'s wrapInvocation: self wraps an invocator that runs other's wrapInvocation around the original invocator. `WrapNestsInOrder` proves it equals `WrapChain`. |
| OutboxListener.FireInOrder | transactionoutbox-core/src/main/java/com/gruelbox/transactionoutbox/TransactionOutboxListener.java:103-130 | When no callback throws, every event (scheduled, success, failure, blocked) reaches each observer of a composed listener once, left to right: `a` before `b`, and nothing is thrown. |
| OutboxListener.ThrowStopsDelivery | transactionoutbox-core/src/main/java/com/gruelbox/transactionoutbox/TransactionOutboxListener.java:103-130 | When a callback throws, the observers up to and including the first thrower are called in order, none after it is, and that observer's exception reaches the caller. |
| OutboxListener.WrapNestsInOrder | transactionoutbox-core/src/main/java/com/gruelbox/transactionoutbox/TransactionOutboxListener.java:109-112 | wrapInvocation nests the observers in composition order: the first is outermost and the original invocator innermost. |
| OutboxListener.WrapOne | transactionoutbox-core/src/main/java/com/gruelbox/transactionoutbox/TransactionOutboxListener.java:36-39 | A wrapping observer is entered first, before whatever it wraps. |
| OutboxListener.Notify | transactionoutbox-core/src/main/java/com/gruelbox/transactionoutbox/TransactionOutboxListener.java:95 | The reference order: notification i goes to observer i. |
| OutboxListener.EmptyDoesNothing | transactionoutbox-core/src/main/java/com/gruelbox/transactionoutbox/TransactionOutboxListener.java:8-39 | EMPTY notifies nobody, and its wrapInvocation is exactly the invocator. |
| OutboxListener.EmptyIsNeutral | transactionoutbox-core/src/main/java/com/gruelbox/transactionoutbox/TransactionOutboxListener.java:98-131 | andThen with EMPTY on either side changes neither the events nor the wrapped run. |
| OutboxListener.AndThenAssociative | transactionoutbox-core/src/main/java/com/gruelbox/transactionoutbox/TransactionOutboxListener.java:98-131 | `(a.andThen(b)).andThen(c)` and `a.andThen(b.andThen(c))` give the same events and the same wrapped run. |
| OutboxListener.AllProceedRunsInvocator | transactionoutbox-core/src/main/java/com/gruelbox/transactionoutbox/TransactionOutboxListener.java:109-112 | When all observers proceed, each is entered in order, the invocator runs once at the end, and its result or exception comes out. |
| OutboxListener.SuppressorHidesInner | transactionoutbox-core/src/main/java/com/gruelbox/transactionoutbox/TransactionOutboxListener.java:109-112 | The first observer that does not proceed decides the result, whether it returns a value or throws; nothing inside it runs, the invocator included. |
| TransactionManager.ThreadLocalTransactionManager.constructor | transactionoutbox-core/src/main/java/com/gruelbox/transactionoutbox/spi/AbstractThreadLocalTransactionManager.java:65-67 | A thread starts with no open transaction. |
| TransactionManager.ThreadLocalTransactionManager.Push | transactionoutbox-core/src/main/java/com/gruelbox/transactionoutbox/spi/AbstractThreadLocalTransactionManager.java:52-55 | Returns its argument, which becomes the top of the stack, the rest unchanged. |
| TransactionManager.ThreadLocalTransactionManager.Pop | transactionoutbox-core/src/main/java/com/gruelbox/transactionoutbox/spi/AbstractThreadLocalTransactionManager.java:57-63 | Returns and removes the top; popping the last one removes the thread-local slot; an empty stack fails. |
| TransactionManager.ThreadLocalTransactionManager.Peek | transactionoutbox-core/src/main/java/com/gruelbox/transactionoutbox/spi/AbstractThreadLocalTransactionManager.java:65-67 | Empty exactly when the stack is empty; otherwise the top. |
| TransactionManager.ThreadLocalTransactionManager.RequireTransactionReturns | transactionoutbox-core/src/main/java/com/gruelbox/transactionoutbox/spi/AbstractThreadLocalTransactionManager.java:41-45 | NoTransactionActive on an empty stack. Otherwise the result or failure of the work run with the top transaction. |
| TransactionManager.ThreadLocalTransactionManager.InCurrentOrNewTransactionAsWritten | transactionoutbox-core/src/main/java/com/gruelbox/transactionoutbox/spi/AbstractThreadLocalTransactionManager.java:47-50 | The code as written. With no transaction open, the supplier runs once, in a new one. With one open, it runs there; if it returns null it runs a second time, in a new transaction, and that result is returned. |
| TransactionManager.ThreadLocalTransactionManager.InCurrentOrNewTransaction | transactionoutbox-core/src/main/java/com/gruelbox/transactionoutbox/spi/AbstractThreadLocalTransactionManager.java:47-50 | The method as intended: the supplier runs once, whatever it returns. It runs in the top transaction if there is one, and a new one is started exactly when there is none. |
| TransactionManager.NullResultRunsTwice | transactionoutbox-core/src/main/java/com/gruelbox/transactionoutbox/spi/AbstractThreadLocalTransactionManager.java:49 | Inside an open transaction, work that returns null runs twice as written (in the open transaction, then in a new one), and once in the corrected form. |
| TransactionManager.NestedPopsAreLifo | transactionoutbox-core/src/main/java/com/gruelbox/transactionoutbox/spi/AbstractThreadLocalTransactionManager.java:52-67 | Two pushes pop in reverse order. Afterwards the slot is gone and peek is empty. |
| OutboxTable.TakeLimited | transactionoutbox-core/src/main/java/com/gruelbox/transactionoutbox/PgSeqDialect.java:18-21 | A query with LIMIT returns min(limit, candidates) distinct candidates. With ORDER BY seq they are sorted, and no candidate left out comes earlier than one returned. |
| OutboxTable.ShortSelectionTakesAll | transactionoutbox-core/src/main/java/com/gruelbox/transactionoutbox/PgSeqDialect.java:18-21 | A result shorter than its LIMIT holds every candidate. |
| PgSeqDialect.IsSelectBatchResult | transactionoutbox-core/src/main/java/com/gruelbox/transactionoutbox/PgSeqDialect.java:18-21 | The results selectBatch may return: rows that are due, unblocked, unprocessed and without a topic, min(batchSize, eligible) distinct ones, in seq order, and no eligible row left out ahead of a returned one. |
| PgSeqDialect.SelectBatchReturnsEligibleInOrder | transactionoutbox-core/src/main/java/com/gruelbox/transactionoutbox/PgSeqDialect.java:18-21 | selectBatch returns at most batchSize rows, all due, unblocked, unprocessed and without a topic, in ascending seq; no eligible row left out precedes a returned one; a short result holds every eligible row. |
| PgSeqDialect.RowNumberFirst | transactionoutbox-core/src/main/java/com/gruelbox/transactionoutbox/PgSeqDialect.java:8-9 | `ROW_NUMBER() ... = 1` over unprocessed rows with a topic: the row before every other such row of its topic by seq (the comment explains ties, which a persistor table never has). |
| PgSeqDialect.IsFetchNextInAllTopicsResult | transactionoutbox-core/src/main/java/com/gruelbox/transactionoutbox/PgSeqDialect.java:7-10 | The results fetchNextInAllTopics may return: min(batchSize, heads) distinct rows in any order, each ranked first in its topic, due, and not a blocked take-last row. |
| PgSeqDialect.NextInTopicsOnePerTopic | transactionoutbox-core/src/main/java/com/gruelbox/transactionoutbox/PgSeqDialect.java:7-10 | fetchNextInAllTopics offers at most one row of each topic. |
| PgSeqDialect.HeadHidesRest | transactionoutbox-core/src/main/java/com/gruelbox/transactionoutbox/PgSeqDialect.java:7-10 | A row with an earlier unprocessed row in its topic is never offered, whether that earlier row is due or blocked. |
| PgSeqDialect.HeadReturnedUnlessBlockedTakeLast | transactionoutbox-core/src/main/java/com/gruelbox/transactionoutbox/PgSeqDialect.java:10 | A topic head is offered exactly when it is due and not both blocked and orderedTakeLast. |
| PgSeqDialect.Outdated | transactionoutbox-core/src/main/java/com/gruelbox/transactionoutbox/PgSeqDialect.java:11-14 | `rn > 1` under `ORDER BY seq DESC`: a take-last row of a topic for which some other take-last row of the topic ranks ahead. |
| PgSeqDialect.DeleteOutdated | transactionoutbox-core/src/main/java/com/gruelbox/transactionoutbox/PgSeqDialect.java:11-14 | deleteOutdatedInAllTopics only removes rows, and never changes the rows it keeps. |
| PgSeqDialect.DeleteOutdatedKeepsOthers | transactionoutbox-core/src/main/java/com/gruelbox/transactionoutbox/PgSeqDialect.java:11-14 | Rows without orderedTakeLast, and rows without a topic, are never deleted. |
| PgSeqDialect.DeleteOutdatedKeepsLast | transactionoutbox-core/src/main/java/com/gruelbox/transactionoutbox/PgSeqDialect.java:11-14 | A topic that had take-last rows keeps one: its highest-seq row. |
| PgSeqDialect.DeleteOutdatedLeavesOne | transactionoutbox-core/src/main/java/com/gruelbox/transactionoutbox/PgSeqDialect.java:11-14 | With distinct seqs, exactly one take-last row per topic survives. |
| PgSeqDialect.DeleteOutdatedIdempotent | transactionoutbox-spring/src/test/java/com/gruelbox/transactionoutbox/spring/example/EventuallyConsistentControllerTest.java:144-152 | A second run deletes nothing. |
| PgSeqDialect.IsDeleteExpiredResult | transactionoutbox-core/src/main/java/com/gruelbox/transactionoutbox/PgSeqDialect.java:15-17 | The tables deleteExpired may leave: exactly min(batchSize, expired) rows removed, each due, processed and unblocked, and every other row unchanged. |
| PgSeqDialect.DeleteExpiredOnlyExpired | transactionoutbox-core/src/main/java/com/gruelbox/transactionoutbox/PgSeqDialect.java:15-17 | Only processed, unblocked, due rows are deleted, at most batchSize. |
| PgSeqDialect.LockRow | transactionoutbox-core/src/main/java/com/gruelbox/transactionoutbox/PgSeqDialect.java:22-24 | A row is found exactly when some row has both the id and the version; it is that row, and the only row with the id. |
| Dialects.IsSelectBatchResult | transactionoutbox-core/src/main/java/com/gruelbox/transactionoutbox/Dialect.java:43-139 | Each templated dialect's selectBatch: the same filter everywhere, with `ORDER BY seq` only in the sequence dialect and an unordered LIMIT, ROWNUM or TOP elsewhere. |
| Dialects.SelectBatchAgrees | transactionoutbox-core/src/main/java/com/gruelbox/transactionoutbox/Dialect.java:43-63 | Any result of the sequence dialect's selectBatch is a possible result in every other dialect. Every dialect returns only eligible rows, at most batchSize. |
| Dialects.SequenceDialectMatches | transactionoutbox-core/src/main/java/com/gruelbox/transactionoutbox/PgSeqDialect.java:7-10 | The per-dialect form of fetchNextInAllTopics for the sequence dialect is the sequence dialect's own. |
| Dialects.MinSeqHead | transactionoutbox-core/src/main/java/com/gruelbox/transactionoutbox/Dialect.java:143-147 | MS_SQL_SERVER's `seq = (SELECT MIN(seq) ...)` over the unprocessed rows of the topic; a NULL seq is never the head. |
| Dialects.IsNextInTopic | transactionoutbox-core/src/main/java/com/gruelbox/transactionoutbox/Dialect.java:36-147 | Each templated dialect's fetchNextInAllTopics filter: due, plus the ROW_NUMBER head (and, in the sequence dialect only, not a blocked take-last row) or MS_SQL_SERVER's MIN(seq) head. |
| Dialects.RowNumberMatchesMinSeq | transactionoutbox-core/src/main/java/com/gruelbox/transactionoutbox/Dialect.java:143-147 | With distinct seqs in each topic, the `ROW_NUMBER() = 1` row and the `seq = MIN(seq)` row are the same. |
| Dialects.FourDialectsAgree | transactionoutbox-core/src/main/java/com/gruelbox/transactionoutbox/Dialect.java:36-56 | MY_SQL_8, POSTGRESQL_9, ORACLE and MS_SQL_SERVER offer the same topic heads. |
| Dialects.SequenceDialectSkipsBlockedTakeLast | transactionoutbox-core/src/main/java/com/gruelbox/transactionoutbox/PgSeqDialect.java:10 | The sequence dialect offers the POSTGRESQL_9 heads minus those that are blocked and orderedTakeLast. |
| Dialects.BlockedHeadStillOffered | transactionoutbox-core/src/main/java/com/gruelbox/transactionoutbox/Dialect.java:37-39 | The four other dialects do not filter on blocked: a due blocked head is still offered. |
| Dialects.HeadHidesRestInEveryDialect | transactionoutbox-core/src/main/java/com/gruelbox/transactionoutbox/Dialect.java:143-147 | In every dialect an earlier unprocessed row of the topic hides the later ones. |
| Dialects.OnePerTopicInEveryDialect | transactionoutbox-core/src/main/java/com/gruelbox/transactionoutbox/Dialect.java:36-39 | At most one row per topic, in every dialect. |
| Dialects.DeleteExpiredInEveryDialect | transactionoutbox-core/src/main/java/com/gruelbox/transactionoutbox/Dialect.java:40-42 | deleteExpired removes only processed, unblocked, due rows, at most batchSize, and leaves the other rows as they were; a short deletion takes every expired row. |
| Dialects.BooleanValue | transactionoutbox-core/src/main/java/com/gruelbox/transactionoutbox/Dialect.java:119 | ORACLE and MS_SQL_SERVER write a boolean as "1" or "0". |
| Dialects.BooleanValueRoundTrip | transactionoutbox-core/src/main/java/com/gruelbox/transactionoutbox/Dialect.java:148 | true is "1", false is "0", and a written value reads back as itself. |
| Dialects.MigrationOverride | transactionoutbox-core/src/main/java/com/gruelbox/transactionoutbox/Dialect.java:67-172 | Each dialect's `changeMigration` and `disableMigration` calls as a table from step to change. `StepEight` and `SequenceDialectMigrations` are stated over it. |
| Dialects.StepEight | transactionoutbox-core/src/main/java/com/gruelbox/transactionoutbox/Dialect.java:165 | Step 8 is disabled in POSTGRESQL_9, the sequence dialect, H2 and ORACLE. MS_SQL_SERVER replaces it with a unique index filtered to rows with a uniqueRequestId. |
| Dialects.SequenceDialectMigrations | transactionoutbox-core/src/main/java/com/gruelbox/transactionoutbox/PgSeqDialect.java:25-31 | The sequence dialect keeps the POSTGRESQL_9 changes for steps 1-9. Step 10 adds seq as `BIGSERIAL NOT NULL`. Step 11 is disabled. |
| Dialects.OracleCreateVersionTable | transactionoutbox-core/src/main/java/com/gruelbox/transactionoutbox/Dialect.java:120-132 | Creation passes exactly when CREATE succeeded or its error message contains "955"; any other error is passed on unchanged. |
| Dialects.OracleToleratesExistingTable | transactionoutbox-core/src/main/java/com/gruelbox/transactionoutbox/Dialect.java:127 | Any error whose message contains 955 is swallowed. |
| Dialects.MsSqlCreateVersionTable | transactionoutbox-core/src/main/java/com/gruelbox/transactionoutbox/Dialect.java:172-182 | The table is created exactly when it is absent, and is present afterwards. |
| Dialects.MsSqlCreateVersionTableIdempotent | transactionoutbox-core/src/main/java/com/gruelbox/transactionoutbox/Dialect.java:172-182 | A second run creates and changes nothing. |
| PgSeqPersistorModel.InsertedRow | transactionoutbox-core/src/main/java/com/gruelbox/transactionoutbox/PgSeqPersistor.java:156-178 | The row written for an entry. With a topic it carries topic, seq and orderedTakeLast. Without one it takes the defaults: `*`, no seq yet, false. |
| PgSeqPersistorModel.MapRow | transactionoutbox-core/src/main/java/com/gruelbox/transactionoutbox/PgSeqPersistor.java:353-385 | `map`: a row read back into an entry, topic `*` meaning no topic and the invocation deserialised. `TopicEntryReadsBack` and `UntopicedEntryReadsBack` prove it inverts `InsertedRow`. |
| PgSeqPersistorModel.TopicEntryReadsBack | transactionoutbox-core/src/main/java/com/gruelbox/transactionoutbox/PgSeqPersistor.java:353-385 | An entry with a topic, saved and read back, is itself apart from the invocation, which becomes the deserialised stored text. |
| PgSeqPersistorModel.UntopicedEntryReadsBack | transactionoutbox-core/src/main/java/com/gruelbox/transactionoutbox/PgSeqPersistor.java:353-385 | An entry without a topic reads back with no topic and with the seq and orderedTakeLast the column defaults gave it. |
| PgSeqPersistorModel.ReservedTopicIsLost | transactionoutbox-core/src/main/java/com/gruelbox/transactionoutbox/PgSeqPersistor.java:369 | The topic `*` reads back as no topic, and such an entry fails validation. |
| PgSeqPersistorModel.UpdatedRow | transactionoutbox-core/src/main/java/com/gruelbox/transactionoutbox/PgSeqPersistor.java:201-215 | update keeps id, uniqueRequestId, invocation, topic, seq and orderedTakeLast as stored, and writes version + 1. |
| PgSeqPersistorModel.StoreInvariant | transactionoutbox-core/src/main/java/com/gruelbox/transactionoutbox/PgSeqDialect.java:25-31 | What the schema keeps true of the table and the pending batch: ids and uniqueRequestIds unique; every stored row has a seq; and the seqs, drawn from the one sequence (step 10), are distinct and below its next value. Queued rows have no uniqueRequestId. |
| PgSeqPersistorModel.PgSeqPersistor.Valid | transactionoutbox-core/src/main/java/com/gruelbox/transactionoutbox/PgSeqDialect.java:25-31 | The persistor's class invariant, `StoreInvariant` over its table, batch and next sequence value. Every persistor method requires and ensures it. |
| PgSeqPersistorModel.StoreHasDistinctTopicSeqs | transactionoutbox-core/src/main/java/com/gruelbox/transactionoutbox/PgSeqDialect.java:6 | Since every seq comes from one sequence, a persistor's table meets the distinct-seq hypothesis of the dialect lemmas. |
| PgSeqPersistorModel.PgSeqPersistor.constructor | transactionoutbox-core/src/main/java/com/gruelbox/transactionoutbox/PgSeqPersistor.java:37-51 | An empty table, an empty batch and a fresh sequence. |
| PgSeqPersistorModel.PgSeqPersistor.Save | transactionoutbox-core/src/main/java/com/gruelbox/transactionoutbox/PgSeqPersistor.java:97-146 | See the list after this table. |
| PgSeqPersistorModel.PgSeqPersistor.DrawSequence | transactionoutbox-core/src/main/java/com/gruelbox/transactionoutbox/PgSeqPersistor.java:139-146 | An entry with a topic gets the sequence's next value, and the sequence advances by one. An entry without a topic and the sequence are left alone. The table and batch are untouched. |
| PgSeqPersistorModel.SaveOutcome | transactionoutbox-core/src/main/java/com/gruelbox/transactionoutbox/PgSeqPersistor.java:122-136 | What save reports: pass for a queued or stored row, AlreadyScheduled carrying the description for a duplicate, and the failure itself otherwise. The description is computed, once, and cached on every path but the SQL failure. |
| PgSeqPersistorModel.PgSeqPersistor.Insert | transactionoutbox-core/src/main/java/com/gruelbox/transactionoutbox/PgSeqPersistor.java:120-136 | The insert statement on its own: queued, rethrown failure, duplicate, or stored. A row without a seq draws one from the sequence when it is stored, and also when its insert fails as a duplicate, because the column default is evaluated before the unique indexes are checked. |
| PgSeqPersistorModel.PgSeqPersistor.FlushBatch | transactionoutbox-core/src/main/java/com/gruelbox/transactionoutbox/PgSeqPersistor.java:122-124 | Executing the queued inserts succeeds exactly when their ids are new and distinct. On success each queued row is stored (with a seq drawn if it had none) and old rows are untouched. On failure the table is unchanged. Either way the batch is emptied and the invariant kept. |
| PgSeqPersistorModel.PgSeqPersistor.Update | transactionoutbox-core/src/main/java/com/gruelbox/transactionoutbox/PgSeqPersistor.java:194-222 | Succeeds exactly when a row has the entry's id and version. It then replaces that row by `UpdatedRow` and raises the entry's version by one, and nothing else changes. Otherwise it raises OptimisticLockException and the table and entry are unchanged. |
| PgSeqPersistorModel.PgSeqPersistor.Delete | transactionoutbox-core/src/main/java/com/gruelbox/transactionoutbox/PgSeqPersistor.java:180-192 | Removes exactly the row with the entry's id and version. Otherwise OptimisticLockException and the table is unchanged. |
| PgSeqPersistorModel.PgSeqPersistor.Lock | transactionoutbox-core/src/main/java/com/gruelbox/transactionoutbox/PgSeqPersistor.java:224-255 | true exactly when it did not time out and a row has that id and version; the entry's invocation then becomes the deserialised stored one. Nothing changes on false. The table is never touched. A timeout logs the description. |
| PgSeqPersistorModel.PgSeqPersistor.Unblock | transactionoutbox-core/src/main/java/com/gruelbox/transactionoutbox/PgSeqPersistor.java:257-277 | Reports a change exactly when that id is blocked and unprocessed. It then sets only attempts = 0 and blocked = false; otherwise the table is unchanged. |
| PgSeqPersistorModel.PgSeqPersistor.GatherResults | transactionoutbox-core/src/main/java/com/gruelbox/transactionoutbox/PgSeqPersistor.java:343-351 | One entry per returned row, in order, each the row as `map` reads it. |
| PgSeqPersistorModel.PgSeqPersistor.SelectBatch | transactionoutbox-core/src/main/java/com/gruelbox/transactionoutbox/PgSeqPersistor.java:279-296 | The rows are a result the dialect's selectBatch allows, and the entries are those rows mapped. |
| PgSeqPersistorModel.PgSeqPersistor.SelectNextInTopics | transactionoutbox-core/src/main/java/com/gruelbox/transactionoutbox/PgSeqPersistor.java:298-314 | The rows are a result the dialect's fetchNextInAllTopics allows, and the entries are those rows mapped. |
| PgSeqPersistorModel.PgSeqPersistor.DeleteProcessedAndExpired | transactionoutbox-core/src/main/java/com/gruelbox/transactionoutbox/PgSeqPersistor.java:316-330 | The new table is a result deleteExpired allows, and the count is the number of rows deleted. |
| PgSeqPersistorModel.PgSeqPersistor.DeleteOutdatedInAllTopics | transactionoutbox-core/src/main/java/com/gruelbox/transactionoutbox/PgSeqPersistor.java:332-341 | The table becomes `DeleteOutdated` of the old one, and the count is the number of rows deleted. |
| PgSeqPersistorModel.PgSeqPersistor.Clear | transactionoutbox-core/src/main/java/com/gruelbox/transactionoutbox/PgSeqPersistor.java:387-394 | The table is empty. |
| PgSeqPersistorModel.ExecuteBatch | transactionoutbox-core/src/main/java/com/gruelbox/transactionoutbox/PgSeqPersistor.java:122-124 | Executing queued rows in order against a table, as FlushBatch states it; the loop stops at the first duplicate id and the table is left unchanged. |
| PgSeqPersistorModel.SuccessiveSavesIncrease | transactionoutbox-core/src/main/java/com/gruelbox/transactionoutbox/PgSeqDialect.java:6 | Two saves with topics, whatever the topics and whatever each save reports, get strictly increasing seq values. |
| SpringAnnotations.PrimitiveResultCases | transactionoutbox-spring/src/main/java/com/gruelbox/transactionoutbox/spring/TransactionalOutboxBeanPostProcessor.java:72 | A refused return type is exactly one of the eight primitives; void is never refused. |
| TopicGenerator.StripLeading | transactionoutbox-spring/src/main/java/com/gruelbox/transactionoutbox/spring/SpringExpressionTopicGenerator.java:45 | Only whitespace is removed from the front, and what is left starts with a non-whitespace character. |
| TopicGenerator.StripTrailing | transactionoutbox-spring/src/main/java/com/gruelbox/transactionoutbox/spring/SpringExpressionTopicGenerator.java:45 | The same at the back. |
| TopicGenerator.StripEmptyIffBlank | transactionoutbox-spring/src/main/java/com/gruelbox/transactionoutbox/spring/SpringExpressionTopicGenerator.java:45-46 | strip leaves nothing exactly when the text is blank, and otherwise leaves no whitespace at either end. |
| TopicGenerator.StripIdempotent | transactionoutbox-spring/src/main/java/com/gruelbox/transactionoutbox/spring/SpringExpressionTopicGenerator.java:45 | Stripping twice is stripping once. |
| TopicGenerator.GenerateTopic | transactionoutbox-spring/src/main/java/com/gruelbox/transactionoutbox/spring/SpringExpressionTopicGenerator.java:29-47 | A topic is never empty and is already stripped. |
| TopicGenerator.NoTopicByDefault | transactionoutbox-spring/src/main/java/com/gruelbox/transactionoutbox/spring/SpringExpressionTopicGenerator.java:31 | No expression and no bean-method topic give no topic. |
| TopicGenerator.BeanMethodTopic | transactionoutbox-spring/src/main/java/com/gruelbox/transactionoutbox/spring/SpringExpressionTopicGenerator.java:31 | With only useBeanMethodAsTopic, the topic is `beanName.methodName`, stripped. |
| TopicGenerator.BeanMethodTopicPresent | transactionoutbox-spring/src/main/java/com/gruelbox/transactionoutbox/spring/SpringExpressionTopicGenerator.java:31-46 | useBeanMethodAsTopic always yields a topic. |
| TopicGenerator.ExpressionTopic | transactionoutbox-spring/src/main/java/com/gruelbox/transactionoutbox/spring/SpringExpressionTopicGenerator.java:39-41 | With only an expression, the topic is its stripped value, or none when that is blank. A null value gives the topic "null". |
| TopicGenerator.CombinedTopic | transactionoutbox-spring/src/main/java/com/gruelbox/transactionoutbox/spring/SpringExpressionTopicGenerator.java:42-44 | With both, the topic is `beanName.methodName-value`, stripped, with null rendered as "null". |
| TopicGenerator.TopicIsStripped | transactionoutbox-spring/src/main/java/com/gruelbox/transactionoutbox/spring/SpringExpressionTopicGenerator.java:45-46 | No topic starts or ends with whitespace. |
| TopicGenerator.EmptyExpressionIgnored | transactionoutbox-spring/src/main/java/com/gruelbox/transactionoutbox/spring/SpringExpressionTopicGenerator.java:33 | An empty expression is never evaluated: the evaluator makes no difference. |
| MethodInterceptor.DelayFor | transactionoutbox-spring/src/main/java/com/gruelbox/transactionoutbox/spring/TransactionalOutboxMethodInterceptor.java:33-34 | No delay exactly when delayMillis ≤ 0. Otherwise the delay is delayMillis. |
| MethodInterceptor.InterceptorTopic | transactionoutbox-spring/src/main/java/com/gruelbox/transactionoutbox/spring/TransactionalOutboxMethodInterceptor.java:55-74 | The interceptor's own copy of generateTopic. `InterceptorTopicAgrees` proves it equals the topic generator's on every input. |
| MethodInterceptor.InterceptorTopicAgrees | transactionoutbox-spring/src/main/java/com/gruelbox/transactionoutbox/spring/TransactionalOutboxMethodInterceptor.java:55-74 | The interceptor's own generateTopic equals SpringExpressionTopicGenerator's on every input. |
| MethodInterceptor.RequestFor | transactionoutbox-spring/src/main/java/com/gruelbox/transactionoutbox/spring/TransactionalOutboxMethodInterceptor.java:36-46 | The scheduled call carries the method and arguments, the annotation's orderedTakeLast and requireInTransaction, its delay rule, and the generated topic. |
| MethodInterceptor.DefaultAnnotationRequest | transactionoutbox-spring/src/main/java/com/gruelbox/transactionoutbox/spring/TransactionalOutbox.java:34-69 | A defaulted annotation asks for no topic, no delay, no take-last, and an existing transaction. |
| MethodInterceptor.OutboxScheduler.constructor | transactionoutbox-spring/src/main/java/com/gruelbox/transactionoutbox/spring/TransactionalOutboxMethodInterceptor.java:27 | Nothing scheduled yet. |
| MethodInterceptor.TransactionalOutboxMethodInterceptor.constructor | transactionoutbox-spring/src/main/java/com/gruelbox/transactionoutbox/spring/TransactionalOutboxMethodInterceptor.java:19-27 | Holds bean name, annotated methods and outbox. |
| MethodInterceptor.TransactionalOutboxMethodInterceptor.Invoke | transactionoutbox-spring/src/main/java/com/gruelbox/transactionoutbox/spring/TransactionalOutboxMethodInterceptor.java:29-53 | It proceeds exactly when the method is not annotated: the bean's own outcome comes back and nothing is scheduled. An annotated call appends its request and returns null. A failure to schedule reaches the caller and schedules nothing. |
| MethodRegistry.RequiredHandlerKey | transactionoutbox-spring/src/main/java/com/gruelbox/transactionoutbox/spring/TransactionalOutboxMethodRegistry.java:125-133 | The handler key is the method name, then the parameter types, then the return type (unless void), then Throwable. |
| MethodRegistry.RequiredKeySeparatesVoid | transactionoutbox-spring/src/main/java/com/gruelbox/transactionoutbox/spring/TransactionalOutboxMethodRegistry.java:121-133 | A void and a non-void method with the same name and parameters need different handlers. |
| MethodRegistry.HandlerBeanIgnored | transactionoutbox-spring/src/main/java/com/gruelbox/transactionoutbox/spring/TransactionalOutboxMethodRegistry.java:146-148 | Matching ignores the handler's bean, so the same handler method on two beans is an ambiguity. |
| MethodRegistry.CallArgs | transactionoutbox-spring/src/main/java/com/gruelbox/transactionoutbox/spring/TransactionalOutboxMethodRegistry.java:64-68 | The call's arguments (none if null), then the result unless the method is void, then the error. |
| MethodRegistry.CallArgsFitHandler | transactionoutbox-spring/src/main/java/com/gruelbox/transactionoutbox/spring/TransactionalOutboxMethodRegistry.java:64-68 | With as many arguments as parameters, the handler gets as many arguments as its key has parameter types. |
| MethodRegistry.FindHandler | transactionoutbox-spring/src/main/java/com/gruelbox/transactionoutbox/spring/TransactionalOutboxMethodRegistry.java:199-221 | Succeeds exactly when one handler has the key, and returns it. No handler gives "Can't find @TransactionalOutboxResultHandler for bean.method(types)". Several give an ambiguity naming them all. |
| MethodRegistry.BuildCallers | transactionoutbox-spring/src/main/java/com/gruelbox/transactionoutbox/spring/TransactionalOutboxMethodRegistry.java:170-197 | Succeeds exactly when each required method has one handler. The callers then cover exactly the required keys, each calling its only handler, without a result parameter exactly when the method is void. A failure is the error of one unresolvable method. |
| MethodRegistry.TransactionalOutboxMethodRegistry.constructor | transactionoutbox-spring/src/main/java/com/gruelbox/transactionoutbox/spring/TransactionalOutboxMethodRegistry.java:55-164 | Nothing registered; callers not built. |
| MethodRegistry.TransactionalOutboxMethodRegistry.RegisterTransactionalOutboxMethod | transactionoutbox-spring/src/main/java/com/gruelbox/transactionoutbox/spring/TransactionalOutboxMethodRegistry.java:158-162 | Files the method under (bean, name, parameter types), replacing an earlier one with that key. |
| MethodRegistry.TransactionalOutboxMethodRegistry.RegisterResultHandlerMethod | transactionoutbox-spring/src/main/java/com/gruelbox/transactionoutbox/spring/TransactionalOutboxMethodRegistry.java:166-168 | Adds the handler to a set. |
| MethodRegistry.TransactionalOutboxMethodRegistry.FindResultHandlerMethodOrThrow | transactionoutbox-spring/src/main/java/com/gruelbox/transactionoutbox/spring/TransactionalOutboxMethodRegistry.java:199-221 | Succeeds exactly when the method has one handler, and returns it; otherwise the not-found or ambiguity error. |
| MethodRegistry.TransactionalOutboxMethodRegistry.RequiredKeys | transactionoutbox-spring/src/main/java/com/gruelbox/transactionoutbox/spring/TransactionalOutboxMethodRegistry.java:173-174 | Exactly the registered methods whose annotation sets requireResultHandler. |
| MethodRegistry.TransactionalOutboxMethodRegistry.OnApplicationEvent | transactionoutbox-spring/src/main/java/com/gruelbox/transactionoutbox/spring/TransactionalOutboxMethodRegistry.java:170-179 | Builds callers for exactly the methods requiring a handler. If any lacks a single one, it fails and the callers are unchanged. |
| MethodRegistry.TransactionalOutboxMethodRegistry.CallResultHandler | transactionoutbox-spring/src/main/java/com/gruelbox/transactionoutbox/spring/TransactionalOutboxMethodRegistry.java:41-53 | Looks up the caller by the invocation's class, method and parameter types, and calls its handler with `CallArgs`. No caller means no call. Before a refresh the lookup fails. |
| MethodRegistry.TransactionalOutboxMethodRegistry.OnSuccess | transactionoutbox-spring/src/main/java/com/gruelbox/transactionoutbox/spring/TransactionalOutboxMethodRegistry.java:31-34 | The handler gets the result and a null error. |
| MethodRegistry.TransactionalOutboxMethodRegistry.OnFailure | transactionoutbox-spring/src/main/java/com/gruelbox/transactionoutbox/spring/TransactionalOutboxMethodRegistry.java:36-39 | The handler gets a null result and the cause. |
| MethodRegistry.SuccessReachesHandler | transactionoutbox-spring/src/main/java/com/gruelbox/transactionoutbox/spring/TransactionalOutboxMethodRegistry.java:31-53 | After a successful refresh, a finished call of a method requiring a handler always reaches a handler, the only handler for that method, with the right number of arguments. A failed refresh leaves the callers of any earlier refresh in place, and the call goes to the caller they hold for the method, if any. Before any refresh the call fails. |
| BeanPostProcessor.SelectAnnotatedMethods | transactionoutbox-spring/src/main/java/com/gruelbox/transactionoutbox/spring/TransactionalOutboxBeanPostProcessor.java:33-46 | Nothing is selected from a class marked @NoTransactionalOutbox, and never a method so marked. Every other annotated method is selected with its annotation, and only those. |
| BeanPostProcessor.ValidateMethods | transactionoutbox-spring/src/main/java/com/gruelbox/transactionoutbox/spring/TransactionalOutboxBeanPostProcessor.java:70-79 | Passes exactly when no method has a primitive non-void return type; a failure names such a method. |
| BeanPostProcessor.PostProcessBeforeInitialization | transactionoutbox-spring/src/main/java/com/gruelbox/transactionoutbox/spring/TransactionalOutboxBeanPostProcessor.java:30-68 | See the list after this table. |
| BeanPostProcessor.RegisterAll | transactionoutbox-spring/src/main/java/com/gruelbox/transactionoutbox/spring/TransactionalOutboxBeanPostProcessor.java:54-56 | After the loop every selected method is registered under the bean's name with its annotation, and every other key is as before. |
| BeanPostProcessor.RegisterStep | transactionoutbox-spring/src/main/java/com/gruelbox/transactionoutbox/spring/TransactionalOutboxBeanPostProcessor.java:54-56 | Registering one more selected method extends the registered-all relation by that method. |

`PgSeqPersistorModel.PgSeqPersistor.Save` states:

- With a topic, the entry first gets the sequence's next value.
- Without a uniqueRequestId, the row joins the batch and the call passes.
- With one, the row is stored at once. An id or uniqueRequestId already present gives
  AlreadyScheduled("Request \<description\> already exists") and stores nothing, but a seq
  value is used up either way: with a topic by the draw, without one by the column default. Any other
  failure is passed on and stores nothing.
- The description is cached when the call passes or gives AlreadyScheduled.

`BeanPostProcessor.PostProcessBeforeInitialization` states:

- A bean with nothing selected is returned unchanged.
- It fails exactly when a selected method has a primitive return type. It then names that
  method and leaves the registry untouched.
- Otherwise every selected method is registered under the bean's name with its annotation, and
  a proxy over the selected methods is returned.

## Left out

- JDBC mechanics are not modelled: statement text assembly, ResultSet streaming, query timeouts
  and `checkConnection`. The table name is a constant.
- Duplicate-key detection is abstracted. `indexViolation` classifies exceptions by class name
  and message. In the model, a clash on the primary key or on the uniqueRequestId index is a
  duplicate, and any other failure is the `otherFailure` input. A PostgreSQL error about some
  other constraint, which the source would also call a duplicate, is not modelled.
- Database concurrency is not modelled: `FOR UPDATE SKIP LOCKED`, `READPAST`, and rows locked by
  other transactions. The model is single-threaded, and a lock timeout is the `timedOut` input.
- Invocation serialisation is not modelled: the serializer and deserializer are parameters.
  The model does not assume they round-trip, which is why read-back lemmas replace the
  invocation.
- The statements of `DefaultDialect`, used by MY_SQL_5 and H2 and by `getDelete`, are not part of
  this model. Delete is modelled as `WHERE id = ? AND version = ?`, the condition update uses.
- Migrations as a process are not modelled; only the per-dialect override tables are. The
  CREATE TABLE texts of ORACLE and MS_SQL_SERVER steps 1 and 11 are shortened in the model.
- The lock templates of MY_SQL_8, POSTGRESQL_9, ORACLE and MS_SQL_SERVER have the same
  `WHERE id = ? AND version = ?` as the sequence dialect. They differ only in locking hints, so
  they share `PgSeqDialect.LockRow`.
- Dialects.RowNumberMatchesMinSeq, FourDialectsAgree, BlockedHeadStillOffered and
  OnePerTopicInEveryDialect: these assume the seq values within a topic are distinct and
  present. That holds for every persistor table (`StoreHasDistinctTopicSeqs`). Ties and NULL seq
  values order differently across databases.
- PgSeqDialect.DeleteOutdatedLeavesOne: this assumes distinct seq values among take-last rows,
  for the same reason.
- The orderedTakeLast column's default is taken to be false. The migration that adds it is
  not part of this model.
- PgSeqPersistorModel.PgSeqPersistor.Save requires an id, as validation guarantees before any
  save. A null id is not modelled.
- OutboxEntry.TransactionOutboxEntry.Description, PgSeqPersistorModel.PgSeqPersistor.Save, Update,
  Delete and Lock require the entry to have an invocation (or a cached description). On a null
  invocation `description()` throws NullPointerException; in save, update and delete that happens
  after the statement has run. Validation rejects such entries before they are saved, and this
  exception is not modelled.
- Transaction binding is not modelled: batches executing at commit, post-commit hooks, and the
  Spring and Quarkus transaction managers. FlushBatch stands for the transaction executing its
  batch.
- TransactionManager.ThreadLocalTransactionManager.InCurrentOrNewTransaction and
  InCurrentOrNewTransactionAsWritten: the new transaction `inTransactionReturns` would open is
  the `newTx` input. Opening and committing it is not modelled. A null result is `None`.
- TransactionManager.ThreadLocalTransactionManager.Pop: popping an empty stack throws
  NoSuchElementException in the source; the model returns None instead.
- OutboxEntry.TransactionOutboxEntry.WithinMdc: whether an MDC adapter exists is the
  `adapterPresent` input. The Runnable and Callable overloads are one method.
- SpEL parsing and evaluation are not modelled: the value is the `evaluate` input. Evaluation
  errors are not modelled.
- Reflection and proxies are not modelled: `MethodIntrospector`, `findMergedAnnotation`,
  `ProxyFactory`, `Method.invoke`, and `getBean` for handler beans. A method's merged
  annotations are the `MethodMeta` input. The proxy is the `Proxied` value.
- BeanPostProcessor.ValidationMessage: the method text omits the modifiers and the exception
  list that `Method.toString` prints.
- MethodRegistry.FindHandler: the ambiguity error carries the set of candidates rather than
  their text joined in stream order. That order is unspecified.
- A handler's own exceptions are only logged in the source and are not modelled.
- OutboxListener.WrapInvocation: an observer either proceeds and passes on the invocator's result,
  or returns or throws without proceeding. An observer that proceeds and then replaces the result
  or throws is not modelled. Observers throwing from callbacks are modelled only by the kinds of
  event they throw on, not by what they throw.
- Logging is not modelled. Only its effect of filling the description cache is kept.
- Integer widths are not modelled: version and attempt counts are unbounded, and `int`/`long`
  overflow is not modelled.

## Findings

| source | as written | input that shows it | evidently intended | confidence | as-written member | corrected member |
|---|---|---|---|---|---|---|
| transactionoutbox-core/src/main/java/com/gruelbox/transactionoutbox/TransactionOutboxEntry.java:155-156 | `stringify` casts every array to `Object[]` | an invocation whose argument is an `int[]`, such as `{1, 2}`: the cast throws ClassCastException, so `description()` throws | render primitive arrays like other arrays, e.g. `[1, 2]` | not executed | OutboxEntry.PrimitiveArrayBreaksStringify | OutboxEntry.StringifyAgreesWithSource |
| transactionoutbox-core/src/main/java/com/gruelbox/transactionoutbox/spi/AbstractThreadLocalTransactionManager.java:49 | `peekTransaction().map(supplier::doWork).orElseGet(() -> inTransactionReturns(supplier))` | a supplier that returns null (any `Void` work) while a transaction is open: `map` yields an empty Optional, so `orElseGet` runs the supplier again, in a new transaction | run the supplier once, in the open transaction, whatever it returns | not executed | TransactionManager.NullResultRunsTwice | TransactionManager.ThreadLocalTransactionManager.InCurrentOrNewTransaction |
