/** The outbox table as the SQL templates see it: rows keyed by id, the order rows take under
    ORDER BY seq, and what a query with LIMIT may return. */
module OutboxTable {
  import opened Common
  import opened OutboxEntry

  type Id = string

  /** The serialised invocation text stored in the invocation column. */
  type Blob = string

  /** The topic column's value for rows saved without a topic (its column default). */
  const UnorderedTopic: string := "*"

  /** One row of TXNO_OUTBOX, with the columns of the persistor's field list. */
  datatype Row = Row(
    id: Id,
    uniqueRequestId: Option<string>,
    invocation: Blob,
    topic: string,
    sequence: Option<int>,   // the seq column
    lastAttemptTime: Option<Timestamp>,
    nextAttemptTime: Timestamp,
    attempts: int,
    blocked: bool,
    processed: bool,
    version: int,
    orderedTakeLast: bool)

  /** The table: the primary key id maps to its row. */
  type Table = map<Id, Row>

  predicate KeyedById(t: Table) {
    forall id :: id in t ==> t[id].id == id
  }

  /** nextAttemptTime < now. */
  predicate Due(r: Row, now: Timestamp) {
    r.nextAttemptTime < now
  }

  // ---------------------------------------------------------------------------------------------
  // ORDER BY seq (ascending; NULL sorts after every value, as in PostgreSQL)

  /** a may come no later than b. */
  predicate SeqNotAfter(a: Row, b: Row) {
    b.sequence.None? || (a.sequence.Some? && a.sequence.value <= b.sequence.value)
  }

  /** a comes strictly before b. */
  predicate SeqBefore(a: Row, b: Row) {
    a.sequence.Some? && (b.sequence.None? || a.sequence.value < b.sequence.value)
  }

  lemma OrderFacts(a: Row, b: Row, c: Row)
    ensures SeqNotAfter(a, a)
    ensures SeqNotAfter(a, b) || SeqNotAfter(b, a)
    ensures SeqNotAfter(a, b) && SeqNotAfter(b, c) ==> SeqNotAfter(a, c)
    ensures SeqBefore(a, b) <==> !SeqNotAfter(b, a)
  {
  }

  /** A finite non-empty set of rows has a first row under ORDER BY seq. */
  lemma {:induction false} FirstExists(s: set<Row>)
    requires s != {}
    ensures exists m :: m in s && forall x :: x in s ==> SeqNotAfter(m, x)
    decreases |s|
  {
    var x :| x in s;
    if s - {x} == {} {
      assert s == {x};
    } else {
      FirstExists(s - {x});
      var m :| m in s - {x} && forall y :: y in s - {x} ==> SeqNotAfter(m, y);
      if SeqNotAfter(m, x) {
        assert forall y :: y in s ==> SeqNotAfter(m, y);
      } else {
        forall y | y in s
          ensures SeqNotAfter(x, y)
        {
          OrderFacts(x, m, y);
        }
      }
    }
  }

  /** ... and a last row. */
  lemma {:induction false} LastExists(s: set<Row>)
    requires s != {}
    ensures exists m :: m in s && forall x :: x in s ==> SeqNotAfter(x, m)
    decreases |s|
  {
    var x :| x in s;
    if s - {x} == {} {
      assert s == {x};
    } else {
      LastExists(s - {x});
      var m :| m in s - {x} && forall y :: y in s - {x} ==> SeqNotAfter(y, m);
      if SeqNotAfter(x, m) {
        assert forall y :: y in s ==> SeqNotAfter(y, m);
      } else {
        forall y | y in s
          ensures SeqNotAfter(y, x)
        {
          OrderFacts(y, m, x);
        }
      }
    }
  }

  // ---------------------------------------------------------------------------------------------
  // What a query may return

  predicate Distinct(rs: seq<Row>) {
    forall i, j :: 0 <= i < j < |rs| ==> rs[i] != rs[j]
  }

  /** ... LIMIT n without ORDER BY: any min(n, |candidates|) distinct candidates, in any order. */
  predicate IsLimitedSelection(cands: set<Row>, limit: nat, rs: seq<Row>) {
    && (forall i :: 0 <= i < |rs| ==> rs[i] in cands)
    && Distinct(rs)
    && |rs| == Min(limit, |cands|)
  }

  predicate Sorted(rs: seq<Row>) {
    forall i, j :: 0 <= i < j < |rs| ==> SeqNotAfter(rs[i], rs[j])
  }

  /** ... ORDER BY seq LIMIT n: the first min(n, |candidates|) candidates in seq order; rows with
      equal keys may come in either order. */
  predicate IsOrderedSelection(cands: set<Row>, limit: nat, rs: seq<Row>) {
    && IsLimitedSelection(cands, limit, rs)
    && Sorted(rs)
    && (forall i, r :: 0 <= i < |rs| && r in cands && r !in rs ==> SeqNotAfter(rs[i], r))
  }

  /** The database evaluating a query with LIMIT over its candidate rows: it returns one of the
      results the query allows, ordered by seq when the query says ORDER BY seq. */
  method TakeLimited(cands: set<Row>, limit: nat, ordered: bool) returns (rs: seq<Row>)
    ensures IsLimitedSelection(cands, limit, rs)
    ensures ordered ==> IsOrderedSelection(cands, limit, rs)
  {
    var remaining := cands;
    rs := [];
    while |rs| < limit && remaining != {}
      invariant remaining <= cands
      invariant |remaining| + |rs| == |cands| && |rs| <= limit
      invariant forall i :: 0 <= i < |rs| ==> rs[i] in cands && rs[i] !in remaining
      invariant forall r :: r in cands ==> r in remaining || r in rs
      invariant Distinct(rs)
      invariant ordered ==> Sorted(rs)
      invariant ordered ==> forall i, r :: 0 <= i < |rs| && r in remaining ==> SeqNotAfter(rs[i], r)
      decreases |remaining|
    {
      var x: Row;
      if ordered {
        FirstExists(remaining);
        x :| x in remaining && forall y :: y in remaining ==> SeqNotAfter(x, y);
      } else {
        x :| x in remaining;
      }
      rs := rs + [x];
      remaining := remaining - {x};
    }
  }

  function Elements(rs: seq<Row>): set<Row> {
    set x | x in rs
  }

  lemma {:induction false} DistinctElements(rs: seq<Row>)
    requires Distinct(rs)
    ensures |Elements(rs)| == |rs|
  {
    if |rs| > 0 {
      var init := rs[..|rs| - 1];
      assert Distinct(init);
      DistinctElements(init);
      assert Elements(rs) == Elements(init) + {rs[|rs| - 1]};
      assert rs[|rs| - 1] !in Elements(init);
    } else {
      assert Elements(rs) == {};
    }
  }

  /** A query returns fewer rows than its LIMIT only when it returns every candidate. */
  lemma ShortSelectionTakesAll(cands: set<Row>, limit: nat, rs: seq<Row>)
    requires IsLimitedSelection(cands, limit, rs) && |rs| < limit
    ensures forall r :: r in cands ==> r in rs
  {
    DistinctElements(rs);
    assert Elements(rs) <= cands;
    assert |Elements(rs)| == |cands|;
    SameSizeSubset(Elements(rs), cands);
  }

  lemma SameSizeSubset(a: set<Row>, b: set<Row>)
    requires a <= b && |a| == |b|
    ensures a == b
  {
    assert |b - a| == |b| - |a|;
  }
}
