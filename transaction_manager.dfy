/** The per-thread stack of open transactions kept by thread-local transaction managers. */
module TransactionManager {
  import opened Common

  /** Why requireTransactionReturns did not return the work's result. */
  datatype RequireError<+E> = NoTransactionActive | WorkFailed(cause: E)

  /** One thread's view of the manager. The thread-local slot holds the deque of open
      transactions, most recent first; None once the last one has been popped. */
  class ThreadLocalTransactionManager<TX> {
    var slot: Option<seq<TX>>

    /** The open transactions, most recent first; an absent slot reads as an empty deque. */
    function Stack(): seq<TX>
      reads this
    {
      if slot.None? then [] else slot.value
    }

    constructor ()
      ensures Stack() == [] && slot.None?
    {
      slot := None;
    }

    /** pushTransaction: the transaction becomes the current one and is returned. */
    method Push(tx: TX) returns (r: TX)
      modifies this
      ensures r == tx
      ensures Stack() == [tx] + old(Stack())
      ensures Peek() == Some(tx)
    {
      slot := Some([tx] + Stack());
      r := tx;
    }

    /** popTransaction: removes and returns the current transaction, and drops the slot when that
        leaves the deque empty. On an empty deque the pop fails (None). */
    method Pop() returns (r: Option<TX>)
      modifies this
      ensures old(Stack()) == [] ==> r.None? && Stack() == []
      ensures old(Stack()) != [] ==> r == Some(old(Stack())[0]) && Stack() == old(Stack())[1..]
      ensures old(Stack()) != [] && Stack() == [] ==> slot.None?
    {
      var s := Stack();
      if |s| == 0 {
        r := None;
      } else {
        r := Some(s[0]);
        if |s| == 1 {
          slot := None;
        } else {
          slot := Some(s[1..]);
        }
      }
    }

    /** peekTransaction: the current transaction, if any, without removing it. */
    function Peek(): (r: Option<TX>)
      reads this
      ensures r.None? <==> Stack() == []
      ensures r.Some? ==> r.value == Stack()[0]
    {
      if slot.None? || |slot.value| == 0 then None else Some(slot.value[0])
    }

    /** Runs the work in the current transaction; fails with NoTransactionActive when there is
        none, and passes on the work's own failure. */
    method RequireTransactionReturns<T, E>(work: TX -> Result<T, E>) returns (r: Result<T, RequireError<E>>)
      ensures Stack() == [] ==> r == Failure(NoTransactionActive)
      ensures Stack() != [] && work(Stack()[0]).Success? ==> r == Success(work(Stack()[0]).value)
      ensures Stack() != [] && work(Stack()[0]).Failure? ==> r == Failure(WorkFailed(work(Stack()[0]).error))
    {
      var current := Peek();
      if current.None? {
        r := Failure(NoTransactionActive);
      } else {
        var w := work(current.value);
        r := if w.Success? then Success(w.value) else Failure(WorkFailed(w.error));
      }
    }

    /** inCurrentOrNewTransaction as written. The supplier's result is None where the Java
        supplier returns null (any Void work). `map(supplier::doWork)` turns that null into an
        empty Optional, so `orElseGet` then runs the supplier a second time, in the new
        transaction that inTransactionReturns would open (newTx). runs lists the transactions the
        supplier ran in, in order. */
    method InCurrentOrNewTransactionAsWritten<T>(supplier: TX -> Option<T>, newTx: TX) returns (r: Option<T>, runs: seq<TX>)
      ensures Stack() == [] ==> runs == [newTx]
      ensures Stack() != [] && supplier(Stack()[0]).Some? ==> runs == [Stack()[0]]
      ensures Stack() != [] && supplier(Stack()[0]).None? ==> runs == [Stack()[0], newTx]
      ensures r == supplier(runs[|runs| - 1])
    {
      var current := Peek();
      var mapped := if current.Some? then supplier(current.value) else None;
      if current.Some? && mapped.Some? {
        r, runs := mapped, [current.value];
      } else {
        r := supplier(newTx);
        runs := if current.Some? then [current.value, newTx] else [newTx];
      }
    }

    /** inCurrentOrNewTransaction as intended: the supplier runs once, whatever it returns, in the
        current transaction when there is one and only otherwise in the new transaction that
        inTransactionReturns would open (newTx). */
    method InCurrentOrNewTransaction<T>(supplier: TX -> Option<T>, newTx: TX) returns (r: Option<T>, used: TX, startedNew: bool)
      ensures startedNew <==> Stack() == []
      ensures !startedNew ==> used == Stack()[0]
      ensures startedNew ==> used == newTx
      ensures r == supplier(used)
    {
      var current := Peek();
      if current.Some? {
        used, startedNew := current.value, false;
      } else {
        used, startedNew := newTx, true;
      }
      r := supplier(used);
    }
  }

  /** Work that returns null, run while a transaction is open: the code as written runs it twice,
      the second time in a new transaction, where the corrected form runs it once in the open one. */
  method NullResultRunsTwice<TX>(m: ThreadLocalTransactionManager<TX>, newTx: TX)
    returns (asWritten: seq<TX>, corrected: seq<TX>)
    requires m.Stack() != []
    ensures asWritten == [m.Stack()[0], newTx]
    ensures corrected == [m.Stack()[0]]
  {
    var voidWork: TX -> Option<bool> := _ => None;
    var _, runs := m.InCurrentOrNewTransactionAsWritten(voidWork, newTx);
    var _, used, _ := m.InCurrentOrNewTransaction(voidWork, newTx);
    asWritten, corrected := runs, [used];
  }

  /** Nested transactions pop in reverse order of pushing, and the last pop empties the slot. */
  method NestedPopsAreLifo<TX>(m: ThreadLocalTransactionManager<TX>, outer: TX, inner: TX)
    returns (first: Option<TX>, second: Option<TX>)
    requires m.Stack() == []
    modifies m
    ensures first == Some(inner) && second == Some(outer)
    ensures m.Stack() == [] && m.slot.None? && m.Peek().None?
  {
    var _ := m.Push(outer);
    var _ := m.Push(inner);
    first := m.Pop();
    second := m.Pop();
  }
}
