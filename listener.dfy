/** Outbox listeners and their composition with andThen. A listener is described by what it does
    when called back: each observer records a notification per event, and throws from the events
    of the kinds it is set to throw on; around an invocation it either proceeds to the invocator
    or, without proceeding, returns a value of its own or throws. */
module OutboxListener {
  import opened Common
  import opened OutboxEntry

  /** What an observer's wrapInvocation does: call the invocator and pass on its result, or,
      without calling it, return a value or throw (the outcome). */
  datatype WrapBehaviour = Proceed | Suppress(outcome: CallOutcome)

  /** The four event callbacks. */
  datatype EventKind = OnScheduled | OnSuccess | OnFailure | OnBlocked

  /** A listener: the no-op one, one observer (throwing from the callbacks of the kinds in
      throwsOn), or two composed by andThen. */
  datatype Listener =
    | Empty
    | Observer(name: string, wrap: WrapBehaviour, throwsOn: set<EventKind>)
    | AndThen(first: Listener, other: Listener)

  datatype Event =
    | Scheduled(entry: EntryState)
    | Success(entry: EntryState, result: JValue)
    | Failure(entry: EntryState, cause: JValue)
    | Blocked(entry: EntryState, cause: JValue)

  function KindOf(e: Event): EventKind {
    match e
    case Scheduled(_) => OnScheduled
    case Success(_, _) => OnSuccess
    case Failure(_, _) => OnFailure
    case Blocked(_, _) => OnBlocked
  }

  /** An observer was called back with an event. */
  datatype Notification = Notification(listener: string, event: Event)

  /** Delivering an event: the callbacks made, in order, and the observer whose callback threw
      the exception that reached the caller, if any. */
  datatype Delivery = Delivery(notified: seq<Notification>, thrower: Option<string>)

  /** One step of running a wrapped invocation: an observer's wrapInvocation was entered, or the
      original invocator ran. */
  datatype Step = Enter(listener: string) | Invoke

  /** Running an invocator: what it returned or threw, and the steps it took. */
  datatype Run = Run(outcome: CallOutcome, trace: seq<Step>)

  /** The invocator the outbox starts from: calling the scheduled method. */
  function Original(outcome: CallOutcome): Run {
    Run(outcome, [Invoke])
  }

  /** Delivering one event (scheduled, success, failure or blocked) to a listener. In andThen
      the second listener is only called when the first returned normally. */
  function Fire(l: Listener, e: Event): Delivery {
    match l
    case Empty => Delivery([], None)
    case Observer(n, _, t) => Delivery([Notification(n, e)], if KindOf(e) in t then Some(n) else None)
    case AndThen(a, b) =>
      var first := Fire(a, e);
      if first.thrower.Some? then first
      else var second := Fire(b, e); Delivery(first.notified + second.notified, second.thrower)
  }

  /** wrapInvocation around an invocator, given by the run the invocator would make. The inner run
      only happens when some wrapper proceeds, which is what laziness of the invocator gives. */
  function WrapInvocation(l: Listener, inner: Run): Run {
    match l
    case Empty => inner
    case Observer(n, w, _) => WrapOne(n, w, inner)
    case AndThen(a, b) => WrapInvocation(a, WrapInvocation(b, inner))
  }

  function WrapOne(n: string, w: WrapBehaviour, inner: Run): (r: Run)
    ensures |r.trace| >= 1 && r.trace[0] == Enter(n)
  {
    match w
    case Proceed => Run(inner.outcome, [Enter(n)] + inner.trace)
    case Suppress(outcome) => Run(outcome, [Enter(n)])
  }

  // ---------------------------------------------------------------------------------------------
  // Reference definitions over the observers in composition order

  datatype Leaf = Leaf(name: string, wrap: WrapBehaviour, throwsOn: set<EventKind>)

  /** The observers of a listener, left to right. */
  function Leaves(l: Listener): seq<Leaf> {
    match l
    case Empty => []
    case Observer(n, w, t) => [Leaf(n, w, t)]
    case AndThen(a, b) => Leaves(a) + Leaves(b)
  }

  /** Every observer notified once, in order. */
  function Notify(leaves: seq<Leaf>, e: Event): (r: seq<Notification>)
    ensures |r| == |leaves|
    ensures forall i :: 0 <= i < |leaves| ==> r[i] == Notification(leaves[i].name, e)
  {
    if |leaves| == 0 then [] else [Notification(leaves[0].name, e)] + Notify(leaves[1..], e)
  }

  /** Each observer wraps all the ones after it; the last wraps the original invocator. */
  function WrapChain(leaves: seq<Leaf>, inner: Run): Run {
    if |leaves| == 0 then inner else WrapOne(leaves[0].name, leaves[0].wrap, WrapChain(leaves[1..], inner))
  }

  lemma {:induction false} NotifyAppend(xs: seq<Leaf>, ys: seq<Leaf>, e: Event)
    ensures Notify(xs + ys, e) == Notify(xs, e) + Notify(ys, e)
  {
  }

  /** The observer throws from its callback for the event. */
  predicate ThrowsOn(leaf: Leaf, e: Event) {
    KindOf(e) in leaf.throwsOn
  }

  predicate NoneThrow(leaves: seq<Leaf>, e: Event) {
    forall i :: 0 <= i < |leaves| ==> !ThrowsOn(leaves[i], e)
  }

  lemma NoneThrowSplit(xs: seq<Leaf>, ys: seq<Leaf>, e: Event)
    requires NoneThrow(xs + ys, e)
    ensures NoneThrow(xs, e) && NoneThrow(ys, e)
  {
    forall i | 0 <= i < |xs| ensures !ThrowsOn(xs[i], e) {
      assert xs[i] == (xs + ys)[i];
    }
    forall i | 0 <= i < |ys| ensures !ThrowsOn(ys[i], e) {
      assert ys[i] == (xs + ys)[|xs| + i];
    }
  }

  lemma SliceOfAppend(xs: seq<Leaf>, ys: seq<Leaf>, n: nat)
    requires n <= |xs| + |ys|
    ensures n <= |xs| ==> (xs + ys)[..n] == xs[..n]
    ensures n >= |xs| ==> (xs + ys)[..n] == xs + ys[..n - |xs|]
  {
  }

  /** When no callback throws, the event reaches every observer once, in composition order:
      a.andThen(b) calls a (entirely) before b. */
  lemma {:induction false} FireInOrder(l: Listener, e: Event)
    requires NoneThrow(Leaves(l), e)
    ensures Fire(l, e) == Delivery(Notify(Leaves(l), e), None)
  {
    match l
    case Empty =>
    case Observer(_, _, _) =>
      assert !ThrowsOn(Leaves(l)[0], e);
    case AndThen(a, b) =>
      NoneThrowSplit(Leaves(a), Leaves(b), e);
      FireInOrder(a, e);
      FireInOrder(b, e);
      NotifyAppend(Leaves(a), Leaves(b), e);
  }

  /** When a callback throws, the observers up to and including the first thrower are called,
      none after it is, and its exception reaches the caller. */
  lemma {:induction false} ThrowStopsDelivery(l: Listener, e: Event, k: nat)
    requires k < |Leaves(l)| && ThrowsOn(Leaves(l)[k], e) && NoneThrow(Leaves(l)[..k], e)
    ensures Fire(l, e) == Delivery(Notify(Leaves(l)[..k + 1], e), Some(Leaves(l)[k].name))
  {
    match l
    case Empty =>
    case Observer(_, _, _) =>
      assert Leaves(l)[..1] == Leaves(l);
    case AndThen(a, b) =>
      var la, lb := Leaves(a), Leaves(b);
      SliceOfAppend(la, lb, k);
      SliceOfAppend(la, lb, k + 1);
      if k < |la| {
        assert la[k] == Leaves(l)[k];
        ThrowStopsDelivery(a, e, k);
      } else {
        var j := k - |la|;
        assert lb[j] == Leaves(l)[k];
        NoneThrowSplit(la, lb[..j], e);
        FireInOrder(a, e);
        ThrowStopsDelivery(b, e, j);
        NotifyAppend(la, lb[..j + 1], e);
      }
  }

  lemma {:induction false} WrapChainAppend(xs: seq<Leaf>, ys: seq<Leaf>, inner: Run)
    ensures WrapChain(xs + ys, inner) == WrapChain(xs, WrapChain(ys, inner))
    decreases |xs|
  {
    if |xs| > 0 {
      assert (xs + ys)[0] == xs[0] && (xs + ys)[1..] == xs[1..] + ys;
      WrapChainAppend(xs[1..], ys, inner);
    } else {
      assert xs + ys == ys;
    }
  }

  /** wrapInvocation nests the observers in composition order: the first is outermost and the
      original invocator is innermost. */
  lemma {:induction false} WrapNestsInOrder(l: Listener, inner: Run)
    ensures WrapInvocation(l, inner) == WrapChain(Leaves(l), inner)
  {
    match l
    case Empty =>
    case Observer(_, _, _) =>
      assert WrapChain([], inner) == inner;
    case AndThen(a, b) =>
      WrapNestsInOrder(b, inner);
      WrapNestsInOrder(a, WrapInvocation(b, inner));
      WrapChainAppend(Leaves(a), Leaves(b), inner);
  }

  // ---------------------------------------------------------------------------------------------
  // Properties of composition

  /** The no-op listener notifies nobody and runs exactly the invocator. */
  lemma EmptyDoesNothing(e: Event, inner: Run)
    ensures Fire(Empty, e) == Delivery([], None)
    ensures WrapInvocation(Empty, inner) == inner
  {
  }

  /** andThen with the no-op listener on either side changes nothing observable. */
  lemma EmptyIsNeutral(l: Listener, e: Event, inner: Run)
    ensures Fire(AndThen(Empty, l), e) == Fire(l, e) && Fire(AndThen(l, Empty), e) == Fire(l, e)
    ensures WrapInvocation(AndThen(Empty, l), inner) == WrapInvocation(l, inner)
    ensures WrapInvocation(AndThen(l, Empty), inner) == WrapInvocation(l, inner)
  {
    assert Fire(l, e).notified + [] == Fire(l, e).notified;
  }

  /** (a.andThen(b)).andThen(c) and a.andThen(b.andThen(c)) behave the same. */
  lemma AndThenAssociative(a: Listener, b: Listener, c: Listener, e: Event, inner: Run)
    ensures Fire(AndThen(AndThen(a, b), c), e) == Fire(AndThen(a, AndThen(b, c)), e)
    ensures WrapInvocation(AndThen(AndThen(a, b), c), inner) == WrapInvocation(AndThen(a, AndThen(b, c)), inner)
  {
  }

  predicate AllProceed(leaves: seq<Leaf>) {
    forall i :: 0 <= i < |leaves| ==> leaves[i].wrap.Proceed?
  }

  function Enters(leaves: seq<Leaf>): (r: seq<Step>)
    ensures |r| == |leaves|
    ensures forall i :: 0 <= i < |leaves| ==> r[i] == Enter(leaves[i].name)
  {
    if |leaves| == 0 then [] else [Enter(leaves[0].name)] + Enters(leaves[1..])
  }

  lemma {:induction false} ChainAllProceed(leaves: seq<Leaf>, inner: Run)
    requires AllProceed(leaves)
    ensures WrapChain(leaves, inner) == Run(inner.outcome, Enters(leaves) + inner.trace)
  {
    if |leaves| > 0 {
      ChainAllProceed(leaves[1..], inner);
      assert [Enter(leaves[0].name)] + (Enters(leaves[1..]) + inner.trace)
          == ([Enter(leaves[0].name)] + Enters(leaves[1..])) + inner.trace;
    }
  }

  /** When every observer proceeds, each is entered in order, the original invocator runs once at
      the very end, and the composed listener returns (or throws) what the invocator did. */
  lemma AllProceedRunsInvocator(l: Listener, outcome: CallOutcome)
    requires AllProceed(Leaves(l))
    ensures WrapInvocation(l, Original(outcome)) == Run(outcome, Enters(Leaves(l)) + [Invoke])
  {
    WrapNestsInOrder(l, Original(outcome));
    ChainAllProceed(Leaves(l), Original(outcome));
  }

  lemma {:induction false} ChainFirstSuppressor(leaves: seq<Leaf>, k: nat, inner: Run)
    requires k < |leaves| && leaves[k].wrap.Suppress? && AllProceed(leaves[..k])
    ensures WrapChain(leaves, inner) == Run(leaves[k].wrap.outcome, Enters(leaves[..k + 1]))
  {
    if k > 0 {
      assert leaves[1..][..k - 1] == leaves[..k][1..];
      ChainFirstSuppressor(leaves[1..], k - 1, inner);
      assert leaves[..k + 1] == [leaves[0]] + leaves[1..][..k];
    } else {
      assert leaves[..1] == [leaves[0]];
    }
  }

  /** The first observer that does not proceed decides the result, whether it returns or throws;
      the observers inside it and the original invocator never run. */
  lemma SuppressorHidesInner(l: Listener, k: nat, inner: Run)
    requires k < |Leaves(l)| && Leaves(l)[k].wrap.Suppress? && AllProceed(Leaves(l)[..k])
    ensures WrapInvocation(l, inner).outcome == Leaves(l)[k].wrap.outcome
    ensures WrapInvocation(l, inner).trace == Enters(Leaves(l)[..k + 1])
    ensures Invoke !in WrapInvocation(l, inner).trace
  {
    WrapNestsInOrder(l, inner);
    ChainFirstSuppressor(Leaves(l), k, inner);
  }
}
