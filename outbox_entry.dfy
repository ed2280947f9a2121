/** The outbox entry: one scheduled unit of work, its validation rule, its cached human-readable
    description and the logging context (MDC) it installs around its invocation. */
module OutboxEntry {
  import opened Common

  /** An Instant, as a count of time units. */
  type Timestamp = int

  /** A logging context map. Java maps may hold null values, hence the Option. */
  type ContextMap = map<string, Option<string>>

  /** The topic value the table uses for "no topic"; an entry may not use it. */
  const ReservedTopic: string := "*"

  /** What to run: target class, method, parameter types, arguments and the caller's logging
      context. The serialised form is opaque to the model. */
  datatype Invocation = Invocation(
    className: string,
    methodName: string,
    parameterTypes: seq<string>,
    args: Option<seq<JValue>>,
    mdc: Option<ContextMap>)

  /** Every field of an entry that takes part in its equality (all but the description cache). */
  datatype EntryState = EntryState(
    id: Option<string>,
    uniqueRequestId: Option<string>,
    topic: Option<string>,
    orderedTakeLast: bool,
    sequence: Option<int>,
    invocation: Option<Invocation>,
    lastAttemptTime: Option<Timestamp>,
    nextAttemptTime: Timestamp,
    attempts: int,
    blocked: bool,
    processed: bool,
    version: int)

  // ---------------------------------------------------------------------------------------------
  // Validation

  datatype ValidationError =
    | NullField(field: string)
    | BlankField(field: string)
    | NegativeField(field: string)
    | Rejected(field: string, message: string)

  predicate NullOrNotBlank(s: Option<string>) {
    s.None? || !IsBlank(s.value)
  }

  /** The rules an entry must satisfy before it is stored. */
  predicate IsValid(e: EntryState) {
    && e.id.Some?
    && NullOrNotBlank(e.uniqueRequestId)
    && NullOrNotBlank(e.topic)
    && e.invocation.Some?
    && e.attempts >= 0
    && e.version >= 0
    && e.topic != Some(ReservedTopic)
  }

  /** The rule that a reported error names is indeed broken. */
  predicate Violates(e: EntryState, err: ValidationError) {
    match err
    case NullField(f) => (f == "id" && e.id.None?) || (f == "invocation" && e.invocation.None?)
    case BlankField(f) =>
      (f == "uniqueRequestId" && !NullOrNotBlank(e.uniqueRequestId))
      || (f == "topic" && !NullOrNotBlank(e.topic))
    case NegativeField(f) => (f == "attempts" && e.attempts < 0) || (f == "version" && e.version < 0)
    case Rejected(f, _) => f == "topic" && e.topic == Some(ReservedTopic)
  }

  /** The checks run in order; the first one to fail is reported. */
  function Validate(e: EntryState): (r: Option<ValidationError>)
    ensures r.None? <==> IsValid(e)
    ensures r.Some? ==> Violates(e, r.value)
    ensures e.id.None? ==> r == Some(NullField("id"))
  {
    if e.id.None? then Some(NullField("id"))
    else if !NullOrNotBlank(e.uniqueRequestId) then Some(BlankField("uniqueRequestId"))
    else if !NullOrNotBlank(e.topic) then Some(BlankField("topic"))
    else if e.invocation.None? then Some(NullField("invocation"))
    else if e.attempts < 0 then Some(NegativeField("attempts"))
    else if e.version < 0 then Some(NegativeField("version"))
    else if e.topic == Some(ReservedTopic) then Some(Rejected("topic", "Topic may not be *"))
    else None
  }

  // ---------------------------------------------------------------------------------------------
  // Rendering arguments

  /** Collectors.joining(sep): the parts with sep between neighbours. */
  function Join(parts: seq<string>, sep: string): string {
    if |parts| == 0 then ""
    else if |parts| == 1 then parts[0]
    else Join(parts[..|parts| - 1], sep) + sep + parts[|parts| - 1]
  }

  /** Joining grows from the left (a StringJoiner) and also splits off its first part. */
  lemma {:induction false} JoinFirst(first: string, rest: seq<string>, sep: string)
    requires |rest| >= 1
    ensures Join([first] + rest, sep) == first + sep + Join(rest, sep)
    decreases |rest|
  {
    var all := [first] + rest;
    if |rest| > 1 {
      assert all[..|all| - 1] == [first] + rest[..|rest| - 1];
      JoinFirst(first, rest[..|rest| - 1], sep);
    } else {
      assert all[..|all| - 1] == [first];
    }
  }

  /** stringify as the source has it: every array is cast to Object[], which throws
      ClassCastException (None here) for an array of primitives. */
  function StringifyAsWritten(o: JValue): (r: Option<string>)
    decreases o
  {
    match o
    case JNull => Some("null")
    case JArray(xs) =>
      var parts := StringifyAllAsWritten(xs);
      if parts.None? then None else Some("[" + Join(parts.value, ", ") + "]")
    case JPrimitiveArray(_) => None
    case JString(s) => Some("\"" + s + "\"")
    case JObject(t) => Some(t)
  }

  function StringifyAllAsWritten(xs: seq<JValue>): (r: Option<seq<string>>)
    ensures r.Some? ==> |r.value| == |xs|
    decreases xs
  {
    if |xs| == 0 then Some([])
    else
      var first := StringifyAsWritten(xs[0]);
      var rest := StringifyAllAsWritten(xs[1..]);
      if first.None? || rest.None? then None else Some([first.value] + rest.value)
  }

  /** An argument of type int[] makes the source's rendering throw. */
  lemma PrimitiveArrayBreaksStringify()
    ensures StringifyAsWritten(JPrimitiveArray(["1", "2"])) == None
    ensures StringifyAsWritten(JArray([JString("a"), JPrimitiveArray([])])) == None
  {
    assert StringifyAllAsWritten([JPrimitiveArray([])]) == None;
  }

  /** stringify with arrays of primitives rendered like other arrays: null as null, strings in
      double quotes, arrays as [a, b] with their elements rendered recursively. */
  function Stringify(o: JValue): (r: string)
    ensures o.JNull? ==> r == "null"
    ensures o.JString? ==> r == "\"" + o.text + "\""
    ensures o.JObject? ==> r == o.toStringText
    ensures (o.JArray? || o.JPrimitiveArray?) ==> |r| >= 2 && r[0] == '[' && r[|r| - 1] == ']'
    decreases o
  {
    match o
    case JNull => "null"
    case JArray(xs) => "[" + Join(StringifyAll(xs), ", ") + "]"
    case JPrimitiveArray(ts) => "[" + Join(ts, ", ") + "]"
    case JString(s) => "\"" + s + "\""
    case JObject(t) => t
  }

  function StringifyAll(xs: seq<JValue>): (r: seq<string>)
    ensures |r| == |xs|
    ensures forall i :: 0 <= i < |xs| ==> r[i] == Stringify(xs[i])
    decreases xs
  {
    if |xs| == 0 then [] else [Stringify(xs[0])] + StringifyAll(xs[1..])
  }

  /** No array of primitives anywhere inside. */
  predicate ObjectArraysOnly(o: JValue)
    decreases o
  {
    match o
    case JPrimitiveArray(_) => false
    case JArray(xs) => forall i :: 0 <= i < |xs| ==> ObjectArraysOnly(xs[i])
    case _ => true
  }

  /** Where the source does not throw, the corrected rendering is the source's rendering. */
  lemma {:induction false} StringifyAgreesWithSource(o: JValue)
    requires ObjectArraysOnly(o)
    ensures StringifyAsWritten(o) == Some(Stringify(o))
    decreases o, 1
  {
    match o
    case JArray(xs) => StringifyAllAgreesWithSource(xs);
    case _ =>
  }

  lemma {:induction false} StringifyAllAgreesWithSource(xs: seq<JValue>)
    requires forall i :: 0 <= i < |xs| ==> ObjectArraysOnly(xs[i])
    ensures StringifyAllAsWritten(xs) == Some(StringifyAll(xs))
    decreases xs, 0
  {
    if |xs| > 0 {
      StringifyAgreesWithSource(xs[0]);
      StringifyAllAgreesWithSource(xs[1..]);
    }
  }

  // ---------------------------------------------------------------------------------------------
  // Description

  function ArgsText(args: Option<seq<JValue>>): string {
    match args
    case None => "null"
    case Some(xs) => Join(StringifyAll(xs), ", ")
  }

  function UidPart(e: EntryState): string {
    if e.uniqueRequestId.None? then "" else " uid=[" + e.uniqueRequestId.value + "]"
  }

  function SequenceText(sequence: Option<int>): string {
    if sequence.None? then "null" else IntToString(sequence.value)
  }

  function SeqPart(e: EntryState): string {
    if e.topic.None? then "" else " seq=[" + e.topic.value + "/" + SequenceText(e.sequence) + "]"
  }

  /** Everything of the description before its sequence part. */
  function DescriptionHead(e: EntryState): string
    requires e.invocation.Some?
  {
    var inv := e.invocation.value;
    inv.className + "." + inv.methodName + "(" + ArgsText(inv.args) + ") [" + NullableText(e.id) + "]" + UidPart(e)
  }

  /** "%s.%s(%s) [%s]%s%s" filled with class, method, rendered arguments, id and the optional
      uid and sequence parts. */
  function DescriptionOf(e: EntryState): string
    requires e.invocation.Some?
  {
    DescriptionHead(e) + SeqPart(e)
  }

  /** The description starts with class.method( ... */
  lemma DescriptionStartsWithCall(e: EntryState)
    requires e.invocation.Some?
    ensures var p := e.invocation.value.className + "." + e.invocation.value.methodName + "(";
      |DescriptionOf(e)| > |p| && DescriptionOf(e)[..|p|] == p
  {
    var inv := e.invocation.value;
    var p := inv.className + "." + inv.methodName + "(";
    var q := p + ArgsText(inv.args) + ") [";
    PrefixKept(p, ArgsText(inv.args), |p|);
    PrefixKept(p + ArgsText(inv.args), ") [", |p|);
    var h := q + NullableText(e.id) + "]";
    PrefixKept(q, NullableText(e.id), |p|);
    PrefixKept(q + NullableText(e.id), "]", |p|);
    PrefixKept(h, UidPart(e), |p|);
    PrefixKept(h + UidPart(e), SeqPart(e), |p|);
  }

  /** Appending text keeps what was already there. */
  lemma PrefixKept(q: string, s: string, n: nat)
    requires n <= |q|
    ensures (q + s)[..n] == q[..n]
  {
  }

  /** ... and ends with a closing bracket: that of the id, the uid part or the seq part. */
  lemma DescriptionEndsWithBracket(e: EntryState)
    requires e.invocation.Some?
    ensures |DescriptionOf(e)| > 0 && DescriptionOf(e)[|DescriptionOf(e)| - 1] == ']'
  {
    var inv := e.invocation.value;
    var idPart := inv.className + "." + inv.methodName + "(" + ArgsText(inv.args) + ") [" + NullableText(e.id) + "]";
    assert DescriptionHead(e) == idPart + UidPart(e);
    var tail := if SeqPart(e) != "" then SeqPart(e) else if UidPart(e) != "" then UidPart(e) else idPart;
    assert tail[|tail| - 1] == ']';
    assert DescriptionOf(e)[|DescriptionOf(e)| - 1] == tail[|tail| - 1];
  }

  /** Null arguments render as null between the parentheses. */
  lemma NullArgsShown(e: EntryState)
    requires e.invocation.Some? && e.invocation.value.args.None?
    ensures Contains(DescriptionOf(e), "(null) [")
  {
    var inv := e.invocation.value;
    var before := inv.className + "." + inv.methodName;
    var after := NullableText(e.id) + "]" + UidPart(e) + SeqPart(e);
    assert DescriptionOf(e) == before + "(null) [" + after;
    ContainsInfix(before, "(null) [", after);
  }

  /** The uid part appears exactly when there is a uniqueRequestId, the seq part exactly when
      there is a topic. */
  lemma OptionalParts(e: EntryState)
    ensures UidPart(e) == "" <==> e.uniqueRequestId.None?
    ensures SeqPart(e) == "" <==> e.topic.None?
  {
    if e.uniqueRequestId.Some? {
      assert UidPart(e)[0] == ' ';
    }
    if e.topic.Some? {
      assert SeqPart(e)[0] == ' ';
    }
  }

  /** The description depends on class, method, arguments, id, uid, topic and sequence only. */
  lemma DescriptionIgnoresProgress(e: EntryState, lastAttempt: Option<Timestamp>, nextAttempt: Timestamp,
                                   attempts: int, blocked: bool, processed: bool, version: int)
    requires e.invocation.Some?
    ensures DescriptionOf(e) == DescriptionOf(e.(lastAttemptTime := lastAttempt, nextAttemptTime := nextAttempt,
      attempts := attempts, blocked := blocked, processed := processed, version := version))
  {
  }

  /** With a topic, the description shows the sequence: two different sequences give two
      different descriptions, which is why a cached description can go stale. */
  lemma DescriptionShowsSequence(e: EntryState, a: int, b: int)
    requires e.invocation.Some? && e.topic.Some?
    requires DescriptionOf(e.(sequence := Some(a))) == DescriptionOf(e.(sequence := Some(b)))
    ensures a == b
  {
    var ea := e.(sequence := Some(a));
    var eb := e.(sequence := Some(b));
    var head := DescriptionHead(e);
    assert DescriptionHead(ea) == head && DescriptionHead(eb) == head;
    var mid := " seq=[" + e.topic.value + "/";
    assert SeqPart(ea) == mid + IntToString(a) + "]";
    assert SeqPart(eb) == mid + IntToString(b) + "]";
    MiddleDetermined(head, SeqPart(ea), SeqPart(eb), "");
    MiddleDetermined(mid, IntToString(a), IntToString(b), "]");
    IntToStringInjective(a, b);
  }

  lemma MiddleDetermined(head: string, x: string, y: string, tail: string)
    requires head + x + tail == head + y + tail
    ensures x == y
  {
    var s := head + x + tail;
    assert x == s[|head|..|s| - |tail|];
    assert y == (head + y + tail)[|head|..|s| - |tail|];
  }

  // ---------------------------------------------------------------------------------------------
  // Logging context

  /** The per-thread logging context (MDC). None: there is no context map. */
  class Mdc {
    var context: Option<ContextMap>

    constructor ()
      ensures context.None?
    {
      context := None;
    }

    method SetContextMap(m: ContextMap)
      modifies this
      ensures context == Some(m)
    {
      context := Some(m);
    }

    method Put(key: string, value: Option<string>)
      modifies this
      ensures context == Some((if old(context).None? then map[] else old(context).value)[key := value])
    {
      var m := if context.None? then map[] else context.value;
      context := Some(m[key := value]);
    }

    method Clear()
      modifies this
      ensures context.None?
    {
      context := None;
    }

    /** The context becomes m, as the invoked code leaves it. */
    method Become(m: Option<ContextMap>)
      modifies this
      ensures context == m
    {
      context := m;
    }
  }

  /** What running the invoked code gives: its return or throw, and the context it leaves, which
      may differ from the one it was given if it called MDC.put or MDC.clear itself. */
  datatype CallbackRun = CallbackRun(outcome: CallOutcome, after: Option<ContextMap>)

  const OutboxClassKey: string := "outbox.class"
  const OutboxMethodKey: string := "outbox.method"
  const OutboxIdKey: string := "outbox.id"
  const OutboxAttemptKey: string := "outbox.attempt"
  const OutboxKeys: set<string> := {OutboxClassKey, OutboxMethodKey, OutboxIdKey, OutboxAttemptKey}

  /** The context while an invocation runs: the invocation's own context plus the four outbox keys. */
  function FilledContext(e: EntryState): (m: ContextMap)
    requires e.invocation.Some? && e.invocation.value.mdc.Some?
    ensures m.Keys == e.invocation.value.mdc.value.Keys + OutboxKeys
    ensures m[OutboxClassKey] == Some(e.invocation.value.className)
    ensures m[OutboxMethodKey] == Some(e.invocation.value.methodName)
    ensures m[OutboxIdKey] == e.id
    ensures m[OutboxAttemptKey] == Some(IntToString(e.attempts))
    ensures forall k :: k in e.invocation.value.mdc.value && k !in OutboxKeys ==>
                          m[k] == e.invocation.value.mdc.value[k]
  {
    var inv := e.invocation.value;
    inv.mdc.value[OutboxClassKey := Some(inv.className)][OutboxMethodKey := Some(inv.methodName)]
      [OutboxIdKey := e.id][OutboxAttemptKey := Some(IntToString(e.attempts))]
  }

  /** Whether withinMDC installs a context: the invocation carries one and an MDC adapter exists. */
  predicate InstallsContext(e: EntryState, adapterPresent: bool) {
    e.invocation.Some? && e.invocation.value.mdc.Some? && adapterPresent
  }

  // ---------------------------------------------------------------------------------------------
  // The entry object

  class TransactionOutboxEntry {
    var state: EntryState
    var initialized: bool
    var description: string

    /** The builder: a fresh entry has no cached description. */
    constructor (s: EntryState)
      ensures state == s && !initialized
    {
      state := s;
      initialized := false;
      description := "";
    }

    /** Equality compares every field except the description cache. */
    predicate Equals(other: TransactionOutboxEntry)
      reads this, other
    {
      state == other.state
    }

    /** Computed from the fields on the first call and cached; later calls return the cache. */
    method Description() returns (d: string)
      requires initialized || state.invocation.Some?
      modifies this`initialized, this`description
      ensures initialized && description == d
      ensures old(initialized) ==> d == old(description)
      ensures !old(initialized) ==> d == DescriptionOf(state)
    {
      if !initialized {
        d := DescriptionOf(state);
        description := d;
        initialized := true;
      } else {
        d := description;
      }
    }

    method SetSequence(s: Option<int>)
      modifies this`state
      ensures state == old(state).(sequence := s)
    {
      state := state.(sequence := s);
    }

    method SetInvocation(inv: Invocation)
      modifies this`state
      ensures state == old(state).(invocation := Some(inv))
    {
      state := state.(invocation := Some(inv));
    }

    method SetVersion(v: int)
      modifies this`state
      ensures state == old(state).(version := v)
    {
      state := state.(version := v);
    }

    method SetAttempts(n: int)
      modifies this`state
      ensures state == old(state).(attempts := n)
    {
      state := state.(attempts := n);
    }

    /** Runs the callback inside the entry's logging context, then puts back the context that was
        there before (or none), whether the callback returned or threw, so that what the callback
        itself put in the context is undone as well. Without a context to install it just runs
        the callback, and whatever the callback left in the context stays there. */
    method WithinMdc(mdc: Mdc, adapterPresent: bool, callback: Option<ContextMap> -> CallbackRun)
      returns (outcome: CallOutcome, seen: Option<ContextMap>)
      modifies mdc
      ensures InstallsContext(state, adapterPresent) ==> seen == Some(FilledContext(state))
      ensures !InstallsContext(state, adapterPresent) ==> seen == old(mdc.context)
      ensures outcome == callback(seen).outcome
      ensures InstallsContext(state, adapterPresent) ==> mdc.context == old(mdc.context)
      ensures !InstallsContext(state, adapterPresent) ==> mdc.context == callback(seen).after
    {
      if InstallsContext(state, adapterPresent) {
        var saved := mdc.context;
        var inv := state.invocation.value;
        mdc.SetContextMap(inv.mdc.value);
        mdc.Put(OutboxClassKey, Some(inv.className));
        mdc.Put(OutboxMethodKey, Some(inv.methodName));
        mdc.Put(OutboxIdKey, state.id);
        mdc.Put(OutboxAttemptKey, Some(IntToString(state.attempts)));
        seen := mdc.context;
        var run := callback(seen);
        mdc.Become(run.after);
        outcome := run.outcome;
        if saved.None? {
          mdc.Clear();
        } else {
          mdc.SetContextMap(saved.value);
        }
      } else {
        seen := mdc.context;
        var run := callback(seen);
        mdc.Become(run.after);
        outcome := run.outcome;
      }
    }
  }

  /** Once computed, the description stays the same although the sequence, version and attempts
      change afterwards. */
  method DescriptionComputedOnce(e: TransactionOutboxEntry, s: Option<int>, v: int, n: int)
    returns (first: string, second: string)
    requires e.initialized || e.state.invocation.Some?
    modifies e
    ensures first == second
    ensures e.state == old(e.state).(sequence := s, version := v, attempts := n)
  {
    first := e.Description();
    e.SetSequence(s);
    e.SetVersion(v);
    e.SetAttempts(n);
    second := e.Description();
  }

  /** Computing the description leaves the entry equal to everything it was equal to. */
  method DescriptionKeepsEquality(e: TransactionOutboxEntry, other: TransactionOutboxEntry)
    returns (d: string)
    requires e != other && e.Equals(other)
    requires e.initialized || e.state.invocation.Some?
    modifies e`initialized, e`description
    ensures e.Equals(other)
  {
    d := e.Description();
  }
}
