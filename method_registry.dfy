/** TransactionalOutboxMethodRegistry: the @TransactionalOutbox methods and the result-handler
    methods found on beans, the pairing of the two at context refresh, and the listener callbacks
    that pass a finished call's result or error on to its handler. */
module MethodRegistry {
  import opened Common
  import opened SpringAnnotations
  import opened OutboxEntry

  /** Bean name, method name and parameter types; equal when all three are equal. */
  datatype BeanMethodKey = BeanMethodKey(beanName: string, methodName: string, parameterTypes: seq<string>)

  /** Method name and parameter types, without the bean. */
  datatype MethodKey = MethodKey(methodName: string, parameterTypes: seq<string>)

  datatype OutboxMethod = OutboxMethod(beanName: string, sig: MethodSig, annotation: TransactionalOutbox)

  datatype ResultHandlerMethod = ResultHandlerMethod(beanName: string, sig: MethodSig)

  /** A handler ready to call: its method on the bean of that name, and whether the outbox method
      is void (so the handler takes no result parameter). */
  datatype ResultHandlerCaller = ResultHandlerCaller(handler: ResultHandlerMethod, noResultParameter: bool)

  /** A handler method being invoked with these arguments (its own failures are logged). */
  datatype HandlerCall = HandlerCall(handler: ResultHandlerMethod, args: seq<JValue>)

  datatype RegistryError =
    | NoResultHandler(message: string)
    | Ambiguity(candidates: set<ResultHandlerMethod>)

  /** The callers map is not built before the context is refreshed; reading it then fails. */
  datatype CallError = CallersNotBuilt

  function KeyOf(m: OutboxMethod): BeanMethodKey {
    BeanMethodKey(m.beanName, m.sig.name, m.sig.parameterTypes)
  }

  function HandlerKey(h: ResultHandlerMethod): MethodKey {
    MethodKey(h.sig.name, h.sig.parameterTypes)
  }

  /** The key of the handler an outbox method needs: its name, and its parameter types followed
      by its return type (unless void) and Throwable. */
  function RequiredHandlerKey(m: OutboxMethod): (k: MethodKey)
    ensures k.methodName == m.sig.name
    ensures |k.parameterTypes| == |m.sig.parameterTypes| + (if IsVoid(m.sig) then 1 else 2)
    ensures k.parameterTypes[..|m.sig.parameterTypes|] == m.sig.parameterTypes
    ensures !IsVoid(m.sig) ==> k.parameterTypes[|m.sig.parameterTypes|] == m.sig.returnType
    ensures k.parameterTypes[|k.parameterTypes| - 1] == ThrowableType
  {
    var extra := if IsVoid(m.sig) then [ThrowableType] else [m.sig.returnType, ThrowableType];
    assert (m.sig.parameterTypes + extra)[..|m.sig.parameterTypes|] == m.sig.parameterTypes;
    MethodKey(m.sig.name, m.sig.parameterTypes + extra)
  }

  /** A key tells void and non-void outbox methods with the same parameters apart. */
  lemma RequiredKeySeparatesVoid(m: OutboxMethod, n: OutboxMethod)
    requires m.sig.name == n.sig.name && m.sig.parameterTypes == n.sig.parameterTypes
    requires IsVoid(m.sig) && !IsVoid(n.sig)
    ensures RequiredHandlerKey(m) != RequiredHandlerKey(n)
  {
    assert |RequiredHandlerKey(m).parameterTypes| != |RequiredHandlerKey(n).parameterTypes|;
  }

  /** name(type,type,...) */
  function ShortSignature(sig: MethodSig): string {
    sig.name + "(" + Join(sig.parameterTypes, ",") + ")"
  }

  /** beanName.name(type,...) */
  function Describe(m: OutboxMethod): string {
    m.beanName + "." + ShortSignature(m.sig)
  }

  const NotFoundPrefix: string := "Can't find @TransactionalOutboxResultHandler for "

  /** The registered handlers whose method key is the one the outbox method needs; the handler's
      bean plays no part. */
  function Candidates(handlers: set<ResultHandlerMethod>, m: OutboxMethod): set<ResultHandlerMethod> {
    set h | h in handlers && HandlerKey(h) == RequiredHandlerKey(m)
  }

  /** The same handler method registered on two beans is ambiguous. */
  lemma HandlerBeanIgnored(handlers: set<ResultHandlerMethod>, m: OutboxMethod, h: ResultHandlerMethod, otherBean: string)
    requires h in handlers && ResultHandlerMethod(otherBean, h.sig) in handlers && otherBean != h.beanName
    requires HandlerKey(h) == RequiredHandlerKey(m)
    ensures |Candidates(handlers, m)| > 1
  {
    var c := Candidates(handlers, m);
    var other := ResultHandlerMethod(otherBean, h.sig);
    assert h in c && other in c - {h};
    assert |c - {h}| == |c| - 1;
  }

  /** The error findResultHandlerMethodOrThrow raises when there is not exactly one candidate. */
  function HandlerError(handlers: set<ResultHandlerMethod>, m: OutboxMethod): RegistryError {
    var c := Candidates(handlers, m);
    if |c| == 0 then NoResultHandler(NotFoundPrefix + Describe(m)) else Ambiguity(c)
  }

  /** The handler's arguments: the call's own (none when they are null), then the result unless
      the method is void, then the error. */
  function CallArgs(args: Option<seq<JValue>>, result: JValue, error: JValue, noResultParameter: bool): (r: seq<JValue>)
    ensures var a := if args.Some? then args.value else [];
      && |r| == |a| + (if noResultParameter then 1 else 2)
      && r[..|a|] == a
      && (!noResultParameter ==> r[|a|] == result)
      && r[|r| - 1] == error
  {
    var a := if args.Some? then args.value else [];
    var r := if noResultParameter then a + [error] else a + [result, error];
    assert r[..|a|] == a;
    r
  }

  /** findResultHandlerMethodOrThrow over the registered handlers: the one handler with the
      required key; none is an error, and so is more than one. */
  method FindHandler(handlers: set<ResultHandlerMethod>, m: OutboxMethod) returns (r: Result<ResultHandlerMethod, RegistryError>)
    ensures r.Success? <==> |Candidates(handlers, m)| == 1
    ensures r.Success? ==> Candidates(handlers, m) == {r.value}
    ensures r.Failure? ==> r.error == HandlerError(handlers, m)
    ensures |Candidates(handlers, m)| == 0 ==> r == Failure(NoResultHandler(NotFoundPrefix + Describe(m)))
    ensures |Candidates(handlers, m)| > 1 ==> r == Failure(Ambiguity(Candidates(handlers, m)))
  {
    var c := Candidates(handlers, m);
    if |c| != 1 {
      return Failure(HandlerError(handlers, m));
    }
    var h :| h in c;
    SingletonIs(c, h);
    r := Success(h);
  }

  /** c calls the one handler of m, with a result parameter unless m is void. */
  predicate CallsOnlyHandler(handlers: set<ResultHandlerMethod>, c: ResultHandlerCaller, m: OutboxMethod) {
    Candidates(handlers, m) == {c.handler} && c.noResultParameter == IsVoid(m.sig)
  }

  /** The callers onApplicationEvent builds for the methods under the keys in required, or the
      error of one of them. */
  method BuildCallers(methods: map<BeanMethodKey, OutboxMethod>, handlers: set<ResultHandlerMethod>, required: set<BeanMethodKey>)
    returns (r: Result<map<BeanMethodKey, ResultHandlerCaller>, RegistryError>)
    requires required <= methods.Keys
    ensures r.Success? <==> forall k :: k in required ==> |Candidates(handlers, methods[k])| == 1
    ensures r.Success? ==> r.value.Keys == required && forall k :: k in required ==> CallsOnlyHandler(handlers, r.value[k], methods[k])
    ensures r.Failure? ==> exists k :: k in required && |Candidates(handlers, methods[k])| != 1 && r.error == HandlerError(handlers, methods[k])
  {
    var todo := required;
    var built: map<BeanMethodKey, ResultHandlerCaller> := map[];
    while todo != {}
      invariant todo <= required
      invariant built.Keys == required - todo
      invariant forall k :: k in built ==> CallsOnlyHandler(handlers, built[k], methods[k])
      decreases |todo|
    {
      var k :| k in todo;
      var found := FindHandler(handlers, methods[k]);
      if found.Failure? {
        assert k in required && |Candidates(handlers, methods[k])| != 1;
        return Failure(found.error);
      }
      built := built[k := ResultHandlerCaller(found.value, IsVoid(methods[k].sig))];
      todo := todo - {k};
    }
    CallersResolveAll(handlers, methods, built);
    r := Success(built);
  }

  /** Callers that each call their method's only handler show that every method has one. */
  lemma CallersResolveAll(handlers: set<ResultHandlerMethod>, methods: map<BeanMethodKey, OutboxMethod>,
                          built: map<BeanMethodKey, ResultHandlerCaller>)
    requires built.Keys <= methods.Keys
    requires forall k :: k in built ==> CallsOnlyHandler(handlers, built[k], methods[k])
    ensures forall k :: k in built ==> |Candidates(handlers, methods[k])| == 1
  {
  }

  /** The arguments fit the handler's parameters when the call had the method's arity. */
  lemma CallArgsFitHandler(m: OutboxMethod, args: seq<JValue>, result: JValue, error: JValue)
    requires |args| == |m.sig.parameterTypes|
    ensures |CallArgs(Some(args), result, error, IsVoid(m.sig))| == |RequiredHandlerKey(m).parameterTypes|
  {
  }

  /** The key a finished invocation is looked up under: its class name (the bean's name for Spring
      beans), method name and parameter types. */
  function InvocationKey(inv: Invocation): BeanMethodKey {
    BeanMethodKey(inv.className, inv.methodName, inv.parameterTypes)
  }

  class TransactionalOutboxMethodRegistry {
    var outboxMethods: map<BeanMethodKey, OutboxMethod>
    var handlerMethods: set<ResultHandlerMethod>
    /** resultHandlerCallers: None until the context is refreshed. */
    var callers: Option<map<BeanMethodKey, ResultHandlerCaller>>

    /** Every outbox method is filed under its own key. */
    predicate Valid()
      reads this
    {
      forall k :: k in outboxMethods ==> KeyOf(outboxMethods[k]) == k
    }

    constructor ()
      ensures Valid()
      ensures outboxMethods == map[] && handlerMethods == {} && callers.None?
    {
      outboxMethods := map[];
      handlerMethods := {};
      callers := None;
    }

    /** registerTransactionalOutboxMethod: a method with the same key replaces the earlier one. */
    method RegisterTransactionalOutboxMethod(beanName: string, sig: MethodSig, annotation: TransactionalOutbox)
      requires Valid()
      modifies this`outboxMethods
      ensures Valid()
      ensures outboxMethods == old(outboxMethods)[BeanMethodKey(beanName, sig.name, sig.parameterTypes) := OutboxMethod(beanName, sig, annotation)]
    {
      var m := OutboxMethod(beanName, sig, annotation);
      outboxMethods := outboxMethods[KeyOf(m) := m];
    }

    /** registerResultHandlerMethod: handlers form a set. */
    method RegisterResultHandlerMethod(beanName: string, sig: MethodSig)
      modifies this`handlerMethods
      ensures handlerMethods == old(handlerMethods) + {ResultHandlerMethod(beanName, sig)}
    {
      handlerMethods := handlerMethods + {ResultHandlerMethod(beanName, sig)};
    }

    /** Whether the outbox method has exactly one handler. */
    predicate Resolvable(m: OutboxMethod)
      reads this
    {
      |Candidates(handlerMethods, m)| == 1
    }

    /** findResultHandlerMethodOrThrow: the one handler with the required key; none is an error,
        and so is more than one. */
    method FindResultHandlerMethodOrThrow(m: OutboxMethod) returns (r: Result<ResultHandlerMethod, RegistryError>)
      ensures r.Success? <==> Resolvable(m)
      ensures r.Success? ==> Candidates(handlerMethods, m) == {r.value}
      ensures r.Failure? ==> r.error == HandlerError(handlerMethods, m)
    {
      r := FindHandler(handlerMethods, m);
    }

    /** The outbox methods that asked for a result handler. */
    function RequiredKeys(): (ks: set<BeanMethodKey>)
      reads this
      ensures forall k :: k in ks <==> k in outboxMethods && outboxMethods[k].annotation.requireResultHandler
    {
      set k | k in outboxMethods && outboxMethods[k].annotation.requireResultHandler
    }

    /** onApplicationEvent: builds a caller for every method that requires a result handler, and
        fails, keeping the callers as they were, when one of them has no single handler. */
    method OnApplicationEvent() returns (r: Outcome<RegistryError>)
      requires Valid()
      modifies this`callers
      ensures r.Pass? <==> forall k :: k in RequiredKeys() ==> Resolvable(outboxMethods[k])
      ensures r.Pass? ==>
        && callers.Some? && callers.value.Keys == RequiredKeys()
        && forall k :: k in RequiredKeys() ==> CallsOnlyHandler(handlerMethods, callers.value[k], outboxMethods[k])
      ensures r.Fail? ==>
        && callers == old(callers)
        && exists k :: k in RequiredKeys() && !Resolvable(outboxMethods[k]) && r.error == HandlerError(handlerMethods, outboxMethods[k])
    {
      var built := BuildCallers(outboxMethods, handlerMethods, RequiredKeys());
      if built.Failure? {
        return Fail(built.error);
      }
      callers := Some(built.value);
      r := Pass;
    }

    /** callResultHandler: finds the caller by the invocation's key and calls its handler; no
        caller means no call. */
    method CallResultHandler(inv: Invocation, result: JValue, cause: JValue) returns (r: Result<Option<HandlerCall>, CallError>)
      ensures callers.None? ==> r == Failure(CallersNotBuilt)
      ensures callers.Some? && InvocationKey(inv) !in callers.value ==> r == Success(None)
      ensures callers.Some? && InvocationKey(inv) in callers.value ==>
        var c := callers.value[InvocationKey(inv)];
        r == Success(Some(HandlerCall(c.handler, CallArgs(inv.args, result, cause, c.noResultParameter))))
    {
      if callers.None? {
        return Failure(CallersNotBuilt);
      }
      var key := InvocationKey(inv);
      if key !in callers.value {
        return Success(None);
      }
      var c := callers.value[key];
      r := Success(Some(HandlerCall(c.handler, CallArgs(inv.args, result, cause, c.noResultParameter))));
    }

    /** success: the handler gets the result and a null error. */
    method OnSuccess(entry: EntryState, result: JValue) returns (r: Result<Option<HandlerCall>, CallError>)
      requires entry.invocation.Some?
      ensures callers.Some? && InvocationKey(entry.invocation.value) in callers.value ==>
        var c := callers.value[InvocationKey(entry.invocation.value)];
        r == Success(Some(HandlerCall(c.handler, CallArgs(entry.invocation.value.args, result, JNull, c.noResultParameter))))
      ensures callers.Some? && InvocationKey(entry.invocation.value) !in callers.value ==> r == Success(None)
      ensures callers.None? ==> r == Failure(CallersNotBuilt)
    {
      r := CallResultHandler(entry.invocation.value, result, JNull);
    }

    /** failure: the handler gets a null result and the cause. */
    method OnFailure(entry: EntryState, cause: JValue) returns (r: Result<Option<HandlerCall>, CallError>)
      requires entry.invocation.Some?
      ensures callers.Some? && InvocationKey(entry.invocation.value) in callers.value ==>
        var c := callers.value[InvocationKey(entry.invocation.value)];
        r == Success(Some(HandlerCall(c.handler, CallArgs(entry.invocation.value.args, JNull, cause, c.noResultParameter))))
      ensures callers.Some? && InvocationKey(entry.invocation.value) !in callers.value ==> r == Success(None)
      ensures callers.None? ==> r == Failure(CallersNotBuilt)
    {
      r := CallResultHandler(entry.invocation.value, JNull, cause);
    }
  }

  lemma SingletonIs<T>(s: set<T>, x: T)
    requires |s| == 1 && x in s
    ensures s == {x}
  {
    assert |s - {x}| == |s| - 1;
    assert s - {x} == {};
  }

  /** After a refresh, a finished call of an outbox method that required a handler reaches that
      method's one handler, with as many arguments as the handler has parameters. A failed
      refresh leaves the callers of any earlier refresh in place, and the call goes to those. */
  method SuccessReachesHandler(reg: TransactionalOutboxMethodRegistry, k: BeanMethodKey, entry: EntryState, result: JValue)
    returns (refreshed: Outcome<RegistryError>, r: Result<Option<HandlerCall>, CallError>)
    requires reg.Valid() && k in reg.outboxMethods && reg.outboxMethods[k].annotation.requireResultHandler
    requires entry.invocation.Some? && InvocationKey(entry.invocation.value) == k
    requires entry.invocation.value.args.Some?
    requires |entry.invocation.value.args.value| == |reg.outboxMethods[k].sig.parameterTypes|
    modifies reg`callers
    ensures refreshed.Pass? ==>
      && r.Success? && r.value.Some?
      && Candidates(reg.handlerMethods, reg.outboxMethods[k]) == {r.value.value.handler}
      && |r.value.value.args| == |RequiredHandlerKey(reg.outboxMethods[k]).parameterTypes|
    ensures refreshed.Fail? ==> reg.callers == old(reg.callers)
    ensures refreshed.Fail? && old(reg.callers).None? ==> r == Failure(CallersNotBuilt)
    ensures refreshed.Fail? && old(reg.callers).Some? && k !in old(reg.callers).value ==> r == Success(None)
    ensures refreshed.Fail? && old(reg.callers).Some? && k in old(reg.callers).value ==>
      var c := old(reg.callers).value[k];
      r == Success(Some(HandlerCall(c.handler, CallArgs(entry.invocation.value.args, result, JNull, c.noResultParameter))))
  {
    refreshed := reg.OnApplicationEvent();
    r := reg.OnSuccess(entry, result);
    if refreshed.Pass? {
      CallArgsFitHandler(reg.outboxMethods[k], entry.invocation.value.args.value, result, JNull);
    }
  }
}
