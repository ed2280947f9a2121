/** TransactionalOutboxBeanPostProcessor: finds a bean's @TransactionalOutbox methods, rejects
    those the outbox cannot stand in for, registers the rest and wraps the bean in a proxy whose
    interceptor schedules them. */
module BeanPostProcessor {
  import opened Common
  import opened SpringAnnotations
  import opened OutboxEntry
  import opened MethodRegistry

  /** What the merged-annotation lookup finds on a method (or on what it overrides). */
  datatype MethodMeta = MethodMeta(noTransactionalOutbox: bool, annotation: Option<TransactionalOutbox>)

  /** The bean's ultimate target class: whether it is marked @NoTransactionalOutbox, and its
      methods as MethodIntrospector walks them. */
  datatype TargetClass = TargetClass(noTransactionalOutbox: bool, methods: map<MethodSig, MethodMeta>)

  /** The methods to intercept, with their annotations: none when the class is excluded, and
      otherwise the annotated methods that are not excluded themselves. */
  function SelectAnnotatedMethods(cls: TargetClass): (r: map<MethodSig, TransactionalOutbox>)
    ensures cls.noTransactionalOutbox ==> r == map[]
    ensures forall m :: m in cls.methods && cls.methods[m].noTransactionalOutbox ==> m !in r
    ensures forall m :: m in r ==> m in cls.methods && cls.methods[m].annotation == Some(r[m])
    ensures forall m :: (m in cls.methods && !cls.noTransactionalOutbox && !cls.methods[m].noTransactionalOutbox
                         && cls.methods[m].annotation.Some?) ==> m in r
  {
    if cls.noTransactionalOutbox then map[]
    else map m | m in cls.methods && !cls.methods[m].noTransactionalOutbox && cls.methods[m].annotation.Some?
               :: cls.methods[m].annotation.value
  }

  datatype ValidationError = PrimitiveReturnType(target: MethodSig)

  /** Method.toString without modifiers: return type, declaring class, name and parameters. */
  function MethodText(m: MethodSig): string {
    m.returnType + " " + m.declaringClass + "." + m.name + "(" + Join(m.parameterTypes, ",") + ")"
  }

  function ValidationMessage(e: ValidationError): string {
    "Method " + MethodText(e.target) + " has primitive return type. This is not supported by @TransactionalOutbox"
  }

  /** validateMethods: fails on a method with a primitive return type other than void. The
      methods are visited in no particular order, so any offending method may be the one named. */
  method ValidateMethods(methods: set<MethodSig>) returns (r: Outcome<ValidationError>)
    ensures r.Pass? <==> forall m :: m in methods ==> !HasPrimitiveResult(m)
    ensures r.Fail? ==> r.error.target in methods && HasPrimitiveResult(r.error.target)
  {
    var todo := methods;
    while todo != {}
      invariant todo <= methods
      invariant forall m :: m in methods - todo ==> !HasPrimitiveResult(m)
      decreases |todo|
    {
      var m :| m in todo;
      if HasPrimitiveResult(m) {
        return Fail(PrimitiveReturnType(m));
      }
      todo := todo - {m};
    }
    r := Pass;
  }

  /** The registry keys of the given methods of a bean. */
  function KeysOf(beanName: string, methods: set<MethodSig>): set<BeanMethodKey> {
    set m | m in methods :: BeanMethodKey(beanName, m.name, m.parameterTypes)
  }

  /** after is before with each of the methods registered under the bean's name: every key of a
      method holds one of the methods with that key, and every other key is as before. */
  predicate RegisteredAll(before: map<BeanMethodKey, OutboxMethod>, after: map<BeanMethodKey, OutboxMethod>,
                          beanName: string, methods: map<MethodSig, TransactionalOutbox>, done: set<MethodSig>)
    requires done <= methods.Keys
  {
    && after.Keys == before.Keys + KeysOf(beanName, done)
    && (forall k :: k in before && k !in KeysOf(beanName, done) ==> after[k] == before[k])
    && (forall k :: k in KeysOf(beanName, done) ==>
          exists m :: m in done && KeyOf(OutboxMethod(beanName, m, methods[m])) == k && after[k] == OutboxMethod(beanName, m, methods[m]))
  }

  /** What postProcessBeforeInitialization hands back: the bean itself, or a proxy whose
      interceptor schedules the given methods. */
  datatype Processed = Unchanged | Proxied(beanName: string, annotatedMethods: map<MethodSig, TransactionalOutbox>)

  /** postProcessBeforeInitialization: a bean with nothing to intercept is returned as it is;
      otherwise every selected method is validated before any is registered, so a rejected
      method leaves the registry untouched. */
  method PostProcessBeforeInitialization(beanName: string, cls: TargetClass, registry: TransactionalOutboxMethodRegistry)
    returns (r: Result<Processed, ValidationError>)
    requires registry.Valid()
    modifies registry`outboxMethods
    ensures registry.Valid()
    ensures SelectAnnotatedMethods(cls) == map[] ==> r == Success(Unchanged) && registry.outboxMethods == old(registry.outboxMethods)
    ensures r.Failure? ==>
      && registry.outboxMethods == old(registry.outboxMethods)
      && r.error.target in SelectAnnotatedMethods(cls) && HasPrimitiveResult(r.error.target)
    ensures r.Failure? <==> exists m :: m in SelectAnnotatedMethods(cls) && HasPrimitiveResult(m)
    ensures r.Success? && SelectAnnotatedMethods(cls) != map[] ==>
      && r.value == Proxied(beanName, SelectAnnotatedMethods(cls))
      && RegisteredAll(old(registry.outboxMethods), registry.outboxMethods, beanName,
                       SelectAnnotatedMethods(cls), SelectAnnotatedMethods(cls).Keys)
  {
    var selected := SelectAnnotatedMethods(cls);
    if selected == map[] {
      return Success(Unchanged);
    }
    var valid := ValidateMethods(selected.Keys);
    if valid.Fail? {
      return Failure(valid.error);
    }
    RegisterAll(beanName, selected, registry);
    r := Success(Proxied(beanName, selected));
  }

  /** The registration loop: each selected method, in no particular order, under the bean's name. */
  method RegisterAll(beanName: string, selected: map<MethodSig, TransactionalOutbox>,
                     registry: TransactionalOutboxMethodRegistry)
    requires registry.Valid()
    modifies registry`outboxMethods
    ensures registry.Valid()
    ensures RegisteredAll(old(registry.outboxMethods), registry.outboxMethods, beanName, selected, selected.Keys)
  {
    var before := registry.outboxMethods;
    var todo := selected.Keys;
    while todo != {}
      invariant todo <= selected.Keys
      invariant registry.Valid()
      invariant RegisteredAll(before, registry.outboxMethods, beanName, selected, selected.Keys - todo)
      decreases |todo|
    {
      var m :| m in todo;
      ghost var prior := registry.outboxMethods;
      registry.RegisterTransactionalOutboxMethod(beanName, m, selected[m]);
      RegisterStep(before, prior, registry.outboxMethods, beanName, selected, selected.Keys - todo, m);
      assert selected.Keys - (todo - {m}) == (selected.Keys - todo) + {m};
      todo := todo - {m};
    }
  }

  lemma RegisterStep(before: map<BeanMethodKey, OutboxMethod>, prior: map<BeanMethodKey, OutboxMethod>,
                     after: map<BeanMethodKey, OutboxMethod>, beanName: string,
                     methods: map<MethodSig, TransactionalOutbox>, done: set<MethodSig>, m: MethodSig)
    requires done <= methods.Keys && m in methods
    requires RegisteredAll(before, prior, beanName, methods, done)
    requires after == prior[BeanMethodKey(beanName, m.name, m.parameterTypes) := OutboxMethod(beanName, m, methods[m])]
    ensures RegisteredAll(before, after, beanName, methods, done + {m})
  {
    var key := BeanMethodKey(beanName, m.name, m.parameterTypes);
    assert KeysOf(beanName, done + {m}) == KeysOf(beanName, done) + {key};
    forall k | k in KeysOf(beanName, done + {m})
      ensures exists n :: n in done + {m} && KeyOf(OutboxMethod(beanName, n, methods[n])) == k
                          && after[k] == OutboxMethod(beanName, n, methods[n])
    {
      if k == key {
        assert KeyOf(OutboxMethod(beanName, m, methods[m])) == k;
      } else {
        var n :| n in done && KeyOf(OutboxMethod(beanName, n, methods[n])) == k && prior[k] == OutboxMethod(beanName, n, methods[n]);
        assert n in done + {m};
      }
    }
  }
}
