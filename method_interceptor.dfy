/** TransactionalOutboxMethodInterceptor: the advice on a proxied bean. A call to an annotated
    method is scheduled on the outbox and returns null; any other call proceeds to the bean. */
module MethodInterceptor {
  import opened Common
  import opened SpringAnnotations
  import TopicGenerator

  /** What the interceptor asks the outbox to persist: the builder settings and the call. */
  datatype ScheduleRequest = ScheduleRequest(
    topic: Option<string>,
    orderedTakeLast: bool,
    delayForAtLeast: Option<int>,   // milliseconds; None when no delay is set
    target: MethodSig,
    args: seq<JValue>,
    requireInTransaction: bool)

  /** The outbox as the interceptor sees it: the calls it was asked to persist, in order. */
  class OutboxScheduler {
    var scheduled: seq<ScheduleRequest>

    constructor ()
      ensures scheduled == []
    {
      scheduled := [];
    }
  }

  /** The delay: none unless delayMillis is positive, and then exactly that many milliseconds. */
  function DelayFor(annotation: TransactionalOutbox): (r: Option<int>)
    ensures r.None? <==> annotation.delayMillis <= 0
    ensures r.Some? ==> r.value == annotation.delayMillis && r.value > 0
  {
    if annotation.delayMillis > 0 then Some(annotation.delayMillis) else None
  }

  /** A stripped topic, or none when nothing is left. */
  function StrippedTopic(topic: string): Option<string> {
    var s := TopicGenerator.Strip(topic);
    if s == "" then None else Some(s)
  }

  /** The interceptor's own copy of generateTopic, by the four combinations of its inputs. */
  function InterceptorTopic(beanName: string, methodName: string, useBeanMethodAsTopic: bool,
                            expression: string, evaluate: string -> Option<string>): Option<string>
  {
    if TopicGenerator.NoExpression(expression) then
      (if useBeanMethodAsTopic then StrippedTopic(beanName + "." + methodName) else None)
    else if useBeanMethodAsTopic then
      StrippedTopic(beanName + "." + methodName + "-" + TopicGenerator.Rendered(evaluate(expression)))
    else
      StrippedTopic(TopicGenerator.Rendered(evaluate(expression)))
  }

  /** The two copies of generateTopic agree on every input. */
  lemma InterceptorTopicAgrees(beanName: string, methodName: string, useBeanMethodAsTopic: bool,
                               expression: string, evaluate: string -> Option<string>)
    ensures InterceptorTopic(beanName, methodName, useBeanMethodAsTopic, expression, evaluate)
         == TopicGenerator.GenerateTopic(beanName, methodName, useBeanMethodAsTopic, expression, evaluate)
  {
    if !useBeanMethodAsTopic && TopicGenerator.NoExpression(expression) {
      TopicGenerator.NoTopicByDefault(beanName, methodName, evaluate);
    }
  }

  /** The request for a call to an annotated method: the topic generated from the annotation and
      the bean and method names, the annotation's take-last and transaction settings, its delay. */
  function RequestFor(beanName: string, annotation: TransactionalOutbox, m: MethodSig, args: seq<JValue>,
                      evaluate: string -> Option<string>): (r: ScheduleRequest)
    ensures r.target == m && r.args == args
    ensures r.orderedTakeLast == annotation.orderedTakeLast
    ensures r.requireInTransaction == annotation.requireInTransaction
    ensures r.delayForAtLeast.None? <==> annotation.delayMillis <= 0
    ensures r.topic == TopicGenerator.GenerateTopic(beanName, m.name, annotation.useBeanMethodAsTopic,
                                                    annotation.orderExpression, evaluate)
  {
    InterceptorTopicAgrees(beanName, m.name, annotation.useBeanMethodAsTopic, annotation.orderExpression, evaluate);
    ScheduleRequest(
      InterceptorTopic(beanName, m.name, annotation.useBeanMethodAsTopic, annotation.orderExpression, evaluate),
      annotation.orderedTakeLast,
      DelayFor(annotation),
      m,
      args,
      annotation.requireInTransaction)
  }

  /** A defaulted annotation asks for no topic, no delay and an existing transaction. */
  lemma DefaultAnnotationRequest(beanName: string, m: MethodSig, args: seq<JValue>, evaluate: string -> Option<string>)
    ensures RequestFor(beanName, DefaultAnnotation, m, args, evaluate).topic.None?
    ensures RequestFor(beanName, DefaultAnnotation, m, args, evaluate).delayForAtLeast.None?
    ensures RequestFor(beanName, DefaultAnnotation, m, args, evaluate).requireInTransaction
    ensures !RequestFor(beanName, DefaultAnnotation, m, args, evaluate).orderedTakeLast
  {
    TopicGenerator.NoTopicByDefault(beanName, m.name, evaluate);
  }

  class TransactionalOutboxMethodInterceptor {
    const beanName: string
    const annotatedMethods: map<MethodSig, TransactionalOutbox>
    const outbox: OutboxScheduler

    constructor (beanName: string, annotatedMethods: map<MethodSig, TransactionalOutbox>, outbox: OutboxScheduler)
      ensures this.beanName == beanName && this.annotatedMethods == annotatedMethods && this.outbox == outbox
    {
      this.beanName := beanName;
      this.annotatedMethods := annotatedMethods;
      this.outbox := outbox;
    }

    /** invoke: proceed is what calling the bean itself would give, and it only happens for a
        method without an annotation; scheduleFailure is an exception persisting the call raises
        (no transaction, a duplicate request), which reaches the caller. */
    method Invoke(m: MethodSig, args: seq<JValue>, evaluate: string -> Option<string>,
                  proceed: CallOutcome, scheduleFailure: Option<JValue>)
      returns (r: CallOutcome, proceeded: bool)
      modifies outbox
      ensures proceeded <==> m !in annotatedMethods
      ensures proceeded ==> r == proceed && outbox.scheduled == old(outbox.scheduled)
      ensures !proceeded && scheduleFailure.None? ==>
        && r == Returned(JNull)
        && outbox.scheduled == old(outbox.scheduled) + [RequestFor(beanName, annotatedMethods[m], m, args, evaluate)]
      ensures !proceeded && scheduleFailure.Some? ==>
        r == Threw(scheduleFailure.value) && outbox.scheduled == old(outbox.scheduled)
    {
      if m in annotatedMethods {
        var request := RequestFor(beanName, annotatedMethods[m], m, args, evaluate);
        proceeded := false;
        if scheduleFailure.Some? {
          r := Threw(scheduleFailure.value);
        } else {
          outbox.scheduled := outbox.scheduled + [request];
          r := Returned(JNull);
        }
      } else {
        r, proceeded := proceed, true;
      }
    }
  }
}
