/** SpringExpressionTopicGenerator: the topic a @TransactionalOutbox call is ordered under, built
    from the bean and method name and the value of the order expression. Evaluating the SpEL
    expression against the call's arguments is an input (evaluate). */
module TopicGenerator {
  import opened Common

  /** String.strip at the front. */
  function StripLeading(s: string): (r: string)
    ensures |r| <= |s| && r == s[|s| - |r|..]
    ensures forall i :: 0 <= i < |s| - |r| ==> IsWhitespace(s[i])
    ensures |r| > 0 ==> !IsWhitespace(r[0])
  {
    if |s| > 0 && IsWhitespace(s[0]) then StripLeading(s[1..]) else s
  }

  /** String.strip at the back. */
  function StripTrailing(s: string): (r: string)
    ensures |r| <= |s| && r == s[..|r|]
    ensures forall i :: |r| <= i < |s| ==> IsWhitespace(s[i])
    ensures |r| > 0 ==> !IsWhitespace(r[|r| - 1])
  {
    if |s| > 0 && IsWhitespace(s[|s| - 1]) then StripTrailing(s[..|s| - 1]) else s
  }

  /** String.strip: surrounding whitespace removed. */
  function Strip(s: string): string {
    StripTrailing(StripLeading(s))
  }

  /** strip removes everything exactly when the text is blank, and leaves no whitespace at either
      end otherwise. */
  lemma StripEmptyIffBlank(s: string)
    ensures Strip(s) == "" <==> IsBlank(s)
    ensures Strip(s) != "" ==> !IsWhitespace(Strip(s)[0]) && !IsWhitespace(Strip(s)[|Strip(s)| - 1])
  {
  }

  /** A stripped text strips to itself. */
  lemma StripIdempotent(s: string)
    ensures Strip(Strip(s)) == Strip(s)
  {
    var t := Strip(s);
    if |t| > 0 {
      StripEmptyIffBlank(s);
    }
  }

  /** ObjectUtils.isEmpty on the expression: only the empty string counts as no expression. */
  predicate NoExpression(expression: string) {
    |expression| == 0
  }

  /** String concatenation renders a null String as "null". */
  function Rendered(value: Option<string>): string {
    if value.Some? then value.value else "null"
  }

  /** generateTopic: None is Java's null, no topic. */
  function GenerateTopic(beanName: string, methodName: string, useBeanMethodAsTopic: bool,
                         expression: string, evaluate: string -> Option<string>): (r: Option<string>)
    ensures r.Some? ==> r.value != "" && r.value == Strip(r.value)
  {
    var named := if useBeanMethodAsTopic then beanName + "." + methodName else "";
    var topic :=
      if NoExpression(expression) then named
      else if named == "" then Rendered(evaluate(expression))
      else named + "-" + Rendered(evaluate(expression));
    StripIdempotent(topic);
    var stripped := Strip(topic);
    if stripped == "" then None else Some(stripped)
  }

  /** With no expression and no bean-method topic there is no topic. */
  lemma NoTopicByDefault(beanName: string, methodName: string, evaluate: string -> Option<string>)
    ensures GenerateTopic(beanName, methodName, false, "", evaluate) == None
  {
  }

  /** With only the bean-method topic, the topic is beanName.methodName (stripped; absent when
      that is blank). */
  lemma BeanMethodTopic(beanName: string, methodName: string, evaluate: string -> Option<string>)
    ensures GenerateTopic(beanName, methodName, true, "", evaluate)
         == (if IsBlank(beanName + "." + methodName) then None else Some(Strip(beanName + "." + methodName)))
  {
    StripEmptyIffBlank(beanName + "." + methodName);
  }

  /** A bean-method topic is never blank: it holds the dot, so it is present whatever the names. */
  lemma BeanMethodTopicPresent(beanName: string, methodName: string, expression: string,
                               evaluate: string -> Option<string>)
    ensures GenerateTopic(beanName, methodName, true, expression, evaluate).Some?
  {
    var named := beanName + "." + methodName;
    var topic := if NoExpression(expression) then named else named + "-" + Rendered(evaluate(expression));
    assert topic[|beanName|] == '.';
    assert !IsBlank(topic);
    StripEmptyIffBlank(topic);
  }

  /** With only an expression, the topic is its value, "null" when the value is null. */
  lemma ExpressionTopic(beanName: string, methodName: string, expression: string,
                        evaluate: string -> Option<string>)
    requires !NoExpression(expression)
    ensures GenerateTopic(beanName, methodName, false, expression, evaluate)
         == (if IsBlank(Rendered(evaluate(expression))) then None else Some(Strip(Rendered(evaluate(expression)))))
    ensures evaluate(expression).None? ==> GenerateTopic(beanName, methodName, false, expression, evaluate) == Some("null")
  {
    StripEmptyIffBlank(Rendered(evaluate(expression)));
    if evaluate(expression).None? {
      assert !IsWhitespace('n') && !IsWhitespace('l');
    }
  }

  /** With both, the topic is beanName.methodName, a dash, then the value ("null" when null). */
  lemma CombinedTopic(beanName: string, methodName: string, expression: string,
                      evaluate: string -> Option<string>)
    requires !NoExpression(expression)
    ensures GenerateTopic(beanName, methodName, true, expression, evaluate)
         == Some(Strip(beanName + "." + methodName + "-" + Rendered(evaluate(expression))))
  {
    BeanMethodTopicPresent(beanName, methodName, expression, evaluate);
  }

  /** Surrounding whitespace never reaches the topic, and a blank topic is no topic. */
  lemma TopicIsStripped(beanName: string, methodName: string, useBeanMethodAsTopic: bool,
                        expression: string, evaluate: string -> Option<string>)
    ensures var r := GenerateTopic(beanName, methodName, useBeanMethodAsTopic, expression, evaluate);
      r.Some? ==> !IsWhitespace(r.value[0]) && !IsWhitespace(r.value[|r.value| - 1])
  {
    var r := GenerateTopic(beanName, methodName, useBeanMethodAsTopic, expression, evaluate);
    if r.Some? {
      StrippedEnds(r.value);
    }
  }

  /** A non-empty text that strips to itself has no whitespace at either end. */
  lemma StrippedEnds(t: string)
    requires t != "" && t == Strip(t)
    ensures !IsWhitespace(t[0]) && !IsWhitespace(t[|t| - 1])
  {
    StripEmptyIffBlank(t);
  }

  /** The expression is only consulted when there is one: with none, evaluate does not matter. */
  lemma EmptyExpressionIgnored(beanName: string, methodName: string, useBeanMethodAsTopic: bool,
                               evaluate: string -> Option<string>, other: string -> Option<string>)
    ensures GenerateTopic(beanName, methodName, useBeanMethodAsTopic, "", evaluate)
         == GenerateTopic(beanName, methodName, useBeanMethodAsTopic, "", other)
  {
  }
}
