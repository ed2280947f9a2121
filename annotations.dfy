/** The Spring layer's view of a bean's methods: the @TransactionalOutbox annotation with its
    defaults, and the reflective signature of a method. */
module SpringAnnotations {

  /** @TransactionalOutbox and its attributes. */
  datatype TransactionalOutbox = TransactionalOutbox(
    requireInTransaction: bool,
    delayMillis: int,
    useBeanMethodAsTopic: bool,
    orderExpression: string,
    orderedTakeLast: bool,
    requireResultHandler: bool)

  /** The annotation with every attribute left at its default. */
  const DefaultAnnotation: TransactionalOutbox :=
    TransactionalOutbox(
      requireInTransaction := true,
      delayMillis := 0,
      useBeanMethodAsTopic := false,
      orderExpression := "",
      orderedTakeLast := false,
      requireResultHandler := false)

  /** A method as reflection identifies it; types are their Java type names. */
  datatype MethodSig = MethodSig(
    declaringClass: string,
    name: string,
    parameterTypes: seq<string>,
    returnType: string)

  const VoidType: string := "void"
  const ThrowableType: string := "java.lang.Throwable"

  /** Class.isPrimitive: the eight primitive types and void. */
  predicate IsPrimitive(typeName: string) {
    typeName in {"boolean", "byte", "char", "short", "int", "long", "float", "double", VoidType}
  }

  /** Void.TYPE.equals(method.getReturnType()). */
  predicate IsVoid(m: MethodSig) {
    m.returnType == VoidType
  }

  /** A return type the outbox cannot stand in for: it returns null for a scheduled call, which a
      primitive other than void cannot hold. */
  predicate HasPrimitiveResult(m: MethodSig) {
    IsPrimitive(m.returnType) && !IsVoid(m)
  }

  lemma PrimitiveResultCases(m: MethodSig)
    ensures HasPrimitiveResult(m) <==> m.returnType in {"boolean", "byte", "char", "short", "int", "long", "float", "double"}
    ensures IsVoid(m) ==> !HasPrimitiveResult(m)
  {
  }
}
