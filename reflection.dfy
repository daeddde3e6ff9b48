/**
 * What the generator asks of Java reflection, as plain data: the `Class`
 * token of the type to implement, the methods `getMethods()` reports for
 * it, their parameters and the types involved. Names are taken as reflection
 * reports them; nothing here derives them.
 */
module Reflection {
  import opened JavaText

  /** Every type for which `Class.isPrimitive()` holds, `void` included. */
  datatype PrimitiveKind = Boolean | Byte | Char | Short | Int | Long | Float | Double | Void

  /**
   * A `Class` used as a return or parameter type, with the name
   * `getCanonicalName()` reports for it (the keyword, for a primitive).
   */
  datatype TypeRef =
    | Primitive(kind: PrimitiveKind, canonicalName: JString)
    | Reference(canonicalName: JString)
  {
    /** `boolean.class.equals(this)`. */
    predicate IsBoolean() { Primitive? && kind == Boolean }

    /** `void.class.equals(this)`. */
    predicate IsVoid() { Primitive? && kind == Void }
  }

  /** A `java.lang.reflect.Parameter`: its type and its (possibly synthesized) name. */
  datatype Parameter = Parameter(paramType: TypeRef, name: JString)

  /** A `java.lang.reflect.Method`, with `Modifier.isAbstract` of its modifiers. */
  datatype MethodInfo = MethodInfo(
    name: JString,
    returnType: TypeRef,
    parameters: seq<Parameter>,
    isAbstract: bool)

  /**
   * The `Class<?>` token handed to `implement`: its package and names, whether
   * it is an interface, whether its modifiers say `private`, and the methods
   * `getMethods()` reports, in reflection's order.
   */
  datatype TypeToken = TypeToken(
    packageName: JString,
    simpleName: JString,
    canonicalName: JString,
    isInterface: bool,
    isPrivate: bool,
    methods: seq<MethodInfo>)
}
