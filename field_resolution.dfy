/**
 * Wrapped-type resolution for fields and arguments: `findType`,
 * `findArguments` and `validateIfDeprecated` of lib/schemaParser.js.
 */
module FieldResolution {
  import opened Wrappers
  import opened Ast

  /**
   * The accumulator `findType` fills in: the innermost type name (absent
   * until a named layer is reached), whether the outermost layer is non-null,
   * whether some layer is a list, and whether a non-null layer was met inside
   * a list.
   */
  datatype TypeInfo = TypeInfo(typeName: Option<string>, noNull: bool, isArray: bool, noNullArrayValues: bool)

  /** The accumulator a top-level call starts from. */
  const Fresh := TypeInfo(None, false, false, false)

  // Reference definitions over the type-reference grammar.

  /** The name at the bottom of all wrappers. */
  function InnerName(t: TypeRef): string
  {
    match t
    case Named(n) => n
    case List(u) => InnerName(u)
    case NonNull(u) => InnerName(u)
  }

  /** Some layer of `t` is a list. */
  predicate HasList(t: TypeRef)
  {
    match t
    case Named(_) => false
    case List(_) => true
    case NonNull(u) => HasList(u)
  }

  /** Some layer of `t` is non-null. */
  predicate HasNonNull(t: TypeRef)
  {
    match t
    case Named(_) => false
    case List(u) => HasNonNull(u)
    case NonNull(_) => true
  }

  /** Some non-null layer of `t` lies strictly inside a list layer of `t`. */
  predicate NonNullUnderList(t: TypeRef)
  {
    match t
    case Named(_) => false
    case List(u) => HasNonNull(u)
    case NonNull(u) => NonNullUnderList(u)
  }

  /** What a field of type `t` is described as. */
  function Resolved(t: TypeRef): TypeInfo
  {
    TypeInfo(Some(InnerName(t)), t.NonNull?, HasList(t), NonNullUnderList(t))
  }

  lemma NonNullUnderListHasNonNull(t: TypeRef)
    ensures NonNullUnderList(t) ==> HasNonNull(t)
  {
  }

  /**
   * One step per wrapper layer: the outermost layer alone decides `noNull`,
   * and a non-null layer met on a nested call after a list was seen sets
   * `noNullArrayValues`. A named layer has no inner `type`, which is the
   * base case. Top-level callers never pass an accumulator, so a call that
   * is not nested starts from `Fresh`.
   */
  function FindType(node: TypeRef, info: TypeInfo, nestedCall: bool): (r: TypeInfo)
    requires !nestedCall ==> info == Fresh
    ensures r.typeName == Some(InnerName(node))
    ensures r.noNull == (info.noNull || (!nestedCall && node.NonNull?))
    ensures r.isArray == (info.isArray || HasList(node))
    ensures r.noNullArrayValues
         == (info.noNullArrayValues || (info.isArray && HasNonNull(node)) || NonNullUnderList(node))
    decreases node
  {
    var afterNoNull := if !nestedCall && node.NonNull? then info.(noNull := true) else info;
    var afterValues :=
      if nestedCall && afterNoNull.isArray && node.NonNull? then afterNoNull.(noNullArrayValues := true)
      else afterNoNull;
    var afterArray := if node.List? then afterValues.(isArray := true) else afterValues;
    match node
    case Named(n) => afterArray.(typeName := Some(n))
    case List(u) =>
      NonNullUnderListHasNonNull(u);
      FindType(u, afterArray, true)
    case NonNull(u) => FindType(u, afterArray, true)
  }

  /** Whether a directive list marks its field or argument as deprecated. */
  function ValidateIfDeprecated(directives: seq<Directive>): (r: bool)
    ensures r <==> exists i :: 0 <= i < |directives| && directives[i].name == "deprecated"
  {
    if |directives| == 0 then false
    else directives[0].name == "deprecated" || ValidateIfDeprecated(directives[1..])
  }

  /** The descriptor of one argument: its name, its deprecation flag and its wrapped type. */
  datatype ArgumentRecord = ArgumentRecord(name: string, isDeprecated: bool, info: TypeInfo)

  function FindArgument(arg: InputValueDefinition): ArgumentRecord
  {
    ArgumentRecord(arg.name, ValidateIfDeprecated(arg.directives), FindType(arg.typeRef, Fresh, false))
  }

  /** The argument descriptors of a field, in declaration order; none when the field has no argument list. */
  function FindArguments(node: Option<seq<InputValueDefinition>>): (r: seq<ArgumentRecord>)
    ensures node.None? ==> r == []
    ensures node.Some? ==> |r| == |node.value|
    ensures node.Some? ==> forall i :: 0 <= i < |r| ==>
      && r[i].name == node.value[i].name
      && r[i].info == Resolved(node.value[i].typeRef)
      && (r[i].isDeprecated <==> Directive("deprecated") in node.value[i].directives)
  {
    match node
    case None => []
    case Some(args) => seq(|args|, i requires 0 <= i < |args| => FindArgument(args[i]))
  }

  /** The scalar fields of the SDL test schema: `id: ID!` and `email: String`. */
  lemma FindTypeExamples()
    ensures FindType(NonNull(Named("ID")), Fresh, false) == TypeInfo(Some("ID"), true, false, false)
    ensures FindType(Named("String"), Fresh, false) == TypeInfo(Some("String"), false, false, false)
  {
  }

  /**
   * The list fields of the `User` type built in code, `id: [ID!]!` and
   * `lastNames: [String]!`, and one further nesting, `[[Int!]]`, which no
   * test schema uses.
   */
  lemma FindTypeListExamples()
    ensures FindType(NonNull(List(NonNull(Named("ID")))), Fresh, false) == TypeInfo(Some("ID"), true, true, true)
    ensures FindType(NonNull(List(Named("String"))), Fresh, false) == TypeInfo(Some("String"), true, true, false)
    ensures FindType(List(List(NonNull(Named("Int")))), Fresh, false) == TypeInfo(Some("Int"), false, true, true)
  {
  }
}
