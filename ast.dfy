/**
 * The parsed GraphQL document that the schema builder consumes, reduced to
 * the properties of the AST nodes that the builder reads. A property that the
 * parser may leave `undefined` is an `Option`; a list-valued property that is
 * present (even when empty) is `Some`.
 */
module Ast {
  import opened Wrappers

  /** A type reference: a named type, a list of a type, or a non-null type. */
  datatype TypeRef = Named(name: string) | List(ofType: TypeRef) | NonNull(ofType: TypeRef)

  /** A directive applied to a field or argument; only its name is read. */
  datatype Directive = Directive(name: string)

  /** An argument definition (an input value definition). */
  datatype InputValueDefinition = InputValueDefinition(name: string, typeRef: TypeRef, directives: seq<Directive>)

  /**
   * A field definition. Fields of object and interface types carry an argument
   * list; fields of input object types have none (`arguments` is `None`).
   */
  datatype FieldDefinition = FieldDefinition(
    name: string,
    typeRef: TypeRef,
    arguments: Option<seq<InputValueDefinition>>,
    directives: seq<Directive>)

  /** The kind tags of the nodes that end up in the type map. */
  datatype TypeKind =
    | ScalarTypeDefinition
    | ObjectTypeDefinition
    | InterfaceTypeDefinition
    | EnumTypeDefinition
    | UnionTypeDefinition
    | InputObjectTypeDefinition
    | ObjectTypeExtension

  /**
   * The `fields` property of a type node: absent, an array of field
   * definitions, or an array whose first element is `undefined` followed by
   * field definitions. The last shape is what concatenating an extension's
   * fields onto a node without a field list produces.
   */
  datatype FieldList =
    | NoFields
    | FieldDefs(defs: seq<FieldDefinition>)
    | UndefinedThen(defs: seq<FieldDefinition>)

  /** The defined field definitions of a field list, in order. */
  function Elements(fields: FieldList): seq<FieldDefinition>
  {
    match fields
    case NoFields => []
    case FieldDefs(defs) => defs
    case UndefinedThen(defs) => defs
  }

  /**
   * A type node. Enum values, union members and declared interfaces are
   * reduced to the names the builder reads from them; the description is
   * copied through untouched.
   */
  datatype TypeNode = TypeNode(
    kind: TypeKind,
    name: string,
    description: Option<string>,
    fields: FieldList,
    values: Option<seq<string>>,
    types: Option<seq<string>>,
    interfaces: Option<seq<string>>)

  /** A type definition as the parser produces it: not an extension, and no undefined field. */
  type DefinitionNode = n: TypeNode | n.kind != ObjectTypeExtension && !n.fields.UndefinedThen?
    witness TypeNode(ScalarTypeDefinition, "", None, NoFields, None, None, None)

  /** The three root operations. */
  datatype Operation = Query | Mutation | Subscription

  /** One `operation: TypeName` entry of a schema definition. */
  datatype OperationTypeDefinition = OperationTypeDefinition(operation: Operation, typeName: string)

  /** A top-level definition of the document, by kind. */
  datatype Definition =
    | SchemaDef(operationTypes: seq<OperationTypeDefinition>)
    | TypeDef(node: DefinitionNode)
    | ObjectExtensionDef(name: string, fields: seq<FieldDefinition>, interfaces: seq<string>)
    | DirectiveDef(name: string)
    | OtherDef

  /** The node an object type extension becomes when it is stored as the entry for its name. */
  function ExtensionNode(name: string, fields: seq<FieldDefinition>, interfaces: seq<string>): TypeNode
  {
    TypeNode(ObjectTypeExtension, name, None, FieldDefs(fields), None, None, Some(interfaces))
  }
}
