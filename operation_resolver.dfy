/**
 * The operation resolver `getOperationTypes` of lib/schemaParser.js: root
 * operation binding (section 3.3.1 of the GraphQL specification, October
 * 2021) on top of the parsed type records.
 */
module OperationResolver {
  import opened Wrappers
  import opened Ast
  import opened Errors
  import opened TypeModel

  /** The binding of one root operation to the name of its type. */
  datatype OperationBinding = OperationBinding(operation: Operation, field: string)

  /**
   * The builder's result: the root bindings when the document has a schema
   * definition (the `schemaDefinition` entry), and one record per type name
   * together with the order in which the names were first registered.
   */
  datatype SchemaModel = SchemaModel(
    schemaDefinition: Option<map<Operation, OperationBinding>>,
    types: map<string, TypeRecord>,
    typeNames: seq<string>)

  /**
   * The `forEach` over the schema definition's entries, as a fold over its
   * prefixes: an operation met a second time throws first, then an entry
   * whose type name is not `declared` throws.
   */
  function ResolveOperations(ops: seq<OperationTypeDefinition>, declared: set<string>)
    : (r: Result<map<Operation, OperationBinding>, Error>)
    ensures r.Success? ==> forall op :: op in r.value <==> exists i :: 0 <= i < |ops| && ops[i].operation == op
    ensures r.Success? ==> forall i :: 0 <= i < |ops| ==>
      r.value[ops[i].operation] == OperationBinding(ops[i].operation, ops[i].typeName)
    ensures r.Success? ==> forall op :: op in r.value ==> r.value[op].field in declared
    decreases |ops|
  {
    if ops == [] then Success(map[])
    else
      match ResolveOperations(ops[..|ops| - 1], declared)
      case Failure(e) => Failure(e)
      case Success(opTypes) =>
        var last := ops[|ops| - 1];
        if last.operation in opTypes then Failure(DuplicateOperation(last.operation))
        else if last.typeName !in declared then Failure(OperationTypeNotFound(last.operation, last.typeName))
        else Success(opTypes[last.operation := OperationBinding(last.operation, last.typeName)])
  }

  /** The result for a document with a schema definition: the type records are built first, so their errors come first. */
  function OperationTypes(ops: seq<OperationTypeDefinition>, nodes: map<string, TypeNode>, keys: seq<string>)
    : Result<SchemaModel, Error>
    requires forall k :: k in keys ==> k in nodes
  {
    match ParsedTypes(nodes, keys)
    case Failure(e) => Failure(e)
    case Success(types) =>
      match ResolveOperations(ops, nodes.Keys)
      case Failure(e) => Failure(e)
      case Success(opTypes) => Success(SchemaModel(Some(opTypes), types, keys))
  }

  /** `getOperationTypes`: build the records, then bind each root operation in turn. */
  method GetOperationTypes(schema: seq<OperationTypeDefinition>, nodeMap: map<string, TypeNode>, keys: seq<string>)
    returns (r: Result<SchemaModel, Error>)
    requires forall k :: k in keys ==> k in nodeMap
    ensures r == OperationTypes(schema, nodeMap, keys)
  {
    var s := ParseSchema(nodeMap, keys);
    if s.Failure? {
      return Failure(s.error);
    }
    var opTypes: map<Operation, OperationBinding> := map[];
    var i := 0;
    while i < |schema|
      invariant 0 <= i <= |schema|
      invariant ResolveOperations(schema[..i], nodeMap.Keys) == Success(opTypes)
    {
      var operationType := schema[i];
      assert schema[..i + 1][..i] == schema[..i];
      if operationType.operation in opTypes {
        ResolveFailurePersists(schema, nodeMap.Keys, i + 1);
        return Failure(DuplicateOperation(operationType.operation));
      }
      if operationType.typeName !in nodeMap {
        ResolveFailurePersists(schema, nodeMap.Keys, i + 1);
        return Failure(OperationTypeNotFound(operationType.operation, operationType.typeName));
      }
      opTypes := opTypes[operationType.operation := OperationBinding(operationType.operation, operationType.typeName)];
      i := i + 1;
    }
    assert schema[..|schema|] == schema;
    return Success(SchemaModel(Some(opTypes), s.value, keys));
  }

  /** The first error of a prefix is the error of the whole list. */
  lemma {:induction false} ResolveFailurePersists(ops: seq<OperationTypeDefinition>, declared: set<string>, k: nat)
    requires k <= |ops| && ResolveOperations(ops[..k], declared).Failure?
    ensures ResolveOperations(ops, declared) == ResolveOperations(ops[..k], declared)
    decreases |ops| - k
  {
    if k < |ops| {
      assert ops[..k + 1][..k] == ops[..k];
      ResolveFailurePersists(ops, declared, k + 1);
    } else {
      assert ops[..k] == ops;
    }
  }

  /** Binding succeeds exactly when no operation is repeated and every root type name is declared. */
  lemma {:induction false} ResolveSucceedsIff(ops: seq<OperationTypeDefinition>, declared: set<string>)
    ensures ResolveOperations(ops, declared).Success?
        <==> && (forall i, j :: 0 <= i < j < |ops| ==> ops[i].operation != ops[j].operation)
             && (forall i :: 0 <= i < |ops| ==> ops[i].typeName in declared)
  {
    if ops != [] {
      var init := ops[..|ops| - 1];
      ResolveSucceedsIff(init, declared);
      assert forall i :: 0 <= i < |init| ==> init[i] == ops[i];
    }
  }

  /** A root operation met again, after an error-free prefix, throws `Must provide only one <op> type in schema.` */
  lemma RepeatedOperationFails(ops: seq<OperationTypeDefinition>, declared: set<string>, i: nat, j: nat)
    requires i < j < |ops| && ops[i].operation == ops[j].operation
    requires ResolveOperations(ops[..j], declared).Success?
    ensures ResolveOperations(ops, declared) == Failure(DuplicateOperation(ops[j].operation))
  {
    assert ops[..j + 1][..j] == ops[..j];
    assert ops[..j][i] == ops[i];
    ResolveFailurePersists(ops, declared, j + 1);
  }

  /**
   * A new root operation whose type is not declared, after an error-free
   * prefix, throws `Specified <op> type "<name>" not found in document.`
   */
  lemma UnknownRootTypeFails(ops: seq<OperationTypeDefinition>, declared: set<string>, j: nat)
    requires j < |ops| && ops[j].typeName !in declared
    requires forall i :: 0 <= i < j ==> ops[i].operation != ops[j].operation
    requires ResolveOperations(ops[..j], declared).Success?
    ensures ResolveOperations(ops, declared) == Failure(OperationTypeNotFound(ops[j].operation, ops[j].typeName))
  {
    assert ops[..j + 1][..j] == ops[..j];
    assert forall i :: 0 <= i < j ==> ops[..j][i] == ops[i];
    ResolveFailurePersists(ops, declared, j + 1);
  }
}
