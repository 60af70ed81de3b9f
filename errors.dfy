/** The errors the schema builder throws, and the messages they carry. */
module Errors {
  import opened Ast

  datatype Error =
      /** A second schema definition in the document. */
    | MultipleSchemaDefinitions
      /** A second definition of an already registered type name. */
    | DuplicateType(name: string)
      /** A second entry for the same root operation in the schema definition. */
    | DuplicateOperation(operation: Operation)
      /** A root operation bound to a type name that the document does not define. */
    | OperationTypeNotFound(operation: Operation, name: string)
      /** The TypeError thrown when a type's field list starts with `undefined`. */
    | FieldOfUndefined(typeName: string)
      /** The TypeError thrown when a declared interface name has no record. */
    | UndefinedInterface(name: string)
  {
    /** The four errors the builder raises on purpose, as opposed to TypeErrors. */
    predicate IsValidationError()
    {
      MultipleSchemaDefinitions? || DuplicateType? || DuplicateOperation? || OperationTypeNotFound?
    }
  }

  function OperationName(op: Operation): string
  {
    match op
    case Query => "query"
    case Mutation => "mutation"
    case Subscription => "subscription"
  }

  /** The message of the thrown error; the TypeError texts are those of current Node.js. */
  function Message(e: Error): string
  {
    match e
    case MultipleSchemaDefinitions => "Must provide only one schema definition."
    case DuplicateType(name) => "Type \"" + name + "\" was defined more than once."
    case DuplicateOperation(op) => "Must provide only one " + OperationName(op) + " type in schema."
    case OperationTypeNotFound(op, name) =>
      "Specified " + OperationName(op) + " type \"" + name + "\" not found in document."
    case FieldOfUndefined(_) => "Cannot read properties of undefined (reading 'name')"
    case UndefinedInterface(_) => "Cannot read properties of undefined (reading 'type')"
  }

  /** The messages the test suite expects from the four invalid schemas it parses. */
  lemma TestSuiteMessages()
    ensures Message(MultipleSchemaDefinitions) == "Must provide only one schema definition."
    ensures Message(DuplicateType("School")) == "Type \"School\" was defined more than once."
    ensures Message(DuplicateOperation(Query)) == "Must provide only one query type in schema."
    ensures Message(OperationTypeNotFound(Query, "Query")) == "Specified query type \"Query\" not found in document."
  {
    DuplicateSchoolMessage();
    DuplicateQueryMessage();
    QueryNotFoundMessage();
  }

  /** The message for the duplicated `School` type. */
  lemma DuplicateSchoolMessage()
    ensures Message(DuplicateType("School")) == "Type \"School\" was defined more than once."
  {
    assert Message(DuplicateType("School")) == "Type \"" + "School" + "\" was defined more than once.";
  }

  /** The message for a second `query` entry. */
  lemma DuplicateQueryMessage()
    ensures Message(DuplicateOperation(Query)) == "Must provide only one query type in schema."
  {
  }

  /** The message for a `query` bound to the undefined type `Query`. */
  lemma QueryNotFoundMessage()
    ensures Message(OperationTypeNotFound(Query, "Query")) == "Specified query type \"Query\" not found in document."
  {
    assert Message(OperationTypeNotFound(Query, "Query"))
      == "Specified " + "query" + " type \"" + "Query" + "\" not found in document.";
    QueryNotFoundText();
  }

  /** The pieces of that message, joined. */
  lemma QueryNotFoundText()
    ensures "Specified " + "query" + " type \"" + "Query" + "\" not found in document."
      == "Specified query type \"Query\" not found in document."
  {
  }

  /**
   * Callers tell validation failures apart only by their message text: two
   * validation errors with the same message are the same error, names included.
   */
  lemma {:induction false} MessageIdentifiesError(e1: Error, e2: Error)
    requires e1.IsValidationError() && e2.IsValidationError()
    requires Message(e1) == Message(e2)
    ensures e1 == e2
  {
    var m := Message(e1);
    match e1
    case MultipleSchemaDefinitions =>
      assert m[0] == 'M' && m[23] == 'c';
    case DuplicateType(n1) =>
      assert m[0] == 'T';
      match e2 {
        case DuplicateType(n2) => DuplicateTypeMessageInjective(n1, n2);
        case MultipleSchemaDefinitions =>
        case DuplicateOperation(_) =>
        case OperationTypeNotFound(_, _) =>
      }
    case DuplicateOperation(o1) =>
      assert m[0] == 'M' && m[23] != 'c';
    case OperationTypeNotFound(o1, n1) =>
      assert m[0] == 'S';
      match e2 {
        case OperationTypeNotFound(o2, n2) => NotFoundMessageInjective(o1, n1, o2, n2);
        case MultipleSchemaDefinitions =>
        case DuplicateType(_) =>
        case DuplicateOperation(_) =>
      }
  }

  lemma DuplicateTypeMessageInjective(n1: string, n2: string)
    requires Message(DuplicateType(n1)) == Message(DuplicateType(n2))
    ensures n1 == n2
  {
    var m1, m2 := Message(DuplicateType(n1)), Message(DuplicateType(n2));
    assert |n1| == |n2|;
    assert n1 == m1[6..6 + |n1|];
    assert n2 == m2[6..6 + |n2|];
  }

  lemma NotFoundMessageInjective(o1: Operation, n1: string, o2: Operation, n2: string)
    requires Message(OperationTypeNotFound(o1, n1)) == Message(OperationTypeNotFound(o2, n2))
    ensures o1 == o2 && n1 == n2
  {
    var m1, m2 := Message(OperationTypeNotFound(o1, n1)), Message(OperationTypeNotFound(o2, n2));
    assert m1[10] == OperationName(o1)[0] && m2[10] == OperationName(o2)[0];
    var k := 10 + |OperationName(o1)| + 7;
    assert |n1| == |n2|;
    assert n1 == m1[k..k + |n1|];
    assert n2 == m2[k..k + |n2|];
  }
}
