/**
 * The document classifier `schemaBuilder` of lib/schemaParser.js: one pass
 * over the document's definitions that keeps the schema definition, fills
 * the name-keyed type map, merges object type extensions and collects
 * directive definitions, followed by the type model builder and, when a
 * schema definition was found, the operation resolver.
 */
module DocumentClassifier {
  import opened Wrappers
  import opened Ast
  import opened Errors
  import opened TypeModel
  import opened OperationResolver

  /**
   * The classifier's state: the schema definition's entries once one was
   * met, the type map with its keys in insertion order, and the names of the
   * directive definitions (collected, never used).
   */
  datatype Classified = Classified(
    schemaDef: Option<seq<OperationTypeDefinition>>,
    nodes: map<string, TypeNode>,
    keys: seq<string>,
    directives: seq<string>)

  const Initial := Classified(None, map[], [], [])

  /** Keys are registered once each, the map holds exactly the keys, and every node is stored under its own name. */
  ghost predicate WellFormed(c: Classified)
  {
    && (forall i, j :: 0 <= i < j < |c.keys| ==> c.keys[i] != c.keys[j])
    && (forall k :: k in c.nodes <==> k in c.keys)
    && (forall k :: k in c.nodes ==> c.nodes[k].name == k)
  }

  /** The definition registers or extends the type called `name`. */
  predicate Declares(d: Definition, name: string)
  {
    (d.TypeDef? && d.node.name == name) || (d.ObjectExtensionDef? && d.name == name)
  }

  /**
   * `[].concat(base, extension)`: the base's field definitions followed by
   * the extension's, in order; a base without a field list contributes a
   * single `undefined` element in front.
   */
  function ConcatFields(base: FieldList, extension: seq<FieldDefinition>): (r: FieldList)
    ensures Elements(r) == Elements(base) + extension
    ensures r.UndefinedThen? <==> !base.FieldDefs?
    ensures !r.NoFields?
  {
    match base
    case NoFields => UndefinedThen(extension)
    case FieldDefs(defs) => FieldDefs(defs + extension)
    case UndefinedThen(defs) => UndefinedThen(defs + extension)
  }

  /** One iteration of the classifying loop. */
  function Step(c: Classified, d: Definition): Result<Classified, Error>
  {
    match d
    case SchemaDef(operationTypes) =>
      if c.schemaDef.Some? then Failure(MultipleSchemaDefinitions)
      else Success(c.(schemaDef := Some(operationTypes)))
    case TypeDef(node) =>
      if node.name in c.nodes then Failure(DuplicateType(node.name))
      else Success(c.(nodes := c.nodes[node.name := node], keys := c.keys + [node.name]))
    case ObjectExtensionDef(name, fields, interfaces) =>
      if name in c.nodes then
        Success(c.(nodes := c.nodes[name := c.nodes[name].(fields := ConcatFields(c.nodes[name].fields, fields))]))
      else
        Success(c.(nodes := c.nodes[name := ExtensionNode(name, fields, interfaces)], keys := c.keys + [name]))
    case DirectiveDef(name) => Success(c.(directives := c.directives + [name]))
    case OtherDef => Success(c)
  }

  /**
   * One iteration throws only on a second schema definition or on a type
   * definition whose name is registered; otherwise it keeps the state well
   * formed, records a schema definition's entries and registers the name the
   * definition declares.
   */
  lemma StepFacts(c: Classified, d: Definition)
    requires WellFormed(c)
    ensures Step(c, d).Failure? <==> (d.SchemaDef? && c.schemaDef.Some?) || (d.TypeDef? && d.node.name in c.nodes)
    ensures Step(c, d).Success? ==> WellFormed(Step(c, d).value)
    ensures Step(c, d).Success? ==>
      Step(c, d).value.schemaDef == (if d.SchemaDef? then Some(d.operationTypes) else c.schemaDef)
    ensures Step(c, d).Success? ==>
      forall n :: n in Step(c, d).value.nodes <==> n in c.nodes || Declares(d, n)
  {
    match d
    case TypeDef(node) =>
      if node.name !in c.nodes {
        var keys' := c.keys + [node.name];
        assert forall i :: 0 <= i < |c.keys| ==> keys'[i] == c.keys[i];
      }
    case ObjectExtensionDef(name, fields, interfaces) =>
      if name !in c.nodes {
        var keys' := c.keys + [name];
        assert forall i :: 0 <= i < |c.keys| ==> keys'[i] == c.keys[i];
      }
    case _ =>
  }

  /**
   * What one successful iteration stores: a type definition's node as it was
   * written, under its name, with the name appended to the keys; a directive
   * definition's name appended to the directives; and for every definition
   * that neither defines nor extends a type, the same map and keys.
   */
  lemma StepStores(c: Classified, d: Definition)
    ensures d.TypeDef? && Step(c, d).Success? ==>
      && Step(c, d).value.nodes == c.nodes[d.node.name := d.node]
      && Step(c, d).value.keys == c.keys + [d.node.name]
    ensures !d.TypeDef? && !d.ObjectExtensionDef? && Step(c, d).Success? ==>
      Step(c, d).value.nodes == c.nodes && Step(c, d).value.keys == c.keys
    ensures Step(c, d).Success? ==>
      Step(c, d).value.directives == (if d.DirectiveDef? then c.directives + [d.name] else c.directives)
  {
  }

  /** The classifying loop over a prefix of the document; it stops at the first error. */
  function Classify(defs: seq<Definition>): (r: Result<Classified, Error>)
    ensures r.Success? ==> WellFormed(r.value)
    decreases |defs|
  {
    if defs == [] then Success(Initial)
    else
      match Classify(defs[..|defs| - 1])
      case Failure(e) => Failure(e)
      case Success(c) => StepFacts(c, defs[|defs| - 1]); Step(c, defs[|defs| - 1])
  }

  /**
   * After an error-free pass, the schema definition is kept exactly when the
   * document has one (and it is that one), and the type map holds exactly the
   * names the document defines or extends.
   */
  lemma {:induction false} ClassifyContents(defs: seq<Definition>)
    requires Classify(defs).Success?
    ensures Classify(defs).value.schemaDef.Some? <==> exists i :: 0 <= i < |defs| && defs[i].SchemaDef?
    ensures forall i :: 0 <= i < |defs| && defs[i].SchemaDef? ==>
      Classify(defs).value.schemaDef == Some(defs[i].operationTypes)
    ensures forall n :: n in Classify(defs).value.nodes <==> exists i :: 0 <= i < |defs| && Declares(defs[i], n)
    decreases |defs|
  {
    if defs != [] {
      var init := defs[..|defs| - 1];
      var last := defs[|defs| - 1];
      assert forall i :: 0 <= i < |init| ==> init[i] == defs[i];
      ClassifyContents(init);
      var c := Classify(init).value;
      StepFacts(c, last);
      if last.SchemaDef? {
        assert c.schemaDef.None?;
        assert forall i :: 0 <= i < |defs| && defs[i].SchemaDef? ==> i == |defs| - 1;
      }
      forall n | (exists i :: 0 <= i < |defs| && Declares(defs[i], n))
        ensures n in Classify(defs).value.nodes
      {
        var i :| 0 <= i < |defs| && Declares(defs[i], n);
        if i < |init| {
          assert Declares(init[i], n);
        }
      }
    }
  }

  /**
   * A type definition that no later extension of the same name follows is
   * stored as it was written: after an error-free pass, its name maps to its
   * own node.
   */
  lemma {:induction false} DefinitionStored(defs: seq<Definition>, j: nat)
    requires j < |defs| && defs[j].TypeDef?
    requires forall k :: j < k < |defs| ==> !(defs[k].ObjectExtensionDef? && defs[k].name == defs[j].node.name)
    requires Classify(defs).Success?
    ensures defs[j].node.name in Classify(defs).value.nodes
    ensures Classify(defs).value.nodes[defs[j].node.name] == defs[j].node
    decreases |defs|
  {
    var init := defs[..|defs| - 1];
    var last := defs[|defs| - 1];
    var c := Classify(init).value;
    StepFacts(c, last);
    StepStores(c, last);
    if j < |defs| - 1 {
      assert forall k :: 0 <= k < |init| ==> init[k] == defs[k];
      DefinitionStored(init, j);
      if last.TypeDef? {
        assert last.node.name != defs[j].node.name;
      }
    }
  }

  /** The result for the whole document. */
  function BuildModel(doc: seq<Definition>): Result<SchemaModel, Error>
  {
    match Classify(doc)
    case Failure(e) => Failure(e)
    case Success(c) =>
      match c.schemaDef
      case Some(ops) => OperationTypes(ops, c.nodes, c.keys)
      case None =>
        match ParsedTypes(c.nodes, c.keys)
        case Failure(e) => Failure(e)
        case Success(types) => Success(SchemaModel(None, types, c.keys))
  }

  /** `schemaBuilder`: classify the definitions in document order, then build the model. */
  method SchemaBuilder(doc: seq<Definition>) returns (r: Result<SchemaModel, Error>)
    ensures r == BuildModel(doc)
  {
    var schemaDef: Option<seq<OperationTypeDefinition>> := None;
    var nodeMap: map<string, TypeNode> := map[];
    var keys: seq<string> := [];
    var directiveDefs: seq<string> := [];
    var i := 0;
    while i < |doc|
      invariant 0 <= i <= |doc|
      invariant Classify(doc[..i]) == Success(Classified(schemaDef, nodeMap, keys, directiveDefs))
    {
      var d := doc[i];
      assert doc[..i + 1][..i] == doc[..i];
      match d {
        case SchemaDef(operationTypes) =>
          if schemaDef.Some? {
            ClassifyFailurePersists(doc, i + 1);
            return Failure(MultipleSchemaDefinitions);
          }
          schemaDef := Some(operationTypes);
        case TypeDef(node) =>
          if node.name in nodeMap {
            ClassifyFailurePersists(doc, i + 1);
            return Failure(DuplicateType(node.name));
          }
          nodeMap := nodeMap[node.name := node];
          keys := keys + [node.name];
        case ObjectExtensionDef(name, fields, interfaces) =>
          if name in nodeMap {
            nodeMap := nodeMap[name := nodeMap[name].(fields := ConcatFields(nodeMap[name].fields, fields))];
          } else {
            nodeMap := nodeMap[name := ExtensionNode(name, fields, interfaces)];
            keys := keys + [name];
          }
        case DirectiveDef(name) =>
          directiveDefs := directiveDefs + [name];
        case OtherDef =>
      }
      i := i + 1;
    }
    assert doc[..|doc|] == doc;
    if schemaDef.Some? {
      r := GetOperationTypes(schemaDef.value, nodeMap, keys);
    } else {
      var parsed := ParseSchema(nodeMap, keys);
      if parsed.Failure? {
        return Failure(parsed.error);
      }
      r := Success(SchemaModel(None, parsed.value, keys));
    }
  }

  // ---------------------------------------------------------------------
  // What classification guarantees.
  // ---------------------------------------------------------------------

  /** The first error of a prefix is the error of the whole document. */
  lemma {:induction false} ClassifyFailurePersists(defs: seq<Definition>, k: nat)
    requires k <= |defs| && Classify(defs[..k]).Failure?
    ensures Classify(defs) == Classify(defs[..k])
    decreases |defs| - k
  {
    if k < |defs| {
      assert defs[..k + 1][..k] == defs[..k];
      ClassifyFailurePersists(defs, k + 1);
    } else {
      assert defs[..k] == defs;
    }
  }

  /** Two definitions conflict: a second schema definition, or a definition of a name registered before. */
  predicate Conflict(defs: seq<Definition>, i: int, j: int)
  {
    && 0 <= i < j < |defs|
    && ((defs[i].SchemaDef? && defs[j].SchemaDef?) || (defs[j].TypeDef? && Declares(defs[i], defs[j].node.name)))
  }

  /** Classification succeeds exactly when no two definitions conflict. */
  lemma {:induction false} ClassifySucceedsIff(defs: seq<Definition>)
    ensures Classify(defs).Success? <==> forall i, j :: !Conflict(defs, i, j)
  {
    if defs != [] {
      var init := defs[..|defs| - 1];
      var last := defs[|defs| - 1];
      assert forall i :: 0 <= i < |init| ==> init[i] == defs[i];
      ClassifySucceedsIff(init);
      assert forall i, j :: Conflict(init, i, j) <==> Conflict(defs, i, j) && j < |init|;
      if Classify(init).Success? {
        var c := Classify(init).value;
        ClassifyContents(init);
        StepFacts(c, last);
        if Step(c, last).Failure? {
          if last.SchemaDef? {
            var i :| 0 <= i < |init| && init[i].SchemaDef?;
            assert Conflict(defs, i, |defs| - 1);
          } else {
            var i :| 0 <= i < |init| && Declares(init[i], last.node.name);
            assert Conflict(defs, i, |defs| - 1);
          }
        }
      }
    }
  }

  /** A second schema definition, after an error-free prefix, throws `Must provide only one schema definition.` */
  lemma SecondSchemaFails(defs: seq<Definition>, i: nat, j: nat)
    requires i < j < |defs| && defs[i].SchemaDef? && defs[j].SchemaDef?
    requires Classify(defs[..j]).Success?
    ensures Classify(defs) == Failure(MultipleSchemaDefinitions)
  {
    assert defs[..j + 1][..j] == defs[..j];
    assert defs[..j][i] == defs[i];
    ClassifyContents(defs[..j]);
    ClassifyFailurePersists(defs, j + 1);
  }

  /**
   * A type definition whose name an earlier definition or extension
   * registered, after an error-free prefix, throws
   * `Type "<name>" was defined more than once.`
   */
  lemma DuplicateTypeFails(defs: seq<Definition>, i: nat, j: nat)
    requires i < j < |defs| && defs[j].TypeDef? && Declares(defs[i], defs[j].node.name)
    requires Classify(defs[..j]).Success?
    ensures Classify(defs) == Failure(DuplicateType(defs[j].node.name))
  {
    assert defs[..j + 1][..j] == defs[..j];
    assert defs[..j][i] == defs[i];
    ClassifyContents(defs[..j]);
    ClassifyFailurePersists(defs, j + 1);
  }

  /**
   * An object type extension never throws. With a registered base, the base's
   * field definitions are followed by the extension's and nothing else
   * changes; without one, the extension becomes the entry for its name.
   */
  lemma ExtensionMerges(defs: seq<Definition>, name: string, fields: seq<FieldDefinition>, interfaces: seq<string>)
    requires Classify(defs).Success?
    ensures var c := Classify(defs).value;
      var r := Classify(defs + [ObjectExtensionDef(name, fields, interfaces)]);
      && r.Success?
      && r.value.schemaDef == c.schemaDef && r.value.directives == c.directives
      && (forall n :: n in c.nodes && n != name ==> r.value.nodes[n] == c.nodes[n])
      && (name in c.nodes ==>
            && r.value.keys == c.keys
            && r.value.nodes[name] == c.nodes[name].(fields := ConcatFields(c.nodes[name].fields, fields))
            && Elements(r.value.nodes[name].fields) == Elements(c.nodes[name].fields) + fields)
      && (name !in c.nodes ==>
            r.value.keys == c.keys + [name] && r.value.nodes[name] == ExtensionNode(name, fields, interfaces))
  {
    var extended := defs + [ObjectExtensionDef(name, fields, interfaces)];
    assert extended[..|extended| - 1] == defs;
  }

  /** A prefix of a document that classifies without error classifies without error. */
  lemma ClassifyPrefixSucceeds(defs: seq<Definition>, k: nat)
    requires k <= |defs| && Classify(defs).Success?
    ensures Classify(defs[..k]).Success?
  {
    if Classify(defs[..k]).Failure? {
      ClassifyFailurePersists(defs, k);
    }
  }

  /** One more definition: the prefix of length `k + 1` is one step after the prefix of length `k`. */
  lemma ClassifyNext(defs: seq<Definition>, k: nat)
    requires k < |defs| && Classify(defs[..k]).Success?
    ensures Classify(defs[..k + 1]) == Step(Classify(defs[..k]).value, defs[k])
  {
    assert defs[..k + 1][..k] == defs[..k];
  }

  /** One iteration keeps a registered type without a field list without one. */
  lemma StepKeepsFieldless(c: Classified, d: Definition, name: string)
    requires name in c.nodes && !c.nodes[name].fields.FieldDefs?
    requires Step(c, d).Success?
    ensures name in Step(c, d).value.nodes
    ensures !Step(c, d).value.nodes[name].fields.FieldDefs?
    ensures (c.nodes[name].fields.UndefinedThen? || (d.ObjectExtensionDef? && d.name == name))
      ==> Step(c, d).value.nodes[name].fields.UndefinedThen?
  {
  }

  /**
   * Once a registered type has no field list of its own (it was defined
   * without one, or extended after that), it never gains one: a later
   * definition of the name would throw, and a later extension puts the
   * `undefined` element in front. After any extension the list has that
   * element.
   */
  lemma {:induction false} FieldlessStaysFieldless(defs: seq<Definition>, k: nat, name: string, m: int)
    requires k <= |defs| && Classify(defs).Success?
    requires Classify(defs[..k]).Success? && name in Classify(defs[..k]).value.nodes
    requires !Classify(defs[..k]).value.nodes[name].fields.FieldDefs?
    ensures name in Classify(defs).value.nodes
    ensures !Classify(defs).value.nodes[name].fields.FieldDefs?
    ensures (|| Classify(defs[..k]).value.nodes[name].fields.UndefinedThen?
             || (k <= m < |defs| && defs[m].ObjectExtensionDef? && defs[m].name == name))
        ==> Classify(defs).value.nodes[name].fields.UndefinedThen?
    decreases |defs| - k
  {
    if k == |defs| {
      assert defs[..k] == defs;
      assert Classify(defs[..k]) == Classify(defs);
    } else {
      var c := Classify(defs[..k]).value;
      ClassifyPrefixSucceeds(defs, k + 1);
      ClassifyNext(defs, k);
      var c' := Classify(defs[..k + 1]).value;
      StepKeepsFieldless(c, defs[k], name);
      var extendedHere := defs[k].ObjectExtensionDef? && defs[k].name == name;
      assert (c.nodes[name].fields.UndefinedThen? || extendedHere) ==> c'.nodes[name].fields.UndefinedThen?;
      FieldlessStaysFieldless(defs, k + 1, name, m);
      if m == k {
        assert extendedHere ==> c'.nodes[name].fields.UndefinedThen?;
      }
    }
  }

  /**
   * Extending a type that was defined without a field list (a scalar, an
   * enum, a union) makes the builder throw the TypeError of reading `name`
   * of `undefined`, whether or not there is a schema definition.
   */
  lemma ExtendingFieldlessTypeFails(defs: seq<Definition>, i: nat, j: nat)
    requires i < j < |defs| && defs[i].TypeDef? && defs[i].node.fields.NoFields?
    requires defs[j].ObjectExtensionDef? && defs[j].name == defs[i].node.name
    requires Classify(defs).Success?
    ensures BuildModel(defs).Failure? && BuildModel(defs).error.FieldOfUndefined?
  {
    ExtendedFieldlessIsUndefined(defs, i, j);
    var d := Classify(defs).value;
    assert ParseTypes(map[], d.nodes, d.keys).Failure?;
  }

  /** The classified record of such a type is listed and starts with `undefined`. */
  lemma ExtendedFieldlessIsUndefined(defs: seq<Definition>, i: nat, j: nat)
    requires i < j < |defs| && defs[i].TypeDef? && defs[i].node.fields.NoFields?
    requires defs[j].ObjectExtensionDef? && defs[j].name == defs[i].node.name
    requires Classify(defs).Success?
    ensures defs[i].node.name in Classify(defs).value.keys
    ensures defs[i].node.name in Classify(defs).value.nodes
    ensures Classify(defs).value.nodes[defs[i].node.name].fields.UndefinedThen?
  {
    var name := defs[i].node.name;
    ClassifyPrefixSucceeds(defs, i);
    ClassifyPrefixSucceeds(defs, i + 1);
    ClassifyNext(defs, i);
    var c := Classify(defs[..i]).value;
    StepStores(c, defs[i]);
    assert Classify(defs[..i + 1]).value.nodes[name] == defs[i].node;
    FieldlessStaysFieldless(defs, i + 1, name, j);
    var d := Classify(defs).value;
    assert name in d.keys;
  }

  // ---------------------------------------------------------------------
  // What the whole builder guarantees.
  // ---------------------------------------------------------------------

  /**
   * On success the result holds exactly one record per type name the
   * document defines or extends, with every name listed once, and a
   * `schemaDefinition` entry exactly when the document has a schema
   * definition.
   */
  lemma BuildModelTypes(doc: seq<Definition>)
    requires BuildModel(doc).Success?
    ensures var m := BuildModel(doc).value;
      && (forall n :: n in m.types <==> exists i :: 0 <= i < |doc| && Declares(doc[i], n))
      && (forall n :: n in m.types <==> n in m.typeNames)
      && (forall i, j :: 0 <= i < j < |m.typeNames| ==> m.typeNames[i] != m.typeNames[j])
      && (m.schemaDefinition.Some? <==> exists i :: 0 <= i < |doc| && doc[i].SchemaDef?)
  {
    var c := Classify(doc).value;
    ClassifyContents(doc);
    assert ParsedTypes(c.nodes, c.keys).Success?;
    ParseSchemaRecords(c.nodes, c.keys);
  }

  /**
   * On success every entry `op: T` of the schema definition is bound as
   * `{operation: op, field: T}`, and `T` has a record.
   */
  lemma BuildModelRootBindings(doc: seq<Definition>, i: nat, j: nat)
    requires BuildModel(doc).Success?
    requires i < |doc| && doc[i].SchemaDef? && j < |doc[i].operationTypes|
    ensures var m := BuildModel(doc).value;
      var entry := doc[i].operationTypes[j];
      && m.schemaDefinition.Some?
      && entry.operation in m.schemaDefinition.value
      && m.schemaDefinition.value[entry.operation] == OperationBinding(entry.operation, entry.typeName)
      && entry.typeName in m.types
  {
    var c := Classify(doc).value;
    var ops := doc[i].operationTypes;
    ClassifyContents(doc);
    assert c.schemaDef == Some(ops);
    var bindings := ResolveOperations(ops, c.nodes.Keys).value;
    ParseSchemaRecords(c.nodes, c.keys);
    assert bindings[ops[j].operation].field in c.nodes.Keys;
  }
}
