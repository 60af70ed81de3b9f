# easygraphql-parser schema builder, modelled in Dafny

easygraphql-parser turns a GraphQL schema document (SDL) into a plain
object. That object has one record per named type, plus an optional
`schemaDefinition` entry binding the root operations (query, mutation,
subscription) to their types. This project models the part that works on
the parsed document in `lib/schemaParser.js`:

- `schemaBuilder` classifies the document's definitions in order. It keeps
  the single schema definition and registers every type definition by name.
  An object type extension has its fields appended to its base type. It also
  collects directive definitions. Two errors are thrown: a second schema
  definition, and a type defined twice.
- `parseSchema` runs two passes over the registered types. The first turns
  each node into a record:
  - its kind and description;
  - its fields, enum values or union members, in that order of precedence;
  - the interfaces it implements.

  The second visits the types in key order. It appends each type to the
  `implementedTypes` list of every interface in that type's list as it
  stands when its turn comes.
- `findType`, `findArguments` and `validateIfDeprecated` flatten a field's
  or argument's type reference into a name and three flags, and detect the
  `@deprecated` directive.
- `getOperationTypes` binds each root operation of the schema definition.
  It throws on a repeated operation and on a root type the document does not
  define.

The files are:

- `wrappers.dfy`: Option and Result.
- `ast.dfy`: the parsed document.
- `errors.dfy`: the errors and their messages.
- `field_resolution.dfy`: findType, findArguments and validateIfDeprecated.
- `type_model.dfy`: parseSchema.
- `operation_resolver.dfy`: getOperationTypes.
- `schema_builder.dfy`: schemaBuilder.

Each loop of the source is a Dafny `method` with its loop invariants. Each
method is proved equal to a specification function, and the lemmas state
the properties of those functions. The source has no object whose fields
change across calls, so there are no classes. The maps the loops fill are
local `map` values, each paired with a `seq` of keys that keeps JavaScript's
key insertion order.

Four behaviours of the code are modelled as the code has them:

- **Extending a type that has no field list.** Extending a scalar, enum or
  union with `extend type` makes `[].concat(undefined, fields)` produce a
  list whose first element is `undefined`. parseSchema then throws a
  TypeError while reading `field.name` (`FieldList.UndefinedThen`,
  `Error.FieldOfUndefined`).
- **An extension that comes before its base.** The extension is registered
  as the type itself, with kind `ObjectTypeExtension`. A later definition of
  that name then throws "defined more than once".
- **An implemented interface that the document does not define.** The
  back-link pass throws a TypeError (`Error.UndefinedInterface`), so such a
  schema is not accepted silently. There is one exception. `parsedTypes`
  is an ordinary object, so a name inherited from `Object.prototype`, such
  as `constructor` or `toString`, reads a value whose `type` is undefined,
  and that name is skipped (`TypeModel.ObjectPrototypeNames`).
- **An interface that implements an interface.** The back-link pass reads
  each type's list when that type's turn comes, and the list may already
  have grown. Take `interface J implements I` registered before
  `interface I`. When `I`'s turn comes, its list already holds `J`, so `I`
  is appended to `J`'s list, which ends as `["I", "I"]`. In the other order
  it ends as `["I"]` (`TypeModel.InterfaceOrderExample`).

## Model

| member | source | states |
|---|---|---|
| FieldResolution.FindType | lib/schemaParser.js:84-110 | The type name is the innermost named type. `noNull` is set only by a non-null wrapper at the outermost level. `isArray` holds iff a list wrapper occurs at any depth. `noNullArrayValues` holds iff a non-null wrapper occurs inside a list wrapper. An accumulator coming from an outer call keeps the flags it already has. |
| FieldResolution.ValidateIfDeprecated | lib/schemaParser.js:136-142 | True iff some directive is named `deprecated`, and false for an empty list. |
| FieldResolution.FindArguments | lib/schemaParser.js:117-129 | A missing argument list gives `[]`. Otherwise there is one record per argument, in order, with the argument's name, the resolved type of its type reference, and `isDeprecated` iff it carries `@deprecated`. |
| FieldResolution.FindTypeExamples | test/gqlSchemaDefinition.js:43-44 | `ID!` resolves to `ID` with `noNull` set, and `String` to `String` with no flag set, as the SDL test expects. |
| FieldResolution.FindTypeListExamples | test/gqlSchemaDefinitionJSON.js:65-69 | `[ID!]!` resolves to `ID` with all three flags set and `[String]!` to `String` with `noNull` and `isArray`, as the test of the code-built `User` type expects. An extra example not taken from the tests: `[[Int!]]` resolves to `Int` with `isArray` and `noNullArrayValues`. |
| TypeModel.ParseField | lib/schemaParser.js:160-169 | A field record holds the field's name, its resolved type, `isDeprecated` iff it carries `@deprecated`, and exactly `findArguments` of its argument list: one record per argument with its name, resolved type and deprecation flag. |
| TypeModel.ParseFieldList | lib/schemaParser.js:158-171 | The `forEach` over the fields yields one record per field definition, in order, each equal to that field's record. |
| TypeModel.ParseType | lib/schemaParser.js:146-184 | The record copies the node's kind and description. A field list (even an empty one) gives the field records and empty `values` and `types`. Without one, `values` holds the enum values if present, else `[]`, and `types` holds the union members only when there are no enum values, else `[]`. `implementedTypes` holds the declared interfaces, or is empty. The record fails with the reading-`name` TypeError exactly when the field list has an `undefined` element. |
| TypeModel.ParseTypes | lib/schemaParser.js:146-187 | The first pass succeeds iff no node's field list has an `undefined` element. On failure the error is that of the first such key in key order. On success there is one record per key, equal to that node's record, and entries present before are kept. |
| TypeModel.BuildRecords | lib/schemaParser.js:146-187 | The first loop computes exactly the first pass over the keys in insertion order. |
| TypeModel.LinkImplementor | lib/schemaParser.js:194-198 | Succeeds iff every listed name has a record or is an `Object.prototype` name. On failure it throws the reading-`type` TypeError for an unresolved listed name. On success the key is appended to every listed interface, and each list only grows, keeping its old contents as a prefix. |
| TypeModel.LinkImplementorEffect | lib/schemaParser.js:194-198 | Exactly what the inner `forEach` changes. An interface's list gains one copy of the key per occurrence of its name in the list being visited. Every other record stays as it was. |
| TypeModel.LinkImplementorLeavesOthers | lib/schemaParser.js:194-198 | A record whose name is not in the visited list is unchanged. |
| TypeModel.GrowsReflexive | lib/schemaParser.js:189-200 | Leaving the records unchanged counts as growth. |
| TypeModel.GrowsTransitive | lib/schemaParser.js:189-200 | Growth of the `implementedTypes` lists composes across successive back-link steps. |
| TypeModel.BackLink | lib/schemaParser.js:189-200 | The back-link pass keeps the same keys. It leaves every non-interface record unchanged, and only appends type names to the lists of interfaces. |
| TypeModel.LinkInterfaces | lib/schemaParser.js:189-200 | The nested loops compute exactly the back-link pass, reading each key's current list. |
| TypeModel.ParseSchema | lib/schemaParser.js:144-203 | `parseSchema` computes exactly the first pass followed by the back-link pass. |
| TypeModel.GrowsKeepsResolution | lib/schemaParser.js:194-198 | When the lists grow only by registered names, whether every name in a type's list resolves is unchanged. |
| TypeModel.BackLinkSucceedsIff | lib/schemaParser.js:189-200 | The back-link pass succeeds iff every key's declared list resolves. |
| TypeModel.BackLinkComplete | lib/schemaParser.js:192-198 | After the back-link pass, every type listed as implementing a defined interface appears in that interface's `implementedTypes`. |
| TypeModel.AppendedByLinkSound | lib/schemaParser.js:190-198 | A name the inner `forEach` for `k` appends to an interface `i`'s list is justified: either `k` declares `i`, or `k` is an interface that `i` declares. |
| TypeModel.LinkedRecordSound | lib/schemaParser.js:190-198 | After one inner `forEach`, every name beyond a record's first-pass list is justified, and the record is an interface's. |
| TypeModel.LinkStepSound | lib/schemaParser.js:190-198 | One iteration of the outer loop keeps every appended name justified. |
| TypeModel.BackLinkSoundFrom | lib/schemaParser.js:190-199 | The rest of the outer loop keeps every appended name justified. |
| TypeModel.BackLinkSound | lib/schemaParser.js:189-200 | After the back-link pass, only interfaces' lists have grown. Every appended type either declares that interface, or is itself an interface that this interface declares. Nothing else is ever appended. |
| TypeModel.ParseSchemaSucceedsIff | lib/schemaParser.js:144-203 | `parseSchema` succeeds iff no field list has an `undefined` element and every implemented interface is a registered type or an `Object.prototype` name. |
| TypeModel.ParseSchemaRecords | lib/schemaParser.js:144-203 | There is one record per registered type. Each equals its node's record except for `implementedTypes`, which starts with the declared interfaces and gains only type names, and changes only for interfaces. Each interface lists every type that declares it. |
| TypeModel.ParseSchemaSound | lib/schemaParser.js:144-203 | After `parseSchema`, a type's list starts with its declared interfaces. A name beyond them is a registered type and the list is an interface's. That name either declares the interface, or is an interface the list's owner declares. |
| TypeModel.InterfaceOrderExample | lib/schemaParser.js:189-200 | With `interface J implements I` before `interface I`, `J`'s list ends as `["I", "I"]` and `I`'s as `["J"]`. In the other key order, `J`'s list is `["I"]`. |
| OperationResolver.ResolveOperations | lib/schemaParser.js:9-25 | On success the bindings have exactly the schema's operations as keys. Each binding is `{operation, field: typeName}` for its entry, and every field is a defined type. |
| OperationResolver.GetOperationTypes | lib/schemaParser.js:6-28 | `getOperationTypes` computes `parseSchema` and then the bindings, in that order of failure. |
| OperationResolver.ResolveFailurePersists | lib/schemaParser.js:9-25 | The first error thrown in the `forEach` is the result of the whole resolution. |
| OperationResolver.ResolveSucceedsIff | lib/schemaParser.js:13-18 | Resolution succeeds iff the operations are distinct and every root type is defined. |
| OperationResolver.RepeatedOperationFails | lib/schemaParser.js:13-15 | After an error-free prefix, a repeated operation throws "Must provide only one … type in schema." |
| OperationResolver.UnknownRootTypeFails | lib/schemaParser.js:16-18 | After an error-free prefix, a first occurrence whose type is undefined throws "Specified … type … not found in document." |
| Errors.MessageIdentifiesError | lib/schemaParser.js:13-53 | The four validation messages are distinct and each determines its error, including the operation and the type name. |
| Errors.TestSuiteMessages | test/gqlSchemaDefinition.js:112-160 | The messages for a second schema definition, the duplicated type `School`, a second `query` entry and a `query` bound to the undefined type `Query` are the exact strings the test suite expects. |
| Errors.DuplicateTypeMessageInjective | lib/schemaParser.js:52-53 | The "defined more than once" message determines the type name. |
| Errors.NotFoundMessageInjective | lib/schemaParser.js:16-17 | The "not found in document" message determines the operation and the type name. |
| DocumentClassifier.ConcatFields | lib/schemaParser.js:58-60 | Merging an extension yields the base's fields followed by the extension's. The result has a leading `undefined` iff the base had no field list or already started with `undefined`. |
| DocumentClassifier.StepFacts | lib/schemaParser.js:36-69 | One iteration throws only on a second schema definition or an already registered type name. Otherwise it keeps the map well formed, records a schema definition's entries and registers the name the definition declares. |
| DocumentClassifier.StepStores | lib/schemaParser.js:36-69 | A type definition is stored as written under its name, and its name appended to the keys. A directive definition appends its name to the directives. Definitions that neither define nor extend a type leave the map and the keys unchanged. |
| DocumentClassifier.DefinitionStored | lib/schemaParser.js:52-62 | After an error-free pass, a type definition that no later extension of its name follows is the entry for its name, unchanged. |
| DocumentClassifier.Classify | lib/schemaParser.js:30-70 | After an error-free prefix, the keys are distinct, the map holds exactly the keys, and each entry sits under its own name. |
| DocumentClassifier.ClassifyContents | lib/schemaParser.js:30-70 | After an error-free pass, the schema definition is kept iff the document has one, and it is that one. The map holds exactly the names the document defines or extends. |
| DocumentClassifier.ClassifyFailurePersists | lib/schemaParser.js:35-70 | The first error of the loop is the result for the whole document. |
| DocumentClassifier.ClassifySucceedsIff | lib/schemaParser.js:38-56 | Classification succeeds iff no two schema definitions exist and no type definition reuses a name defined or extended earlier. |
| DocumentClassifier.SecondSchemaFails | lib/schemaParser.js:39-42 | After an error-free prefix, a second schema definition throws "Must provide only one schema definition." |
| DocumentClassifier.DuplicateTypeFails | lib/schemaParser.js:45-54 | After an error-free prefix, a type definition whose name is already registered throws "Type … was defined more than once." |
| DocumentClassifier.ExtensionMerges | lib/schemaParser.js:57-63 | An object type extension never throws. With a base, the base's field list becomes exactly `[].concat(base fields, extension fields)`, and nothing else changes. Without one, the extension becomes the entry for its name, appended to the keys. |
| DocumentClassifier.ClassifyPrefixSucceeds | lib/schemaParser.js:35-70 | Every prefix of a document that classifies without error also classifies without error. |
| DocumentClassifier.ClassifyNext | lib/schemaParser.js:35-70 | Each iteration of the loop is one step from the state left by the previous ones. |
| DocumentClassifier.StepKeepsFieldless | lib/schemaParser.js:45-63 | A registered type without a field list never gains one in an iteration. After an extension, its list starts with `undefined`. |
| DocumentClassifier.FieldlessStaysFieldless | lib/schemaParser.js:35-70 | Through the rest of the document, a registered type without a field list keeps lacking one. Once extended, its list starts with `undefined`. |
| DocumentClassifier.ExtendingFieldlessTypeFails | lib/schemaParser.js:57-60 | If a type defined without a field list is later extended, the builder throws the reading-`name` TypeError (raised at line 162), with or without a schema definition. |
| DocumentClassifier.SchemaBuilder | lib/schemaParser.js:30-76 | `schemaBuilder` computes exactly the classification, then `getOperationTypes` when a schema definition exists and `parseSchema` otherwise. |
| DocumentClassifier.BuildModelTypes | lib/schemaParser.js:30-76 | On success there is one record per name the document defines or extends, each listed once. `schemaDefinition` is present iff the document has a schema definition. |
| DocumentClassifier.BuildModelRootBindings | lib/schemaParser.js:20-27 | On success each schema entry `op: T` is bound as `{operation: op, field: T}`, and `T` has a record. |

## Left out

- `schemaParser` (lib/schemaParser.js:205-222) is left out. It converts arrays, `GraphQLSchema` objects, AST documents and introspection JSON to SDL and calls graphql-js `parse`, all of which is foreign code. The model starts from the parsed document (`Ast.Definition`).
- Directive definitions are collected only as names. The source pushes whole nodes and never reads them.
- A type named `__proto__` is left out. In `parsedTypes` it would replace the object's prototype rather than add a key.
- A type named `schemaDefinition` is left out. `Object.assign` would let its record overwrite the root bindings.
- The constant `type: 'OperationTypeDefinition'` tag of each root binding is not stored.
- The TypeErrors are modelled with the messages of current Node.js versions ("Cannot read properties of undefined …"). The exact text depends on the engine.
- A description is an optional string. The AST's description node (with its `block` flag) is reduced to its value.
- Enum values, union members and interfaces are reduced to their names, which is all the source reads from them.
- Field and argument records keep the resolved type as a nested `TypeInfo` rather than spreading its four properties into the record.
- Default values and source locations are not read by the source and are not modelled.
