/**
 * The type model builder `parseSchema` of lib/schemaParser.js: a first pass
 * that builds one record per node of the type map, and a second pass that
 * back-links every implementing type into the records of the interfaces it
 * declares.
 */
module TypeModel {
  import opened Wrappers
  import opened Ast
  import opened Errors
  import opened FieldResolution

  /** The descriptor of one field. */
  datatype FieldRecord = FieldRecord(name: string, arguments: seq<ArgumentRecord>, isDeprecated: bool, info: TypeInfo)

  /**
   * The record of one type. `implementedTypes` starts as the declared
   * interfaces and, on an interface, receives the implementing types.
   */
  datatype TypeRecord = TypeRecord(
    kind: TypeKind,
    description: Option<string>,
    fields: seq<FieldRecord>,
    values: seq<string>,
    types: seq<string>,
    implementedTypes: seq<string>)

  /**
   * The properties every JavaScript object inherits from Object.prototype.
   * Looking one of them up in the record object yields a value whose `type`
   * is undefined rather than undefined itself.
   */
  const ObjectPrototypeNames: set<string> := {
    "constructor", "hasOwnProperty", "isPrototypeOf", "propertyIsEnumerable",
    "toLocaleString", "toString", "valueOf", "__defineGetter__", "__defineSetter__",
    "__lookupGetter__", "__lookupSetter__", "__proto__"
  }

  /** Looking `name` up in the records yields something whose `type` can be read. */
  predicate Resolves(records: map<string, TypeRecord>, name: string)
  {
    name in records || name in ObjectPrototypeNames
  }

  // ---------------------------------------------------------------------
  // First pass: one record per node.
  // ---------------------------------------------------------------------

  /** The descriptor of one field definition. */
  function ParseField(field: FieldDefinition): (r: FieldRecord)
    ensures r.name == field.name
    ensures r.info == Resolved(field.typeRef)
    ensures r.isDeprecated <==> Directive("deprecated") in field.directives
    ensures r.arguments == FindArguments(field.arguments)
  {
    FieldRecord(field.name, FindArguments(field.arguments), ValidateIfDeprecated(field.directives),
                FindType(field.typeRef, Fresh, false))
  }

  /** The field descriptors of a field list, one per definition and in order. */
  function FieldRecords(defs: seq<FieldDefinition>): seq<FieldRecord>
  {
    seq(|defs|, i requires 0 <= i < |defs| => ParseField(defs[i]))
  }

  /** The `forEach` that pushes one descriptor per field definition. */
  method ParseFieldList(defs: seq<FieldDefinition>) returns (fields: seq<FieldRecord>)
    ensures |fields| == |defs|
    ensures forall i :: 0 <= i < |defs| ==> fields[i] == ParseField(defs[i])
  {
    fields := [];
    var i := 0;
    while i < |defs|
      invariant 0 <= i <= |defs|
      invariant |fields| == i
      invariant forall j :: 0 <= j < i ==> fields[j] == ParseField(defs[j])
    {
      fields := fields + [ParseField(defs[i])];
      i := i + 1;
    }
  }

  /**
   * The record of the node stored under `key`. A field list is resolved; only
   * without one are enum values kept, and only without those union members;
   * declared interfaces are kept in any case. A field list that starts with
   * `undefined` throws when its first element's name is read.
   */
  function ParseType(key: string, node: TypeNode): (r: Result<TypeRecord, Error>)
    ensures r.Failure? <==> node.fields.UndefinedThen?
    ensures r.Failure? ==> r.error == FieldOfUndefined(key)
    ensures r.Success? ==> r.value.kind == node.kind && r.value.description == node.description
    ensures r.Success? ==> |r.value.fields| == |Elements(node.fields)|
    ensures r.Success? ==>
      forall i :: 0 <= i < |r.value.fields| ==> r.value.fields[i] == ParseField(Elements(node.fields)[i])
    ensures r.Success? && node.fields.FieldDefs? ==> r.value.values == [] && r.value.types == []
    ensures r.Success? && node.fields.NoFields? ==>
      r.value.values == (if node.values.Some? then node.values.value else [])
    ensures r.Success? && node.fields.NoFields? ==>
      r.value.types == (if node.values.None? && node.types.Some? then node.types.value else [])
    ensures r.Success? ==> r.value.implementedTypes == if node.interfaces.Some? then node.interfaces.value else []
  {
    var empty := TypeRecord(node.kind, node.description, [], [], [], []);
    match node.fields
    case UndefinedThen(_) => Failure(FieldOfUndefined(key))
    case FieldDefs(defs) => Success(WithInterfaces(empty.(fields := FieldRecords(defs)), node))
    case NoFields =>
      if node.values.Some? then Success(WithInterfaces(empty.(values := node.values.value), node))
      else if node.types.Some? then Success(WithInterfaces(empty.(types := node.types.value), node))
      else Success(WithInterfaces(empty, node))
  }

  function WithInterfaces(rec: TypeRecord, node: TypeNode): TypeRecord
  {
    if node.interfaces.Some? then rec.(implementedTypes := node.interfaces.value) else rec
  }

  /**
   * The first pass over `keys`, adding to `acc`: it stops at the first node
   * that fails, and otherwise stores each node's record under its key.
   */
  function ParseTypes(acc: map<string, TypeRecord>, nodes: map<string, TypeNode>, keys: seq<string>)
    : (r: Result<map<string, TypeRecord>, Error>)
    requires forall k :: k in keys ==> k in nodes
    ensures r.Success? <==> forall k :: k in keys ==> !nodes[k].fields.UndefinedThen?
    ensures r.Failure? ==> exists k :: k in keys && ParseType(k, nodes[k]) == Failure(r.error)
    ensures r.Failure? ==> exists j ::
      && 0 <= j < |keys| && r.error == FieldOfUndefined(keys[j])
      && forall m :: 0 <= m < j ==> !nodes[keys[m]].fields.UndefinedThen?
    ensures r.Success? ==> forall k :: k in r.value <==> k in acc || k in keys
    ensures r.Success? ==> forall k :: k in keys ==> ParseType(k, nodes[k]) == Success(r.value[k])
    ensures r.Success? ==> forall k :: k in acc && k !in keys ==> r.value[k] == acc[k]
    decreases |keys|
  {
    if keys == [] then Success(acc)
    else
      match ParseType(keys[0], nodes[keys[0]])
      case Failure(e) => Failure(e)
      case Success(rec) => ParseTypes(acc[keys[0] := rec], nodes, keys[1..])
  }

  // ---------------------------------------------------------------------
  // Second pass: interface back-linking.
  // ---------------------------------------------------------------------

  /**
   * `after` differs from `before` only in the `implementedTypes` lists, each
   * of which keeps its old contents as a prefix and gains only names from
   * `added`; records that are not interfaces are untouched.
   */
  ghost predicate Grows(before: map<string, TypeRecord>, after: map<string, TypeRecord>, added: set<string>)
  {
    && before.Keys == after.Keys
    && forall n :: n in before ==>
      && after[n] == before[n].(implementedTypes := after[n].implementedTypes)
      && before[n].implementedTypes <= after[n].implementedTypes
      && (before[n].kind != InterfaceTypeDefinition ==> after[n] == before[n])
      && forall x :: x in after[n].implementedTypes[|before[n].implementedTypes|..] ==> x in added
  }

  lemma GrowsReflexive(records: map<string, TypeRecord>, added: set<string>)
    ensures Grows(records, records, added)
  {
    forall n | n in records
      ensures records[n].implementedTypes[|records[n].implementedTypes|..] == []
    {
    }
  }

  lemma {:induction false} GrowsTransitive(a: map<string, TypeRecord>, b: map<string, TypeRecord>, c: map<string, TypeRecord>,
                        s: set<string>, t: set<string>)
    requires Grows(a, b, s) && Grows(b, c, t)
    ensures Grows(a, c, s + t)
  {
    forall n | n in a
      ensures forall x :: x in c[n].implementedTypes[|a[n].implementedTypes|..] ==> x in s + t
    {
      var la, lb, lc := a[n].implementedTypes, b[n].implementedTypes, c[n].implementedTypes;
      assert lc[|la|..] == lb[|la|..] + lc[|lb|..] by {
        assert lb == lc[..|lb|];
      }
    }
  }

  /** One copy of `key` for each occurrence of `name` in `names`. */
  function Occurrences(names: seq<string>, name: string, key: string): (r: seq<string>)
    ensures forall x :: x in r ==> x == key
    ensures r != [] <==> name in names
    decreases |names|
  {
    if names == [] then []
    else
      assert forall n :: n in names <==> n == names[0] || n in names[1..];
      (if names[0] == name then [key] else []) + Occurrences(names[1..], name, key)
  }

  /**
   * The inner `forEach` for the type `key`: every name of `names` that has an
   * interface record gets `key` appended to that record's list (once per
   * occurrence); a name that does not resolve throws. The list is read once,
   * so names appended meanwhile are not visited.
   */
  function LinkImplementor(records: map<string, TypeRecord>, key: string, names: seq<string>)
    : (r: Result<map<string, TypeRecord>, Error>)
    ensures r.Success? <==> forall n :: n in names ==> Resolves(records, n)
    ensures r.Failure? ==> exists n :: n in names && !Resolves(records, n) && r.error == UndefinedInterface(n)
    ensures r.Success? ==> Grows(records, r.value, {key})
    ensures r.Success? ==>
      forall n :: n in names && n in records && records[n].kind == InterfaceTypeDefinition ==>
        key in r.value[n].implementedTypes
    decreases |names|
  {
    if names == [] then
      GrowsReflexive(records, {key});
      Success(records)
    else
      var name := names[0];
      assert forall n :: n in names <==> n == name || n in names[1..];
      if name in records then
        if records[name].kind == InterfaceTypeDefinition then
          var linked := records[name := records[name].(implementedTypes := records[name].implementedTypes + [key])];
          assert Grows(records, linked, {key}) by {
            var l := records[name].implementedTypes;
            assert (l + [key])[|l|..] == [key];
            assert l <= l + [key];
          }
          assert linked.Keys == records.Keys;
          match LinkImplementor(linked, key, names[1..])
          case Failure(e) => Failure(e)
          case Success(after) =>
            GrowsTransitive(records, linked, after, {key}, {key});
            assert key in linked[name].implementedTypes;
            Success(after)
        else LinkImplementor(records, key, names[1..])
      else if name in ObjectPrototypeNames then LinkImplementor(records, key, names[1..])
      else
        assert name in names;
        Failure(UndefinedInterface(name))
  }

  /** What a record becomes when the inner `forEach` for `key` runs over `names`. */
  function Linked(rec: TypeRecord, n: string, key: string, names: seq<string>): TypeRecord
  {
    if rec.kind == InterfaceTypeDefinition
    then rec.(implementedTypes := rec.implementedTypes + Occurrences(names, n, key))
    else rec
  }

  /**
   * Exactly what the inner `forEach` changes: each interface record gains one
   * `key` per occurrence of its name in `names`, and every other record,
   * including those of names outside `names`, stays as it was.
   */
  lemma {:induction false} LinkImplementorEffect(records: map<string, TypeRecord>, key: string, names: seq<string>, n: string)
    requires LinkImplementor(records, key, names).Success?
    requires n in records
    ensures LinkImplementor(records, key, names).value[n] == Linked(records[n], n, key, names)
    decreases |names|
  {
    if names == [] {
      assert records[n].implementedTypes + [] == records[n].implementedTypes;
    } else {
      var name := names[0];
      var after := LinkImplementor(records, key, names).value;
      var rest := Occurrences(names[1..], n, key);
      if name in records && records[name].kind == InterfaceTypeDefinition {
        var linked := records[name := records[name].(implementedTypes := records[name].implementedTypes + [key])];
        assert LinkImplementor(linked, key, names[1..]) == Success(after);
        LinkImplementorEffect(linked, key, names[1..], n);
        if n == name {
          assert Occurrences(names, n, key) == [key] + rest;
          assert records[n].implementedTypes + [key] + rest == records[n].implementedTypes + ([key] + rest);
        } else {
          assert Occurrences(names, n, key) == rest;
        }
      } else {
        assert LinkImplementor(records, key, names[1..]) == Success(after);
        LinkImplementorEffect(records, key, names[1..], n);
        assert records[n].kind == InterfaceTypeDefinition ==> Occurrences(names, n, key) == rest;
      }
    }
  }

  /** The inner `forEach` over a list that names no record's key changes no record. */
  lemma LinkImplementorLeavesOthers(records: map<string, TypeRecord>, key: string, names: seq<string>, n: string)
    requires LinkImplementor(records, key, names).Success?
    requires n in records && n !in names
    ensures LinkImplementor(records, key, names).value[n] == records[n]
  {
    LinkImplementorEffect(records, key, names, n);
    assert Occurrences(names, n, key) == [];
    assert records[n].implementedTypes + [] == records[n].implementedTypes;
  }

  /**
   * The outer loop over `keys`: each type's current list is read when its
   * turn comes, so it may already hold names appended for earlier keys.
   */
  function BackLink(records: map<string, TypeRecord>, keys: seq<string>): (r: Result<map<string, TypeRecord>, Error>)
    requires forall k :: k in keys ==> k in records
    ensures r.Success? ==> Grows(records, r.value, set k | k in keys)
    decreases |keys|
  {
    if keys == [] then
      GrowsReflexive(records, {});
      Success(records)
    else
      match LinkImplementor(records, keys[0], records[keys[0]].implementedTypes)
      case Failure(e) => Failure(e)
      case Success(linked) =>
        match BackLink(linked, keys[1..])
        case Failure(e) => Failure(e)
        case Success(after) =>
          GrowsTransitive(records, linked, after, {keys[0]}, set k | k in keys[1..]);
          assert (set k | k in keys) == {keys[0]} + set k | k in keys[1..] by {
            assert keys == [keys[0]] + keys[1..];
          }
          Success(after)
  }

  /** Both passes of `parseSchema` over the nodes stored under `keys`, in that order. */
  function ParsedTypes(nodes: map<string, TypeNode>, keys: seq<string>): Result<map<string, TypeRecord>, Error>
    requires forall k :: k in keys ==> k in nodes
  {
    match ParseTypes(map[], nodes, keys)
    case Failure(e) => Failure(e)
    case Success(records) => BackLink(records, keys)
  }

  /** The interface names a node declares. */
  function DeclaredInterfaces(node: TypeNode): seq<string>
  {
    if node.interfaces.Some? then node.interfaces.value else []
  }

  /** `parseSchema`: the record-building loop, then the back-linking loop. */
  method ParseSchema(nodes: map<string, TypeNode>, keys: seq<string>) returns (r: Result<map<string, TypeRecord>, Error>)
    requires forall k :: k in keys ==> k in nodes
    ensures r == ParsedTypes(nodes, keys)
  {
    var built := BuildRecords(nodes, keys);
    if built.Failure? {
      return Failure(built.error);
    }
    r := LinkInterfaces(built.value, keys);
  }

  /** The first loop of `parseSchema`: one record per key, in key order. */
  method BuildRecords(nodes: map<string, TypeNode>, keys: seq<string>) returns (r: Result<map<string, TypeRecord>, Error>)
    requires forall k :: k in keys ==> k in nodes
    ensures r == ParseTypes(map[], nodes, keys)
  {
    var parsedTypes: map<string, TypeRecord> := map[];
    var i := 0;
    while i < |keys|
      invariant 0 <= i <= |keys|
      invariant ParseTypes(parsedTypes, nodes, keys[i..]) == ParseTypes(map[], nodes, keys)
    {
      var key := keys[i];
      var node := nodes[key];
      var parsedType := TypeRecord(node.kind, node.description, [], [], [], []);
      match node.fields {
        case UndefinedThen(_) =>
          return Failure(FieldOfUndefined(key));
        case FieldDefs(defs) =>
          var fields := ParseFieldList(defs);
          assert fields == FieldRecords(defs);
          parsedType := parsedType.(fields := fields);
        case NoFields =>
          if node.values.Some? {
            parsedType := parsedType.(values := node.values.value);
          } else if node.types.Some? {
            parsedType := parsedType.(types := node.types.value);
          }
      }
      if node.interfaces.Some? {
        parsedType := parsedType.(implementedTypes := node.interfaces.value);
      }
      assert ParseType(key, node) == Success(parsedType);
      assert keys[i..][1..] == keys[i + 1..];
      parsedTypes := parsedTypes[key := parsedType];
      i := i + 1;
    }
    return Success(parsedTypes);
  }

  /** The second loop of `parseSchema`: back-link each key into the interfaces it lists. */
  method LinkInterfaces(records: map<string, TypeRecord>, keys: seq<string>) returns (r: Result<map<string, TypeRecord>, Error>)
    requires forall k :: k in keys ==> k in records
    ensures r == BackLink(records, keys)
  {
    var parsedTypes := records;
    var j := 0;
    while j < |keys|
      invariant 0 <= j <= |keys|
      invariant parsedTypes.Keys == records.Keys
      invariant BackLink(parsedTypes, keys[j..]) == BackLink(records, keys)
    {
      var key := keys[j];
      var implementedTypes := parsedTypes[key].implementedTypes;
      ghost var before := parsedTypes;
      assert keys[j..][1..] == keys[j + 1..];
      var t := 0;
      while t < |implementedTypes|
        invariant 0 <= t <= |implementedTypes|
        invariant parsedTypes.Keys == before.Keys
        invariant LinkImplementor(parsedTypes, key, implementedTypes[t..])
               == LinkImplementor(before, key, implementedTypes)
      {
        var implementedType := implementedTypes[t];
        assert implementedTypes[t..][1..] == implementedTypes[t + 1..];
        if implementedType in parsedTypes {
          if parsedTypes[implementedType].kind == InterfaceTypeDefinition {
            var linked := parsedTypes[implementedType].implementedTypes + [key];
            parsedTypes := parsedTypes[implementedType := parsedTypes[implementedType].(implementedTypes := linked)];
          }
        } else if implementedType !in ObjectPrototypeNames {
          return Failure(UndefinedInterface(implementedType));
        }
        t := t + 1;
      }
      j := j + 1;
    }
    return Success(parsedTypes);
  }

  // ---------------------------------------------------------------------
  // What the two passes guarantee.
  // ---------------------------------------------------------------------

  /** Every name of `names` resolves in `records`. */
  predicate AllResolve(records: map<string, TypeRecord>, names: seq<string>)
  {
    forall n :: n in names ==> Resolves(records, n)
  }

  lemma GrowsKeepsResolution(before: map<string, TypeRecord>, after: map<string, TypeRecord>, added: set<string>, k: string)
    requires Grows(before, after, added) && added <= before.Keys && k in before
    ensures AllResolve(after, after[k].implementedTypes) <==> AllResolve(before, before[k].implementedTypes)
  {
    var l, l' := before[k].implementedTypes, after[k].implementedTypes;
    assert l' == l + l'[|l|..];
    assert forall n :: n in l' <==> n in l || n in l'[|l|..];
    assert forall n :: n in l'[|l|..] ==> n in before;
    assert forall n :: Resolves(after, n) <==> Resolves(before, n);
  }

  /** The back-link pass throws exactly when some type declares a name that does not resolve. */
  lemma {:induction false} BackLinkSucceedsIff(records: map<string, TypeRecord>, keys: seq<string>)
    requires forall k :: k in keys ==> k in records
    ensures BackLink(records, keys).Success?
        <==> forall k :: k in keys ==> AllResolve(records, records[k].implementedTypes)
  {
    if keys != [] {
      var k0 := keys[0];
      assert forall k :: k in keys <==> k == k0 || k in keys[1..];
      match LinkImplementor(records, k0, records[k0].implementedTypes)
      case Failure(e) =>
      case Success(linked) =>
        BackLinkSucceedsIff(linked, keys[1..]);
        forall k | k in keys[1..]
          ensures AllResolve(linked, linked[k].implementedTypes) <==> AllResolve(records, records[k].implementedTypes)
        {
          GrowsKeepsResolution(records, linked, {k0}, k);
        }
    }
  }

  /**
   * After the back-link pass, every type `k` that declares an interface `i`
   * whose record is an interface appears in `i`'s list.
   */
  lemma {:induction false} BackLinkComplete(records: map<string, TypeRecord>, keys: seq<string>, k: string, i: string)
    requires forall k :: k in keys ==> k in records
    requires BackLink(records, keys).Success?
    requires k in keys && i in records[k].implementedTypes
    requires i in records && records[i].kind == InterfaceTypeDefinition
    ensures k in BackLink(records, keys).value[i].implementedTypes
  {
    var k0 := keys[0];
    var linked := LinkImplementor(records, k0, records[k0].implementedTypes).value;
    var after := BackLink(records, keys).value;
    assert BackLink(linked, keys[1..]) == Success(after);
    if k == k0 {
      assert k in linked[i].implementedTypes;
      assert linked[i].implementedTypes <= after[i].implementedTypes;
    } else {
      assert k in keys[1..];
      assert records[k].implementedTypes <= linked[k].implementedTypes;
      BackLinkComplete(linked, keys[1..], k, i);
    }
  }

  /**
   * Every name the back-link pass has appended to a list in `cur` is
   * justified by the first-pass records `base`: the list belongs to an
   * interface `i`, and the appended type `x` either declares `i`, or is itself
   * an interface that `i` declares (whose list already held `i` when `x`'s
   * turn came).
   */
  ghost predicate LinkedSoundly(base: map<string, TypeRecord>, cur: map<string, TypeRecord>)
  {
    forall i, x ::
      && i in base && i in cur
      && |base[i].implementedTypes| <= |cur[i].implementedTypes|
      && x in cur[i].implementedTypes[|base[i].implementedTypes|..]
      ==> Justified(base, i, x)
  }

  /** `x` may appear in the grown part of `i`'s list. */
  ghost predicate Justified(base: map<string, TypeRecord>, i: string, x: string)
    requires i in base
  {
    && x in base
    && base[i].kind == InterfaceTypeDefinition
    && (i in base[x].implementedTypes || (base[x].kind == InterfaceTypeDefinition && x in base[i].implementedTypes))
  }

  /** A name appended to an interface's list by the inner `forEach` for `k` is justified. */
  lemma AppendedByLinkSound(base: map<string, TypeRecord>, cur: map<string, TypeRecord>, k: string, i: string, x: string)
    requires LinkedSoundly(base, cur)
    requires i in base && i in cur && k in base && k in cur
    requires base[i].implementedTypes <= cur[i].implementedTypes
    requires base[k].implementedTypes <= cur[k].implementedTypes
    requires base[i].kind == InterfaceTypeDefinition
    requires x in (cur[i].implementedTypes + Occurrences(cur[k].implementedTypes, i, k))[|base[i].implementedTypes|..]
    ensures && x in base
            && (i in base[x].implementedTypes
                || (base[x].kind == InterfaceTypeDefinition && x in base[i].implementedTypes))
  {
    var b := |base[i].implementedTypes|;
    var names := cur[k].implementedTypes;
    assert (cur[i].implementedTypes + Occurrences(names, i, k))[b..] == cur[i].implementedTypes[b..] + Occurrences(names, i, k);
    if x !in cur[i].implementedTypes[b..] {
      assert x == k && i in names;
      var bk := base[k].implementedTypes;
      assert names == bk + names[|bk|..];
      if i !in bk {
        assert i in names[|bk|..];
      }
    }
  }

  /** The record of `i` after the inner `forEach` for `k` holds only justified names beyond the first pass's. */
  lemma LinkedRecordSound(base: map<string, TypeRecord>, cur: map<string, TypeRecord>, k: string, i: string, x: string)
    requires LinkedSoundly(base, cur)
    requires i in base && i in cur && k in base && k in cur
    requires base[i].implementedTypes <= cur[i].implementedTypes
    requires base[k].implementedTypes <= cur[k].implementedTypes
    requires base[i].kind == cur[i].kind
    requires var rec := Linked(cur[i], i, k, cur[k].implementedTypes);
      |base[i].implementedTypes| <= |rec.implementedTypes| && x in rec.implementedTypes[|base[i].implementedTypes|..]
    ensures && x in base
            && base[i].kind == InterfaceTypeDefinition
            && (i in base[x].implementedTypes
                || (base[x].kind == InterfaceTypeDefinition && x in base[i].implementedTypes))
  {
    if cur[i].kind == InterfaceTypeDefinition {
      AppendedByLinkSound(base, cur, k, i, x);
    }
  }

  /**
   * One run of the inner `forEach` for `k` keeps every appended name
   * justified; `linked` is its result, record by record.
   */
  lemma LinkStepSound(base: map<string, TypeRecord>, cur: map<string, TypeRecord>, k: string,
                      linked: map<string, TypeRecord>)
    requires LinkedSoundly(base, cur) && k in cur && base.Keys == cur.Keys
    requires forall i :: i in base ==>
      base[i].implementedTypes <= cur[i].implementedTypes && base[i].kind == cur[i].kind
    requires linked.Keys == cur.Keys
    requires forall i :: i in cur ==> linked[i] == Linked(cur[i], i, k, cur[k].implementedTypes)
    ensures LinkedSoundly(base, linked)
  {
    forall i, x |
      && i in base && i in linked
      && |base[i].implementedTypes| <= |linked[i].implementedTypes|
      && x in linked[i].implementedTypes[|base[i].implementedTypes|..]
      ensures Justified(base, i, x)
    {
      LinkedRecordSound(base, cur, k, i, x);
    }
  }

  /** The whole back-link pass keeps every appended name justified. */
  lemma {:induction false} BackLinkSoundFrom(base: map<string, TypeRecord>, cur: map<string, TypeRecord>,
                                             added: set<string>, keys: seq<string>)
    requires Grows(base, cur, added) && LinkedSoundly(base, cur)
    requires forall k :: k in keys ==> k in cur
    requires BackLink(cur, keys).Success?
    ensures LinkedSoundly(base, BackLink(cur, keys).value)
    decreases |keys|
  {
    if keys != [] {
      var k := keys[0];
      var linked := LinkImplementor(cur, k, cur[k].implementedTypes).value;
      forall i | i in cur
        ensures linked[i] == Linked(cur[i], i, k, cur[k].implementedTypes)
      {
        LinkImplementorEffect(cur, k, cur[k].implementedTypes, i);
      }
      LinkStepSound(base, cur, k, linked);
      GrowsTransitive(base, cur, linked, added, {k});
      assert BackLink(cur, keys) == BackLink(linked, keys[1..]);
      BackLinkSoundFrom(base, linked, added + {k}, keys[1..]);
    }
  }

  /**
   * After `parseSchema`, a type appears in the grown part of a list only if
   * the list is an interface's and the type implements that interface, or
   * the type is itself an interface that the list's owner implements. The
   * second case is the order-dependent one: with `interface J implements I`
   * registered before `interface I`, `I`'s list already holds `J` when `I`'s
   * turn comes, so `I` is appended to `J`'s own list.
   */
  lemma ParseSchemaSound(nodes: map<string, TypeNode>, keys: seq<string>)
    requires forall k :: k in keys ==> k in nodes
    requires ParsedTypes(nodes, keys).Success?
    ensures var records := ParsedTypes(nodes, keys).value;
      forall i :: i in keys ==> i in records && DeclaredInterfaces(nodes[i]) <= records[i].implementedTypes
    ensures var records := ParsedTypes(nodes, keys).value;
      forall i, x ::
        && i in keys && i in records
        && |DeclaredInterfaces(nodes[i])| <= |records[i].implementedTypes|
        && x in records[i].implementedTypes[|DeclaredInterfaces(nodes[i])|..]
        ==> && x in keys
            && nodes[i].kind == InterfaceTypeDefinition
            && (i in DeclaredInterfaces(nodes[x])
                || (nodes[x].kind == InterfaceTypeDefinition && x in DeclaredInterfaces(nodes[i])))
  {
    var first := ParseTypes(map[], nodes, keys).value;
    var records := ParsedTypes(nodes, keys).value;
    assert BackLink(first, keys) == Success(records);
    BackLinkSound(first, keys);
    forall i | i in keys
      ensures i in records && DeclaredInterfaces(nodes[i]) <= records[i].implementedTypes
    {
      assert ParseType(i, nodes[i]) == Success(first[i]);
    }
    forall i, x |
      && i in keys && i in records
      && |DeclaredInterfaces(nodes[i])| <= |records[i].implementedTypes|
      && x in records[i].implementedTypes[|DeclaredInterfaces(nodes[i])|..]
      ensures && x in keys
              && nodes[i].kind == InterfaceTypeDefinition
              && (i in DeclaredInterfaces(nodes[x])
                  || (nodes[x].kind == InterfaceTypeDefinition && x in DeclaredInterfaces(nodes[i])))
    {
      assert ParseType(i, nodes[i]) == Success(first[i]);
      assert Justified(first, i, x);
      assert ParseType(x, nodes[x]) == Success(first[x]);
    }
  }


  /** The whole back-link pass appends only justified names. */
  lemma BackLinkSound(records: map<string, TypeRecord>, keys: seq<string>)
    requires forall k :: k in keys ==> k in records
    requires BackLink(records, keys).Success?
    ensures LinkedSoundly(records, BackLink(records, keys).value)
  {
    GrowsReflexive(records, {});
    BackLinkSoundFrom(records, records, {}, keys);
  }

  /**
   * `parseSchema` throws exactly when some node's field list starts with
   * `undefined`, or some type declares an interface name that is neither a
   * key nor an Object.prototype property.
   */
  lemma ParseSchemaSucceedsIff(nodes: map<string, TypeNode>, keys: seq<string>)
    requires forall k :: k in keys ==> k in nodes
    ensures ParsedTypes(nodes, keys).Success?
        <==> && (forall k :: k in keys ==> !nodes[k].fields.UndefinedThen?)
             && (forall k :: k in keys ==>
                   forall n :: n in DeclaredInterfaces(nodes[k]) ==> n in keys || n in ObjectPrototypeNames)
  {
    var first := ParseTypes(map[], nodes, keys);
    if first.Success? {
      BackLinkSucceedsIff(first.value, keys);
      forall k | k in keys
        ensures AllResolve(first.value, first.value[k].implementedTypes)
            <==> forall n :: n in DeclaredInterfaces(nodes[k]) ==> n in keys || n in ObjectPrototypeNames
      {
        assert ParseType(k, nodes[k]) == Success(first.value[k]);
      }
    }
  }

  /**
   * On success there is exactly one record per key; each is the record of
   * its node except that an interface's list may have grown, keeping the
   * declared names first and gaining only type names; and every declared
   * interface lists every type that declares it.
   */
  lemma ParseSchemaRecords(nodes: map<string, TypeNode>, keys: seq<string>)
    requires forall k :: k in keys ==> k in nodes
    requires ParsedTypes(nodes, keys).Success?
    ensures var records := ParsedTypes(nodes, keys).value;
      && (forall k :: k in records <==> k in keys)
      && (forall k :: k in keys ==>
            && ParseType(k, nodes[k]).Success?
            && var parsed := ParseType(k, nodes[k]).value;
            && records[k] == parsed.(implementedTypes := records[k].implementedTypes)
            && parsed.implementedTypes <= records[k].implementedTypes
            && (nodes[k].kind != InterfaceTypeDefinition ==> records[k] == parsed)
            && forall x :: x in records[k].implementedTypes[|parsed.implementedTypes|..] ==> x in keys)
      && (forall k, i ::
            k in keys && i in keys && nodes[i].kind == InterfaceTypeDefinition && i in DeclaredInterfaces(nodes[k])
            ==> k in records[i].implementedTypes)
  {
    var first := ParseTypes(map[], nodes, keys).value;
    var records := ParsedTypes(nodes, keys).value;
    assert BackLink(first, keys) == Success(records);
    forall k, i | k in keys && i in keys && nodes[i].kind == InterfaceTypeDefinition && i in DeclaredInterfaces(nodes[k])
      ensures k in records[i].implementedTypes
    {
      assert ParseType(k, nodes[k]) == Success(first[k]);
      assert ParseType(i, nodes[i]) == Success(first[i]);
      BackLinkComplete(first, keys, k, i);
    }
  }

  /**
   * The back-link pass depends on key order. With `interface J implements I`
   * registered before `interface I`, `J`'s list ends as `["I", "I"]`; the
   * other way round it ends as `["I"]`.
   */
  lemma InterfaceOrderExample()
    ensures var j := TypeNode(InterfaceTypeDefinition, "J", None, FieldDefs([]), None, None, Some(["I"]));
      var i := TypeNode(InterfaceTypeDefinition, "I", None, FieldDefs([]), None, None, None);
      var nodes := map["J" := j, "I" := i];
      && ParsedTypes(nodes, ["J", "I"]).Success?
      && ParsedTypes(nodes, ["J", "I"]).value["J"].implementedTypes == ["I", "I"]
      && ParsedTypes(nodes, ["J", "I"]).value["I"].implementedTypes == ["J"]
      && ParsedTypes(nodes, ["I", "J"]).Success?
      && ParsedTypes(nodes, ["I", "J"]).value["J"].implementedTypes == ["I"]
      && ParsedTypes(nodes, ["I", "J"]).value["I"].implementedTypes == ["J"]
  {
    var j := TypeNode(InterfaceTypeDefinition, "J", None, FieldDefs([]), None, None, Some(["I"]));
    var i := TypeNode(InterfaceTypeDefinition, "I", None, FieldDefs([]), None, None, None);
    var nodes := map["J" := j, "I" := i];
    var rj := TypeRecord(InterfaceTypeDefinition, None, [], [], [], ["I"]);
    var ri := TypeRecord(InterfaceTypeDefinition, None, [], [], [], []);
    assert ParseType("J", j) == Success(rj);
    assert ParseType("I", i) == Success(ri);
    var first := map["J" := rj, "I" := ri];
    assert ParseTypes(map[], nodes, ["J", "I"]) == Success(first) by {
      assert ["J", "I"][1..] == ["I"] && ["I"][1..] == [];
      assert ParseTypes(map["J" := rj], nodes, ["I"]) == ParseTypes(first, nodes, []);
    }
    assert ParseTypes(map[], nodes, ["I", "J"]) == Success(first) by {
      assert ["I", "J"][1..] == ["J"] && ["J"][1..] == [];
      assert map["I" := ri]["J" := rj] == first;
      assert ParseTypes(map["I" := ri], nodes, ["J"]) == ParseTypes(first, nodes, []);
    }
    // Key order J, I: J links itself into I; then I, whose list now holds J, links itself into J.
    var a1 := first["I" := ri.(implementedTypes := ["J"])];
    assert LinkImplementor(first, "J", ["I"]) == Success(a1) by {
      assert ["I"][1..] == [];
      assert first["I"].implementedTypes + ["J"] == ["J"];
      assert LinkImplementor(a1, "J", []) == Success(a1);
    }
    var a2 := a1["J" := rj.(implementedTypes := ["I", "I"])];
    assert LinkImplementor(a1, "I", ["J"]) == Success(a2) by {
      assert ["J"][1..] == [];
      assert a1["J"].implementedTypes + ["I"] == ["I", "I"];
      assert LinkImplementor(a2, "I", []) == Success(a2);
    }
    assert BackLink(first, ["J", "I"]) == Success(a2) by {
      assert ["J", "I"][1..] == ["I"] && ["I"][1..] == [];
      assert BackLink(a1, ["I"]) == BackLink(a2, []);
    }
    // Key order I, J: I's list is still empty at its turn; J then links itself into I.
    assert LinkImplementor(first, "I", []) == Success(first);
    assert BackLink(first, ["I", "J"]) == Success(a1) by {
      assert ["I", "J"][1..] == ["J"] && ["J"][1..] == [];
      assert BackLink(first, ["J"]) == BackLink(a1, []);
    }
  }
}
