/**
 OpenAPI mutations: single operations with their incremental reference check, batches with the full one, and the closure
 of local references both preserve.
 */
module OpenApiMutations {
  import opened Wrappers
  import opened Effects
  import opened OpenApiDocs

  type DocEffect = Effect<Payload, DocMeta>

  /** `parsed` is what the document parser made of the pushed source. */
  datatype OpenApiOp =
    | PushDocument(parsed: Option<Doc>)
    | AddPath(pattern: string, summary: string, description: string)
    | RemovePath(pattern: string)
    | AddOperation(pattern: string, httpMethod: string, operationId: string, summary: string, description: string)
    | RemoveOperation(pattern: string, httpMethod: string)
    | AddComponentSchema(name: string, schemaType: string, description: string)
    | RemoveComponentSchema(name: string)

  // ----- closure -----

  /** Every reference of the declaration is well formed, and a local one names a declaration in `keys`. */
  predicate ResolvesIn(p: Payload, keys: set<string>) {
    forall i :: 0 <= i < |Slots(p)| ==>
      && Resolve(Slots(p)[i]).Some?
      && (!Resolve(Slots(p)[i]).value.external ==> Resolve(Slots(p)[i]).value.name in keys)
  }

  /** All local references of the document resolve inside it. */
  predicate Closed(d: Doc) {
    forall n :: n in d.decls ==> ResolvesIn(d.decls[n], d.decls.Keys)
  }

  predicate WellFormed(p: Payload) {
    forall i :: 0 <= i < |Slots(p)| ==> Resolve(Slots(p)[i]).Some?
  }

  /** Some slot is a local reference to the declaration `key`. */
  predicate RefersTo(p: Payload, key: string) {
    exists i :: 0 <= i < |Slots(p)| && Resolve(Slots(p)[i]) == Some(TypeRef(key, false))
  }

  // ----- the same, said of where references stand and what they name -----

  /** Every reference standing in the declaration names something. */
  ghost predicate Legible(p: Payload) {
    forall s :: Stands(p, s) ==> exists key :: NamesInside(s, key) || NamesOutside(s, key)
  }

  /** A reference standing in the declaration names the declaration `key` of the same file. */
  ghost predicate Refers(p: Payload, key: string) { exists s :: Stands(p, s) && NamesInside(s, key) }

  /** Every reference in the document names another file's declaration or one the document has. */
  ghost predicate Sealed(d: Doc) {
    forall n, s :: n in d.decls && Stands(d.decls[n], s) ==>
      exists key :: NamesOutside(s, key) || (NamesInside(s, key) && key in d.decls)
  }

  lemma SlotMeans(s: Slot, keys: set<string>)
    ensures Resolve(s).Some? <==> exists key :: NamesInside(s, key) || NamesOutside(s, key)
    ensures Resolve(s).Some? && (!Resolve(s).value.external ==> Resolve(s).value.name in keys) <==>
            exists key :: NamesOutside(s, key) || (NamesInside(s, key) && key in keys)
  {
    forall key ensures Resolve(s) == Some(TypeRef(key, false)) <==> NamesInside(s, key)
      ensures Resolve(s) == Some(TypeRef(key, true)) <==> NamesOutside(s, key)
    {
      ResolveExactly(s, key);
    }
    if Resolve(s).Some? {
      var key := Resolve(s).value.name;
      assert NamesInside(s, key) || NamesOutside(s, key);
    }
  }

  lemma WellFormedExactly(p: Payload)
    ensures WellFormed(p) <==> Legible(p)
  {
    forall s ensures (s in Slots(p) <==> Stands(p, s))
      ensures Resolve(s).Some? <==> exists key :: NamesInside(s, key) || NamesOutside(s, key)
    {
      PayloadWalk(p, s);
      SlotMeans(s, {});
    }
    assert WellFormed(p) <==> forall s :: s in Slots(p) ==> Resolve(s).Some?;
  }

  lemma RefersExactly(p: Payload, key: string)
    ensures RefersTo(p, key) <==> Refers(p, key)
  {
    forall s ensures (s in Slots(p) <==> Stands(p, s))
      ensures Resolve(s) == Some(TypeRef(key, false)) <==> NamesInside(s, key)
    {
      PayloadWalk(p, s);
      ResolveExactly(s, key);
    }
    assert RefersTo(p, key) <==> exists s :: s in Slots(p) && Resolve(s) == Some(TypeRef(key, false));
  }

  lemma ResolvesExactly(p: Payload, keys: set<string>)
    ensures ResolvesIn(p, keys) <==>
            forall s :: Stands(p, s) ==> exists key :: NamesOutside(s, key) || (NamesInside(s, key) && key in keys)
  {
    forall s ensures (s in Slots(p) <==> Stands(p, s))
      ensures Resolve(s).Some? && (!Resolve(s).value.external ==> Resolve(s).value.name in keys) <==>
              exists key :: NamesOutside(s, key) || (NamesInside(s, key) && key in keys)
    {
      PayloadWalk(p, s);
      SlotMeans(s, keys);
    }
    assert ResolvesIn(p, keys) <==>
           forall s :: s in Slots(p) ==>
             Resolve(s).Some? && (!Resolve(s).value.external ==> Resolve(s).value.name in keys);
  }

  /** A document is closed exactly when it is sealed. */
  lemma ClosedExactly(d: Doc)
    ensures Closed(d) <==> Sealed(d)
  {
    forall n | n in d.decls
      ensures ResolvesIn(d.decls[n], d.decls.Keys) <==>
              forall s :: Stands(d.decls[n], s) ==>
                exists key :: NamesOutside(s, key) || (NamesInside(s, key) && key in d.decls)
    {
      ResolvesExactly(d.decls[n], d.decls.Keys);
    }
  }

  // ----- single operations -----

  const NoEffect: DocEffect := Effect(None, map[], {})

  function Upsert(key: string, p: Payload): DocEffect { NoEffect.(upserts := map[key := p]) }

  function Opt(s: string): Option<string> { if s == "" then None else Some(s) }

  function LowerChar(c: char): char {
    if 'A' <= c <= 'Z' then c - 'A' + 'a' else c
  }

  function Lower(s: string): string { seq(|s|, i requires 0 <= i < |s| => LowerChar(s[i])) }

  function ParseMethod(s: string): Option<HttpMethod> {
    var m := Lower(s);
    if m == "get" then Some(Get) else if m == "post" then Some(Post) else if m == "put" then Some(Put)
    else if m == "delete" then Some(Delete) else if m == "patch" then Some(Patch_) else if m == "head" then Some(Head)
    else if m == "options" then Some(Options) else if m == "trace" then Some(Trace) else None
  }

  function ParseJsonType(s: string): Option<JsonType> {
    if s == "string" then Some(JString) else if s == "integer" then Some(JInteger)
    else if s == "number" then Some(JNumber) else if s == "boolean" then Some(JBoolean)
    else if s == "array" then Some(JArray) else if s == "object" then Some(JObject)
    else if s == "null" then Some(JNull) else None
  }

  function PathKey(pattern: string): string { "path:" + pattern }
  function SchemaKey(name: string): string { "schema:" + name }

  function LoadPathItem(d: Doc, key: string): Result<PathItem, MutationError> {
    if key !in d.decls then Failure(DeclarationNotFound(key))
    else if !d.decls[key].PathDecl? then Failure(InvalidOperation)
    else Success(d.decls[key].path)
  }

  function Without(ops: seq<Operation>, m: HttpMethod): (r: seq<Operation>)
    ensures |r| <= |ops|
  {
    if ops == [] then []
    else if ops[0].httpMethod == m then Without(ops[1..], m)
    else [ops[0]] + Without(ops[1..], m)
  }

  function AddOperationTo(p: PathItem, op: OpenApiOp): Result<PathItem, MutationError>
    requires op.AddOperation?
  {
    var m := ParseMethod(op.httpMethod);
    if m.None? then Failure(InvalidOperation)
    else if exists i :: 0 <= i < |p.operations| && p.operations[i].httpMethod == m.value then Failure(InvalidOperation)
    else
      var added := Operation(m.value, Opt(op.operationId), Opt(op.summary), Opt(op.description), [], None, []);
      Success(p.(operations := p.operations + [added]))
  }

  function RemoveOperationFrom(p: PathItem, op: OpenApiOp): Result<PathItem, MutationError>
    requires op.RemoveOperation?
  {
    var m := ParseMethod(op.httpMethod);
    if m.None? || |Without(p.operations, m.value)| == |p.operations| then Failure(InvalidOperation)
    else Success(p.(operations := Without(p.operations, m.value)))
  }

  function BareSchema(types: seq<JsonType>, description: Option<string>): SchemaDef {
    SchemaDef(types, description, [], [], None, [], [], [], [], None, None)
  }

  /** What an operation does when the reference check is left to the end of the batch. */
  function Deferred(d: Doc, op: OpenApiOp): Result<DocEffect, MutationError> {
    match op
    case PushDocument(parsed) =>
      if parsed.None? then Failure(InvalidOperation)
      else Success(Effect(Some(parsed.value.meta), parsed.value.decls, d.decls.Keys - parsed.value.decls.Keys))
    case AddPath(pattern, summary, description) =>
      if PathKey(pattern) in d.decls then Failure(InvalidOperation)
      else Success(Upsert(PathKey(pattern), PathDecl(PathItem(pattern, Opt(summary), Opt(description), [], []))))
    case RemovePath(pattern) =>
      if PathKey(pattern) !in d.decls then Failure(DeclarationNotFound(PathKey(pattern)))
      else Success(NoEffect.(removes := {PathKey(pattern)}))
    case AddOperation(pattern, _, _, _, _) =>
      var path :- LoadPathItem(d, PathKey(pattern));
      var edited :- AddOperationTo(path, op);
      Success(Upsert(PathKey(pattern), PathDecl(edited)))
    case RemoveOperation(pattern, _) =>
      var path :- LoadPathItem(d, PathKey(pattern));
      var edited :- RemoveOperationFrom(path, op);
      Success(Upsert(PathKey(pattern), PathDecl(edited)))
    case AddComponentSchema(name, schemaType, description) =>
      if SchemaKey(name) in d.decls then Failure(InvalidOperation)
      else if schemaType != "" && ParseJsonType(schemaType).None? then Failure(InvalidOperation)
      else
        var types := if schemaType == "" then [] else [ParseJsonType(schemaType).value];
        Success(Upsert(SchemaKey(name), SchemaDecl(name, Some(BareSchema(types, Opt(description))))))
    case RemoveComponentSchema(name) =>
      if SchemaKey(name) !in d.decls then Failure(DeclarationNotFound(SchemaKey(name)))
      else if exists n :: n in d.decls && n != SchemaKey(name) && !WellFormed(d.decls[n]) then Failure(MalformedBlob)
      else Success(NoEffect.(removes := {SchemaKey(name)}))
  }

  /** The incremental check a single operation adds. */
  predicate Intact(d: Doc, op: OpenApiOp) {
    match op
    case PushDocument(parsed) => parsed.Some? ==> Closed(parsed.value)
    case RemoveComponentSchema(name) =>
      forall n :: n in d.decls && n != SchemaKey(name) ==> !RefersTo(d.decls[n], SchemaKey(name))
    case _ => true
  }

  function Referrers(d: Doc, target: string): set<string> {
    set n | n in d.decls && n != target && RefersTo(d.decls[n], target)
  }

  /** `declarations_referencing`: who refers to `target`, or an error for a malformed declaration. */
  method DeclarationsReferencing(d: Doc, target: string) returns (r: Result<set<string>, MutationError>)
    ensures r == if exists n :: n in d.decls && n != target && !WellFormed(d.decls[n]) then Failure(MalformedBlob)
                 else Success(Referrers(d, target))
    ensures r.Success? <==> forall n :: n in d.decls && n != target ==> Legible(d.decls[n])
    ensures r.Success? ==> forall n :: n in r.value <==> n in d.decls && n != target && Refers(d.decls[n], target)
  {
    forall n | n in d.decls
      ensures WellFormed(d.decls[n]) <==> Legible(d.decls[n])
      ensures RefersTo(d.decls[n], target) <==> Refers(d.decls[n], target)
    {
      WellFormedExactly(d.decls[n]);
      RefersExactly(d.decls[n], target);
    }
    var references: set<string> := {};
    var todo := d.decls.Keys;
    while todo != {}
      invariant todo <= d.decls.Keys
      invariant forall n :: n in d.decls && n !in todo && n != target ==> WellFormed(d.decls[n])
      invariant references == Referrers(d, target) - todo
      decreases todo
    {
      var name :| name in todo;
      todo := todo - {name};
      if name != target {
        var refs := TypeRefsOf(d.decls[name]);
        if refs.None? {
          return Failure(MalformedBlob);
        }
        var refers := exists i :: 0 <= i < |refs.value| && !refs.value[i].external && refs.value[i].name == target;
        assert refers <==> RefersTo(d.decls[name], target);
        if refers {
          references := references + {name};
        }
      }
    }
    assert references == Referrers(d, target);
    return Success(references);
  }

  /** `validate_schema_references`: accepts exactly the sealed documents. */
  method ValidateSchemaReferences(d: Doc) returns (r: Result<(), MutationError>)
    ensures r.Success? <==> Closed(d)
    ensures r.Success? <==> Sealed(d)
  {
    ClosedExactly(d);
    var todo := d.decls.Keys;
    while todo != {}
      invariant todo <= d.decls.Keys
      invariant forall n :: n in d.decls && n !in todo ==> ResolvesIn(d.decls[n], d.decls.Keys)
      decreases todo
    {
      var name :| name in todo;
      todo := todo - {name};
      var refs := TypeRefsOf(d.decls[name]);
      if refs.None? {
        return Failure(MalformedBlob);
      }
      var missing := exists i :: 0 <= i < |refs.value| && !refs.value[i].external && refs.value[i].name !in d.decls;
      assert missing <==> !ResolvesIn(d.decls[name], d.decls.Keys);
      if missing {
        return Failure(InvalidOperation);
      }
    }
    return Success(());
  }

  /** `apply_one`. */
  method ApplyOne(d: Doc, op: OpenApiOp, defer: bool) returns (r: Result<DocEffect, MutationError>)
    ensures defer || Deferred(d, op).Failure? ==> r == Deferred(d, op)
    ensures r.Success? <==> Deferred(d, op).Success? && (defer || Intact(d, op))
    ensures r.Success? ==> r == Deferred(d, op)
    ensures op.RemoveComponentSchema? && !defer ==>
              (r.Success? <==>
               && "schema:" + op.name in d.decls
               && forall n :: n in d.decls && n != "schema:" + op.name ==>
                    Legible(d.decls[n]) && !Refers(d.decls[n], "schema:" + op.name))
    ensures op.PushDocument? && !defer ==> (r.Success? <==> op.parsed.Some? && Sealed(op.parsed.value))
  {
    if op.RemoveComponentSchema? {
      var key := SchemaKey(op.name);
      if key !in d.decls {
        return Failure(DeclarationNotFound(key));
      }
      var references := DeclarationsReferencing(d, key);
      if references.Failure? {
        return Failure(references.error);
      }
      if !defer && references.value != {} {
        ghost var n :| n in references.value;
        assert !Intact(d, op);
        return Failure(InvalidOperation);
      }
      assert Referrers(d, key) == {} ==> Intact(d, op) by {
        forall n | n in d.decls && n != key && RefersTo(d.decls[n], key) ensures n in Referrers(d, key) {}
      }
    } else if op.PushDocument? && op.parsed.Some? && !defer {
      var checked := ValidateSchemaReferences(op.parsed.value);
      if checked.Failure? {
        return Failure(checked.error);
      }
    }
    r := Deferred(d, op);
  }

  // ----- batches -----

  /** A later effect on top of an earlier net one. */
  function Compose(net: DocEffect, e: DocEffect): DocEffect {
    Effect(if e.meta.Some? then e.meta else net.meta,
           (net.upserts + e.upserts) - e.removes,
           (net.removes - e.upserts.Keys) + e.removes)
  }

  predicate Disjoint(e: DocEffect) { e.upserts.Keys !! e.removes }

  lemma EffectsAreDisjoint(d: Doc, op: OpenApiOp)
    requires Deferred(d, op).Success?
    ensures Disjoint(Deferred(d, op).value)
  {}

  lemma ComposePatches(base: Doc, net: DocEffect, e: DocEffect)
    requires Disjoint(net) && Disjoint(e)
    ensures Disjoint(Compose(net, e)) && Patch(base, Compose(net, e)) == Patch(Patch(base, net), e)
  {
    assert Patch(base, Compose(net, e)).decls == Patch(Patch(base, net), e).decls;
  }

  /** A run of operations with their checks deferred: where it ends and its net effect. */
  function Run(d: Doc, net: DocEffect, ops: seq<OpenApiOp>): Result<(Doc, DocEffect), MutationError>
    decreases |ops|
  {
    if ops == [] then Success((d, net))
    else
      var e :- Deferred(d, ops[0]);
      Run(Patch(d, e), Compose(net, e), ops[1..])
  }

  /** The upserts of one effect, folded into the working copy and the net effect one by one. */
  method FoldUpserts(decls: map<string, Payload>, net: DocEffect, more: map<string, Payload>)
    returns (decls': map<string, Payload>, net': DocEffect)
    ensures decls' == decls + more
    ensures net' == net.(upserts := net.upserts + more, removes := net.removes - more.Keys)
  {
    var upserts, removes := net.upserts, net.removes;
    decls' := decls;
    var todo := more.Keys;
    while todo != {}
      invariant todo <= more.Keys
      invariant decls' == decls + (more - todo)
      invariant upserts == net.upserts + (more - todo)
      invariant removes == net.removes - (more.Keys - todo)
      decreases todo
    {
      var name :| name in todo;
      decls' := decls'[name := more[name]];
      removes := removes - {name};
      upserts := upserts[name := more[name]];
      todo := todo - {name};
    }
    assert more - {} == more;
    net' := net.(upserts := upserts, removes := removes);
  }

  method FoldRemoves(decls: map<string, Payload>, net: DocEffect, names: set<string>)
    returns (decls': map<string, Payload>, net': DocEffect)
    ensures decls' == decls - names
    ensures net' == net.(upserts := net.upserts - names, removes := net.removes + names)
  {
    var upserts, removes := net.upserts, net.removes;
    decls' := decls;
    var todo := names;
    while todo != {}
      invariant todo <= names
      invariant decls' == decls - (names - todo)
      invariant upserts == net.upserts - (names - todo)
      invariant removes == net.removes + (names - todo)
      decreases todo
    {
      var name :| name in todo;
      decls' := decls' - {name};
      upserts := upserts - {name};
      removes := removes + {name};
      todo := todo - {name};
    }
    assert names - {} == names;
    net' := net.(upserts := upserts, removes := removes);
  }

  method FoldEffect(working: Doc, net: DocEffect, e: DocEffect) returns (working': Doc, net': DocEffect)
    requires Disjoint(e)
    ensures working' == Patch(working, e) && net' == Compose(net, e)
  {
    var decls;
    decls, net' := FoldUpserts(working.decls, net, e.upserts);
    decls, net' := FoldRemoves(decls, net', e.removes);
    working' := Schema(decls, working.meta);
    if e.meta.Some? {
      working' := working'.(meta := e.meta.value);
      net' := net'.(meta := e.meta);
    }
    assert working'.decls == Patch(working, e).decls;
  }

  /** `apply_mutations`: accepted exactly when the deferred run succeeds and ends in a sealed document. */
  method ApplyMutations(d: Doc, ops: seq<OpenApiOp>) returns (r: Result<DocEffect, MutationError>)
    ensures match Run(d, NoEffect, ops)
            case Failure(e) => r == Failure(e)
            case Success((final, net)) =>
              && (r.Success? <==> Sealed(final))
              && (r.Success? ==> r.value == net && Patch(d, net) == final && Disjoint(net))
  {
    var working, net := d, NoEffect;
    var i := 0;
    assert Patch(d, NoEffect).decls == d.decls;
    while i < |ops|
      invariant 0 <= i <= |ops|
      invariant Run(d, NoEffect, ops) == Run(working, net, ops[i..])
      invariant Patch(d, net) == working && Disjoint(net)
    {
      assert ops[i..][1..] == ops[i + 1..];
      var effect := ApplyOne(working, ops[i], true);
      if effect.Failure? {
        return Failure(effect.error);
      }
      EffectsAreDisjoint(working, ops[i]);
      ComposePatches(d, net, effect.value);
      working, net := FoldEffect(working, net, effect.value);
      i := i + 1;
    }
    var checked := ValidateSchemaReferences(working);
    if checked.Failure? {
      return Failure(checked.error);
    }
    return Success(net);
  }

  // ----- the incremental check is the full one -----

  /** No reference names a path. */
  lemma NeverAPath(s: Slot, pattern: string)
    ensures Resolve(s).Some? ==> Resolve(s).value.name != PathKey(pattern)
  {
    if Resolve(s).Some? {
      var name := Resolve(s).value.name;
      assert PathKey(pattern)[0] == 'p' && PathKey(pattern)[2] == 't';
      match s
      case SchemaSlot(_) => assert name[0] == 's';
      case NamedSlot(_, Parameters) => assert name[2] == 'r';
      case NamedSlot(_, RequestBodies) => assert name[0] == 'r';
      case NamedSlot(_, Responses) => assert name[0] == 'r';
    }
  }

  /** A document stays closed when keys only grow and every changed declaration resolves. */
  lemma StaysClosed(d: Doc, next: Doc)
    requires Closed(d)
    requires d.decls.Keys <= next.decls.Keys
    requires forall n :: n in next.decls ==>
               (n in d.decls && next.decls[n] == d.decls[n]) || ResolvesIn(next.decls[n], next.decls.Keys)
    ensures Closed(next)
  {}

  lemma {:induction false} OfManyConcat<T>(a: seq<T>, b: seq<T>, f: T -> seq<Slot>)
    ensures OfMany(a + b, f) == OfMany(a, f) + OfMany(b, f)
  {
    if a == [] {
      assert a + b == b;
    } else {
      OfManyConcat(a[1..], b, f);
      assert (a + b)[0] == a[0] && (a + b)[1..] == a[1..] + b;
      assert f(a[0]) + (OfMany(a[1..], f) + OfMany(b, f)) == (f(a[0]) + OfMany(a[1..], f)) + OfMany(b, f);
    }
  }

  /** A bare operation adds no reference. */
  lemma AddedOperationSlots(p: PathItem, op: OpenApiOp)
    requires op.AddOperation? && AddOperationTo(p, op).Success?
    ensures Slots(PathDecl(AddOperationTo(p, op).value)) == Slots(PathDecl(p))
  {
    var added := Operation(ParseMethod(op.httpMethod).value, Opt(op.operationId), Opt(op.summary), Opt(op.description),
                           [], None, []);
    OfManyConcat(p.operations, [added], OfOperation);
    assert OfOperation(added) == [];
    assert OfMany([added], OfOperation) == OfOperation(added) + OfMany([], OfOperation);
  }

  /** Dropping operations only drops references. */
  lemma {:induction false} RemovedOperationSlots(ops: seq<Operation>, m: HttpMethod)
    ensures forall s :: s in OfMany(Without(ops, m), OfOperation) ==> s in OfMany(ops, OfOperation)
  {
    if ops != [] {
      RemovedOperationSlots(ops[1..], m);
    }
  }

  ghost predicate FewerSlots(p: Payload, q: Payload) {
    forall s :: s in Slots(q) ==> s in Slots(p)
  }

  lemma FewerResolve(p: Payload, q: Payload, keys: set<string>)
    requires ResolvesIn(p, keys) && FewerSlots(p, q)
    ensures ResolvesIn(q, keys)
  {
    forall i | 0 <= i < |Slots(q)|
      ensures Resolve(Slots(q)[i]).Some?
      ensures !Resolve(Slots(q)[i]).value.external ==> Resolve(Slots(q)[i]).value.name in keys
    {
      assert Slots(q)[i] in Slots(p);
      var j :| 0 <= j < |Slots(p)| && Slots(p)[j] == Slots(q)[i];
    }
  }

  lemma EditKeepsClosed(d: Doc, op: OpenApiOp)
    requires Closed(d) && (op.AddOperation? || op.RemoveOperation?) && Deferred(d, op).Success?
    ensures Closed(Patch(d, Deferred(d, op).value))
  {
    var key := PathKey(op.pattern);
    var p := d.decls[key].path;
    var q := if op.AddOperation? then AddOperationTo(p, op).value else RemoveOperationFrom(p, op).value;
    if op.AddOperation? {
      AddedOperationSlots(p, op);
    } else {
      RemovedOperationSlots(p.operations, ParseMethod(op.httpMethod).value);
    }
    assert FewerSlots(PathDecl(p), PathDecl(q));
    FewerResolve(PathDecl(p), PathDecl(q), d.decls.Keys);
    StaysClosed(d, Patch(d, Deferred(d, op).value));
  }

  /** Removing a declaration keeps the document closed exactly when nothing else refers to it. */
  lemma RemovalClosed(d: Doc, key: string)
    requires Closed(d)
    ensures Closed(d.(decls := d.decls - {key})) <==>
            forall n :: n in d.decls && n != key ==> !RefersTo(d.decls[n], key)
  {
    var next := d.(decls := d.decls - {key});
    forall n | n in d.decls && n != key
      ensures ResolvesIn(d.decls[n], next.decls.Keys) <==> !RefersTo(d.decls[n], key)
    {
      RemovedResolves(d.decls[n], d.decls.Keys, key);
    }
    assert forall n :: n in next.decls <==> n in d.decls && n != key;
  }

  lemma RemovedResolves(p: Payload, keys: set<string>, key: string)
    requires ResolvesIn(p, keys)
    ensures ResolvesIn(p, keys - {key}) <==> !RefersTo(p, key)
  {}

  lemma RemovedPathUnused(d: Doc, pattern: string)
    ensures forall n :: n in d.decls && n != PathKey(pattern) ==> !RefersTo(d.decls[n], PathKey(pattern))
  {
    forall n, i | n in d.decls && 0 <= i < |Slots(d.decls[n])|
      ensures Resolve(Slots(d.decls[n])[i]) != Some(TypeRef(PathKey(pattern), false))
    {
      NeverAPath(Slots(d.decls[n])[i], pattern);
    }
  }

  lemma AddKeepsClosed(d: Doc, op: OpenApiOp)
    requires Closed(d) && (op.AddPath? || op.AddComponentSchema?) && Deferred(d, op).Success?
    ensures Closed(Patch(d, Deferred(d, op).value))
  {
    var next := Patch(d, Deferred(d, op).value);
    var key := if op.AddPath? then PathKey(op.pattern) else SchemaKey(op.name);
    if op.AddComponentSchema? {
      var types := if op.schemaType == "" then [] else [ParseJsonType(op.schemaType).value];
      assert OfDef(BareSchema(types, Opt(op.description))) == [] by {
        var def := BareSchema(types, Opt(op.description));
        assert OfOption(def.items) == [] && OfProperties(def.properties) == [] && OfSchemas(def.allOf) == [];
      }
    } else {
      assert OfMany([], OfOperation) == [] && OfMany([], OfParameter) == [];
    }
    assert Slots(next.decls[key]) == [];
    StaysClosed(d, next);
  }

  /**
   From a closed document, the check of a single operation accepts exactly when the full check accepts what the
   operation leads to.
   */
  lemma IncrementalIsFull(d: Doc, op: OpenApiOp)
    requires Closed(d) && Deferred(d, op).Success?
    ensures Intact(d, op) <==> Closed(Patch(d, Deferred(d, op).value))
  {
    var next := Patch(d, Deferred(d, op).value);
    match op
    case PushDocument(parsed) =>
      assert next.decls == parsed.value.decls;
    case AddPath(_, _, _) => AddKeepsClosed(d, op);
    case AddComponentSchema(_, _, _) => AddKeepsClosed(d, op);
    case AddOperation(_, _, _, _, _) => EditKeepsClosed(d, op);
    case RemoveOperation(_, _) => EditKeepsClosed(d, op);
    case RemovePath(pattern) =>
      RemovalClosed(d, PathKey(pattern));
      RemovedPathUnused(d, pattern);
      assert next.decls == d.decls - {PathKey(pattern)};
    case RemoveComponentSchema(name) =>
      RemovalClosed(d, SchemaKey(name));
      assert next.decls == d.decls - {SchemaKey(name)};
  }

  /** A single operation and the batch of that one operation: accepted together, with the same effect. */
  lemma SingleIsOneOpBatch(d: Doc, op: OpenApiOp)
    requires Closed(d)
    ensures Deferred(d, op).Failure? ==> Run(d, NoEffect, [op]) == Failure(Deferred(d, op).error)
    ensures Deferred(d, op).Success? ==>
              var e := Deferred(d, op).value;
              Run(d, NoEffect, [op]) == Success((Patch(d, e), e)) && (Intact(d, op) <==> Closed(Patch(d, e)))
  {
    if Deferred(d, op).Success? {
      var e := Deferred(d, op).value;
      IncrementalIsFull(d, op);
      EffectsAreDisjoint(d, op);
      assert [op][1..] == [];
      assert Run(d, NoEffect, [op]) == Run(Patch(d, e), Compose(NoEffect, e), []);
      assert Compose(NoEffect, e).upserts == e.upserts && Compose(NoEffect, e).removes == e.removes;
    }
  }

  /** Operations applied and stored one at a time, each with its own check. */
  function OneByOne(d: Doc, ops: seq<OpenApiOp>): Result<Doc, MutationError>
    decreases |ops|
  {
    if ops == [] then Success(d)
    else
      var e :- Deferred(d, ops[0]);
      if Intact(d, ops[0]) then OneByOne(Patch(d, e), ops[1..]) else Failure(InvalidOperation)
  }

  /**
   From a closed document, operations accepted one at a time are accepted as a batch, end in the same document, and
   keep it closed.
   */
  lemma {:induction false} OneByOneIsBatch(d: Doc, net: DocEffect, ops: seq<OpenApiOp>)
    requires Closed(d) && OneByOne(d, ops).Success?
    ensures Run(d, net, ops).Success? && Run(d, net, ops).value.0 == OneByOne(d, ops).value
    ensures Closed(OneByOne(d, ops).value)
    decreases |ops|
  {
    if ops != [] {
      var e := Deferred(d, ops[0]).value;
      IncrementalIsFull(d, ops[0]);
      OneByOneIsBatch(Patch(d, e), Compose(net, e), ops[1..]);
    }
  }

  // ----- undoing -----

  function Then(d: Doc, a: OpenApiOp, b: OpenApiOp): Result<Doc, MutationError> {
    var e :- Deferred(d, a);
    var next := Patch(d, e);
    var f :- Deferred(next, b);
    Success(Patch(next, f))
  }

  lemma RemoveUndoesAddPath(d: Doc, add: OpenApiOp)
    requires add.AddPath? && Deferred(d, add).Success?
    ensures Then(d, add, RemovePath(add.pattern)) == Success(d)
  {
    var key := PathKey(add.pattern);
    var next := Patch(d, Deferred(d, add).value);
    assert key in next.decls;
    assert Then(d, add, RemovePath(add.pattern)).value.decls == d.decls;
  }

  lemma RemoveUndoesAddSchema(d: Doc, add: OpenApiOp)
    requires add.AddComponentSchema? && Closed(d) && Deferred(d, add).Success?
    ensures Then(d, add, RemoveComponentSchema(add.name)) == Success(d)
  {
    var key := SchemaKey(add.name);
    var next := Patch(d, Deferred(d, add).value);
    forall n | n in next.decls && n != key ensures WellFormed(next.decls[n]) {
      assert ResolvesIn(d.decls[n], d.decls.Keys);
    }
    assert Then(d, add, RemoveComponentSchema(add.name)).value.decls == d.decls;
  }

  lemma {:induction false} WithoutAdded(ops: seq<Operation>, o: Operation)
    requires forall i :: 0 <= i < |ops| ==> ops[i].httpMethod != o.httpMethod
    ensures Without(ops + [o], o.httpMethod) == ops
  {
    if ops == [] {
      assert (ops + [o])[1..] == [];
    } else {
      assert (ops + [o])[0] == ops[0] && (ops + [o])[1..] == ops[1..] + [o];
      WithoutAdded(ops[1..], o);
    }
  }

  /** An added operation is removed again by its method, however either spells it. */
  lemma RemoveUndoesAddOperation(d: Doc, add: OpenApiOp, remove: OpenApiOp)
    requires add.AddOperation? && remove.RemoveOperation? && remove.pattern == add.pattern
    requires ParseMethod(remove.httpMethod) == ParseMethod(add.httpMethod) && Deferred(d, add).Success?
    ensures Then(d, add, remove) == Success(d)
  {
    var key := PathKey(add.pattern);
    var p := d.decls[key].path;
    var q := AddOperationTo(p, add).value;
    WithoutAdded(p.operations, q.operations[|p.operations|]);
    var next := Patch(d, Deferred(d, add).value);
    assert next.decls[key] == PathDecl(q);
    assert RemoveOperationFrom(q, remove) == Success(p);
    assert Then(d, add, remove).value.decls == d.decls;
  }
}
