/**
 An OpenAPI document as a plain table: for every path its operations by method, for every schema its types. What each
 mutation does to the document is one update of the table, and so is every run.
 */
module OpenApiViews {
  import opened Wrappers
  import opened Effects
  import opened OpenApiDocs
  import opened OpenApiMutations

  datatype OperationRow = OperationRow(id: Option<string>, summary: Option<string>, description: Option<string>)

  /** What the table says of one declaration; components other than schemas are kept as they are. */
  datatype Row =
    | PathRow(pattern: string, summary: Option<string>, description: Option<string>,
              operations: map<HttpMethod, OperationRow>)
    | SchemaRow(name: string, types: seq<JsonType>, description: Option<string>)
    | OtherRow(payload: Payload)

  type Table = map<string, Row>

  function OperationRowOf(o: Operation): OperationRow { OperationRow(o.operationId, o.summary, o.description) }

  function ByMethod(ops: seq<Operation>): map<HttpMethod, OperationRow> {
    if ops == [] then map[] else map[ops[0].httpMethod := OperationRowOf(ops[0])] + ByMethod(ops[1..])
  }

  function RowOf(p: Payload): Row {
    match p
    case PathDecl(path) => PathRow(path.pattern, path.summary, path.description, ByMethod(path.operations))
    case SchemaDecl(name, Some(schema)) => SchemaRow(name, schema.types, schema.description)
    case _ => OtherRow(p)
  }

  function TableOf(d: Doc): Table { map n | n in d.decls :: RowOf(d.decls[n]) }

  // ----- the mutations on the table -----

  /** Two words that differ in the case of ASCII letters only. */
  predicate SameWord(a: string, b: string) {
    |a| == |b| && forall i :: 0 <= i < |a| ==> a[i] == b[i] || ('A' <= a[i] <= 'Z' && a[i] as int + 32 == b[i] as int)
  }

  function Word(m: HttpMethod): string {
    match m
    case Get => "get" case Post => "post" case Put => "put" case Delete => "delete"
    case Patch_ => "patch" case Head => "head" case Options => "options" case Trace => "trace"
  }

  function TypeWord(t: JsonType): string {
    match t
    case JString => "string" case JInteger => "integer" case JNumber => "number" case JBoolean => "boolean"
    case JArray => "array" case JObject => "object" case JNull => "null"
  }

  ghost predicate IsText(s: string, o: Option<string>) { if s == "" then o.None? else o == Some(s) }

  ghost predicate IsTypes(s: string, types: seq<JsonType>) {
    if s == "" then types == [] else |types| == 1 && TypeWord(types[0]) == s
  }

  /** The table `u` is `t` with the row at `key` replaced. */
  ghost predicate Sets(t: Table, u: Table, key: string, row: Row) { u == t[key := row] }

  ghost predicate AddsPath(t: Table, key: string, op: OpenApiOp, u: Table)
    requires op.AddPath?
  {
    && key !in t
    && exists s, d ::
         IsText(op.summary, s) && IsText(op.description, d) && Sets(t, u, key, PathRow(op.pattern, s, d, map[]))
  }

  ghost predicate NewOperation(op: OpenApiOp, row: OperationRow)
    requires op.AddOperation?
  {
    IsText(op.operationId, row.id) && IsText(op.summary, row.summary) && IsText(op.description, row.description)
  }

  ghost predicate AddsOperation(t: Table, key: string, op: OpenApiOp, u: Table)
    requires op.AddOperation?
  {
    && key in t && t[key].PathRow?
    && exists m, row ::
         && SameWord(op.httpMethod, Word(m)) && m !in t[key].operations && NewOperation(op, row)
         && Sets(t, u, key, t[key].(operations := t[key].operations[m := row]))
  }

  ghost predicate RemovesOperation(t: Table, key: string, op: OpenApiOp, u: Table)
    requires op.RemoveOperation?
  {
    && key in t && t[key].PathRow?
    && exists m ::
         && SameWord(op.httpMethod, Word(m)) && m in t[key].operations
         && Sets(t, u, key, t[key].(operations := t[key].operations - {m}))
  }

  ghost predicate AddsSchema(t: Table, key: string, op: OpenApiOp, u: Table)
    requires op.AddComponentSchema?
  {
    && key !in t
    && exists types, d ::
         IsTypes(op.schemaType, types) && IsText(op.description, d) && Sets(t, u, key, SchemaRow(op.name, types, d))
  }

  /** One mutation of the table. */
  ghost predicate Moves(t: Table, op: OpenApiOp, u: Table) {
    match op
    case PushDocument(parsed) => parsed.Some? && u == TableOf(parsed.value)
    case AddPath(pattern, _, _) => AddsPath(t, "path:" + pattern, op, u)
    case RemovePath(pattern) => "path:" + pattern in t && u == t - {"path:" + pattern}
    case AddOperation(pattern, _, _, _, _) => AddsOperation(t, "path:" + pattern, op, u)
    case RemoveOperation(pattern, _) => RemovesOperation(t, "path:" + pattern, op, u)
    case AddComponentSchema(name, _, _) => AddsSchema(t, "schema:" + name, op, u)
    case RemoveComponentSchema(name) => "schema:" + name in t && u == t - {"schema:" + name}
  }

  // ----- words -----

  lemma LowerSame(s: string, w: string)
    requires forall i :: 0 <= i < |w| ==> !('A' <= w[i] <= 'Z')
    ensures Lower(s) == w <==> SameWord(s, w)
  {
    if SameWord(s, w) {
      forall i | 0 <= i < |s| ensures Lower(s)[i] == w[i] {
        LowerOne(s[i], w[i]);
      }
    }
    if Lower(s) == w {
      forall i | 0 <= i < |s| ensures s[i] == w[i] || ('A' <= s[i] <= 'Z' && s[i] as int + 32 == w[i] as int) {
        assert Lower(s)[i] == w[i];
        LowerOne(s[i], w[i]);
      }
    }
  }

  lemma LowerOne(c: char, w: char)
    requires !('A' <= w <= 'Z')
    ensures LowerChar(c) == w <==> c == w || ('A' <= c <= 'Z' && c as int + 32 == w as int)
  {}

  lemma WordsAreLower(m: HttpMethod)
    ensures forall i :: 0 <= i < |Word(m)| ==> !('A' <= Word(m)[i] <= 'Z')
  {}

  lemma MethodExactly(s: string, m: HttpMethod)
    ensures ParseMethod(s) == Some(m) <==> SameWord(s, Word(m))
  {
    WordsAreLower(m);
    LowerSame(s, Word(m));
    MethodOfWord(Lower(s), m, s);
  }

  lemma MethodOfWord(w: string, m: HttpMethod, s: string)
    requires w == Lower(s)
    ensures ParseMethod(s) == Some(m) <==> w == Word(m)
  {}

  lemma TypeExactly(s: string, t: JsonType)
    ensures ParseJsonType(s) == Some(t) <==> s == TypeWord(t)
  {}

  lemma TextExactly(s: string, o: Option<string>)
    ensures IsText(s, o) <==> Opt(s) == o
  {}

  // ----- operations by method -----

  /** Each method has one operation. */
  ghost predicate OnePerMethod(ops: seq<Operation>) {
    forall i, j :: 0 <= i < j < |ops| ==> ops[i].httpMethod != ops[j].httpMethod
  }

  ghost predicate Tidy(d: Doc) {
    forall n :: n in d.decls && d.decls[n].PathDecl? ==> OnePerMethod(d.decls[n].path.operations)
  }

  lemma {:induction false} ByMethodKeys(ops: seq<Operation>, m: HttpMethod)
    ensures m in ByMethod(ops) <==> exists i :: 0 <= i < |ops| && ops[i].httpMethod == m
  {
    if ops != [] {
      ByMethodKeys(ops[1..], m);
      if i :| 0 <= i < |ops| && ops[i].httpMethod == m {
        assert i > 0 ==> ops[1..][i - 1].httpMethod == m;
      }
      if i :| 0 <= i < |ops[1..]| && ops[1..][i].httpMethod == m {
        assert ops[i + 1].httpMethod == m;
      }
    }
  }

  lemma {:induction false} ByMethodAdded(ops: seq<Operation>, o: Operation)
    ensures ByMethod(ops + [o]) == ByMethod(ops)[o.httpMethod := OperationRowOf(o)]
  {
    if ops == [] {
      assert (ops + [o])[1..] == [];
    } else {
      assert (ops + [o])[0] == ops[0] && (ops + [o])[1..] == ops[1..] + [o];
      ByMethodAdded(ops[1..], o);
    }
  }

  lemma {:induction false} ByMethodWithout(ops: seq<Operation>, m: HttpMethod)
    ensures ByMethod(Without(ops, m)) == ByMethod(ops) - {m}
  {
    if ops != [] {
      ByMethodWithout(ops[1..], m);
    }
  }

  lemma {:induction false} WithoutShorter(ops: seq<Operation>, m: HttpMethod)
    ensures |Without(ops, m)| < |ops| <==> m in ByMethod(ops)
  {
    if ops != [] {
      WithoutShorter(ops[1..], m);
    }
  }

  lemma {:induction false} WithoutWithin(ops: seq<Operation>, m: HttpMethod)
    ensures forall o :: o in Without(ops, m) ==> o in ops
  {
    if ops != [] {
      WithoutWithin(ops[1..], m);
    }
  }

  lemma {:induction false} WithoutOnePer(ops: seq<Operation>, m: HttpMethod)
    requires OnePerMethod(ops)
    ensures OnePerMethod(Without(ops, m))
  {
    if ops != [] {
      assert OnePerMethod(ops[1..]);
      WithoutOnePer(ops[1..], m);
      WithoutWithin(ops[1..], m);
      var rest := Without(ops[1..], m);
      forall i | 0 <= i < |rest| ensures rest[i].httpMethod != ops[0].httpMethod {
        assert rest[i] in ops[1..];
        var j :| 0 <= j < |ops[1..]| && ops[1..][j] == rest[i];
        assert ops[j + 1].httpMethod != ops[0].httpMethod;
      }
    }
  }

  // ----- one step -----

  /** Writing one declaration is setting one row. */
  lemma Written(d: Doc, key: string, p: Payload)
    ensures TableOf(Patch(d, Upsert(key, p))) == TableOf(d)[key := RowOf(p)]
    ensures Tidy(d) && (p.PathDecl? ==> OnePerMethod(p.path.operations)) ==> Tidy(Patch(d, Upsert(key, p)))
  {
    var next := Patch(d, Upsert(key, p));
    assert next.decls == d.decls[key := p];
  }

  lemma Removed(d: Doc, key: string)
    ensures TableOf(Patch(d, NoEffect.(removes := {key}))) == TableOf(d) - {key}
    ensures Tidy(d) ==> Tidy(Patch(d, NoEffect.(removes := {key})))
  {
    assert Patch(d, NoEffect.(removes := {key})).decls == d.decls - {key};
  }

  /** The declarations other than a removed schema can be read. */
  ghost predicate OthersLegible(d: Doc, op: OpenApiOp) {
    op.RemoveComponentSchema? ==> forall n :: n in d.decls && n != "schema:" + op.name ==> Legible(d.decls[n])
  }

  ghost predicate Agrees(d: Doc, op: OpenApiOp) {
    && (Deferred(d, op).Success? <==> OthersLegible(d, op) && exists u :: Moves(TableOf(d), op, u))
    && (Deferred(d, op).Success? ==>
          var next := Patch(d, Deferred(d, op).value);
          Moves(TableOf(d), op, TableOf(next)) && Tidy(next))
  }

  lemma AddPathAgrees(d: Doc, op: OpenApiOp)
    requires Tidy(d) && op.AddPath?
    ensures Agrees(d, op)
  {
    var key := PathKey(op.pattern);
    var p := PathDecl(PathItem(op.pattern, Opt(op.summary), Opt(op.description), [], []));
    Written(d, key, p);
    TextExactly(op.summary, Opt(op.summary));
    TextExactly(op.description, Opt(op.description));
    var row := PathRow(op.pattern, Opt(op.summary), Opt(op.description), map[]);
    if key !in d.decls {
      assert Sets(TableOf(d), TableOf(d)[key := row], key, row);
      assert Moves(TableOf(d), op, TableOf(d)[key := row]);
    }
  }

  lemma TypesExactly(s: string, types: seq<JsonType>)
    ensures IsTypes(s, types) <==>
            if s == "" then types == [] else ParseJsonType(s).Some? && types == [ParseJsonType(s).value]
  {
    if |types| == 1 {
      TypeExactly(s, types[0]);
    }
    if ParseJsonType(s).Some? {
      TypeExactly(s, ParseJsonType(s).value);
    }
  }

  lemma AddSchemaAgrees(d: Doc, op: OpenApiOp)
    requires Tidy(d) && op.AddComponentSchema?
    ensures Agrees(d, op)
  {
    var key, t := SchemaKey(op.name), TableOf(d);
    TextExactly(op.description, Opt(op.description));
    forall types
      ensures IsTypes(op.schemaType, types) <==>
              if op.schemaType == "" then types == []
              else ParseJsonType(op.schemaType).Some? && types == [ParseJsonType(op.schemaType).value]
    {
      TypesExactly(op.schemaType, types);
    }
    if key !in d.decls && (op.schemaType == "" || ParseJsonType(op.schemaType).Some?) {
      var types := if op.schemaType == "" then [] else [ParseJsonType(op.schemaType).value];
      Written(d, key, SchemaDecl(op.name, Some(BareSchema(types, Opt(op.description)))));
      var row := SchemaRow(op.name, types, Opt(op.description));
      assert IsTypes(op.schemaType, types) && Sets(t, t[key := row], key, row);
      assert AddsSchema(t, key, op, t[key := row]);
      assert Moves(t, op, t[key := row]);
    }
  }

  lemma RemovalAgrees(d: Doc, op: OpenApiOp)
    requires Tidy(d) && (op.RemovePath? || op.RemoveComponentSchema?)
    ensures Agrees(d, op)
  {
    var key := if op.RemovePath? then PathKey(op.pattern) else SchemaKey(op.name);
    Removed(d, key);
    forall n | n in d.decls ensures WellFormed(d.decls[n]) <==> Legible(d.decls[n]) {
      WellFormedExactly(d.decls[n]);
    }
    assert key in d.decls ==> Moves(TableOf(d), op, TableOf(d) - {key});
  }

  /** The method a word names is the one the parser finds. */
  lemma MethodsExactly(s: string)
    ensures forall m :: SameWord(s, Word(m)) <==> ParseMethod(s) == Some(m)
  {
    forall m ensures SameWord(s, Word(m)) <==> ParseMethod(s) == Some(m) {
      MethodExactly(s, m);
    }
  }

  lemma NewOperationExactly(op: OpenApiOp)
    requires op.AddOperation?
    ensures NewOperation(op, OperationRow(Opt(op.operationId), Opt(op.summary), Opt(op.description)))
  {}

  lemma AddOperationAgrees(d: Doc, op: OpenApiOp)
    requires Tidy(d) && op.AddOperation?
    ensures Agrees(d, op)
  {
    var key, t := PathKey(op.pattern), TableOf(d);
    MethodsExactly(op.httpMethod);
    if key in d.decls && d.decls[key].PathDecl? && ParseMethod(op.httpMethod).Some? {
      var p, m := d.decls[key].path, ParseMethod(op.httpMethod).value;
      ByMethodKeys(p.operations, m);
      if m !in ByMethod(p.operations) {
        AddedOperation(d, op, key, p, m);
      }
    }
  }

  lemma AddedOperation(d: Doc, op: OpenApiOp, key: string, p: PathItem, m: HttpMethod)
    requires Tidy(d) && op.AddOperation? && key == PathKey(op.pattern) && key in d.decls && d.decls[key] == PathDecl(p)
    requires ParseMethod(op.httpMethod) == Some(m) && m !in ByMethod(p.operations)
    ensures Deferred(d, op).Success?
    ensures var next := Patch(d, Deferred(d, op).value); Moves(TableOf(d), op, TableOf(next)) && Tidy(next)
  {
    var o := Operation(m, Opt(op.operationId), Opt(op.summary), Opt(op.description), [], None, []);
    var q, t := p.(operations := p.operations + [o]), TableOf(d);
    ByMethodKeys(p.operations, m);
    ByMethodAdded(p.operations, o);
    Written(d, key, PathDecl(q));
    NewOperationExactly(op);
    MethodExactly(op.httpMethod, m);
    var next := t[key].(operations := t[key].operations[m := OperationRowOf(o)]);
    assert Sets(t, t[key := next], key, next);
    assert AddsOperation(t, key, op, t[key := next]);
  }

  lemma RemoveOperationAgrees(d: Doc, op: OpenApiOp)
    requires Tidy(d) && op.RemoveOperation?
    ensures Agrees(d, op)
  {
    var key, t := PathKey(op.pattern), TableOf(d);
    MethodsExactly(op.httpMethod);
    if key in d.decls && d.decls[key].PathDecl? && ParseMethod(op.httpMethod).Some? {
      var p, m := d.decls[key].path, ParseMethod(op.httpMethod).value;
      ByMethodWithout(p.operations, m);
      WithoutShorter(p.operations, m);
      if m in ByMethod(p.operations) {
        WithoutOnePer(p.operations, m);
        Written(d, key, PathDecl(p.(operations := Without(p.operations, m))));
        var next := t[key].(operations := t[key].operations - {m});
        assert Sets(t, t[key := next], key, next);
        assert Moves(t, op, t[key := next]);
      }
    }
  }

  /** Every mutation is accepted exactly when the table has a next state, and leads to it. */
  lemma StepAgrees(d: Doc, op: OpenApiOp)
    requires Tidy(d) && (op.PushDocument? && op.parsed.Some? ==> Tidy(op.parsed.value))
    ensures Agrees(d, op)
    ensures Deferred(d, op).Success? ==>
              Patch(d, Deferred(d, op).value).meta == if op.PushDocument? then op.parsed.value.meta else d.meta
  {
    match op
    case PushDocument(parsed) =>
      if parsed.Some? {
        assert Patch(d, Deferred(d, op).value).decls == parsed.value.decls;
        assert Moves(TableOf(d), op, TableOf(parsed.value));
      }
    case AddPath(_, _, _) => AddPathAgrees(d, op);
    case RemovePath(_) => RemovalAgrees(d, op);
    case AddOperation(_, _, _, _, _) => AddOperationAgrees(d, op);
    case RemoveOperation(_, _) => RemoveOperationAgrees(d, op);
    case AddComponentSchema(_, _, _) => AddSchemaAgrees(d, op);
    case RemoveComponentSchema(_) => RemovalAgrees(d, op);
  }

  // ----- runs -----

  ghost predicate Reaches(t: Table, ops: seq<OpenApiOp>, u: Table)
    decreases |ops|
  {
    if ops == [] then u == t else exists mid :: Moves(t, ops[0], mid) && Reaches(mid, ops[1..], u)
  }

  ghost predicate TidyPushes(ops: seq<OpenApiOp>) {
    forall i :: 0 <= i < |ops| && ops[i].PushDocument? && ops[i].parsed.Some? ==> Tidy(ops[i].parsed.value)
  }

  /** Every run on the document is a run on the table. */
  lemma {:induction false} RunAgrees(d: Doc, net: DocEffect, ops: seq<OpenApiOp>)
    requires Tidy(d) && TidyPushes(ops) && Run(d, net, ops).Success?
    ensures Reaches(TableOf(d), ops, TableOf(Run(d, net, ops).value.0)) && Tidy(Run(d, net, ops).value.0)
    decreases |ops|
  {
    if ops != [] {
      StepAgrees(d, ops[0]);
      var e := Deferred(d, ops[0]).value;
      RunAgrees(Patch(d, e), Compose(net, e), ops[1..]);
      assert Moves(TableOf(d), ops[0], TableOf(Patch(d, e)));
    }
  }
}
