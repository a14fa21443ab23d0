/** OpenAPI declarations and the walk that collects every component reference in one, at any nesting. */
module OpenApiDocs {
  import opened Wrappers
  import opened Effects
  import opened OpenApiReference

  datatype HttpMethod = Get | Post | Put | Delete | Patch_ | Head | Options | Trace
  datatype JsonType = JString | JInteger | JNumber | JBoolean | JArray | JObject | JNull
  datatype ParameterLocation = InQuery | InHeader | InPath | InCookie

  datatype SchemaOrRef = SchemaAt(ref: SchemaRef) | Inline(def: SchemaDef)

  datatype SchemaDef = SchemaDef(
    types: seq<JsonType>, description: Option<string>, required: seq<string>, enumValues: seq<string>,
    items: Option<SchemaOrRef>, properties: seq<Property>, allOf: seq<SchemaOrRef>, anyOf: seq<SchemaOrRef>,
    oneOf: seq<SchemaOrRef>, not_: Option<SchemaOrRef>, additional: Option<SchemaOrRef>)

  datatype Property = Property(name: string, schema: Option<SchemaOrRef>)

  datatype Parameter = Parameter(name: string, location: ParameterLocation, required: bool, schema: Option<SchemaOrRef>)
  datatype MediaType = MediaType(mediaType: string, schema: Option<SchemaOrRef>)
  datatype Header = Header(name: string, schema: Option<SchemaOrRef>)
  datatype RequestBody = RequestBody(description: Option<string>, required: bool, content: seq<MediaType>)
  datatype Response = Response(description: string, content: seq<MediaType>, headers: seq<Header>)

  /** A parameter, request body or response written out, or named in its compact stored form. */
  datatype OrRef<T> = Here(value: T) | Named(stored: string)

  datatype ResponseEntry = ResponseEntry(status: string, response: Option<OrRef<Response>>)

  datatype Operation = Operation(
    httpMethod: HttpMethod, operationId: Option<string>, summary: Option<string>, description: Option<string>,
    parameters: seq<OrRef<Parameter>>, requestBody: Option<OrRef<RequestBody>>, responses: seq<ResponseEntry>)

  datatype PathItem = PathItem(
    pattern: string, summary: Option<string>, description: Option<string>, parameters: seq<OrRef<Parameter>>,
    operations: seq<Operation>)

  datatype Payload =
    | PathDecl(path: PathItem)
    | SchemaDecl(name: string, schema: Option<SchemaDef>)
    | ParameterDecl(name: string, parameter: Option<Parameter>)
    | ResponseDecl(name: string, response: Option<Response>)
    | RequestBodyDecl(name: string, requestBody: Option<RequestBody>)

  datatype DocMeta = DocMeta(openapiVersion: string, title: string, version: string, servers: seq<string>)

  type Doc = Schema<Payload, DocMeta>

  // ----- references as stored -----

  /** One stored reference: to a schema, or by compact name to another kind of component. */
  datatype Slot = SchemaSlot(ref: SchemaRef) | NamedSlot(stored: string, component: Component)

  datatype Component = Parameters | RequestBodies | Responses

  function ComponentName(c: Component): string {
    match c case Parameters => "parameters" case RequestBodies => "requestBodies" case Responses => "responses"
  }

  function DeclPrefix(c: Component): string {
    match c case Parameters => "param:" case RequestBodies => "requestBody:" case Responses => "response:"
  }

  /** A reference resolved to a declaration key; `external` when it leaves the file. */
  datatype TypeRef = TypeRef(name: string, external: bool)

  function Pushed(r: ComponentReference, prefix: string): TypeRef {
    match r
    case Local(name) => TypeRef(prefix + name, false)
    case External(_, _, name) => TypeRef(prefix + name, true)
  }

  /** The declaration a slot refers to; none when it is malformed. */
  function Resolve(s: Slot): Option<TypeRef> {
    match s
    case SchemaSlot(ref) =>
      (match ParseStoredSchema(ref) case Success(r) => Some(Pushed(r, "schema:")) case Failure(_) => None)
    case NamedSlot(stored, c) =>
      (match ParseStored(stored, ComponentName(c))
       case Success(r) => Some(Pushed(r, DeclPrefix(c)))
       case Failure(_) => None)
  }

  // ----- what a slot refers to, without the resolver -----

  /** The slot names this declaration of the same file. */
  ghost predicate NamesInside(s: Slot, key: string) {
    match s
    case SchemaSlot(ref) =>
      && !(ref.import_.Some? && ref.import_.value.External?)
      && exists n :: StandsForLocal(ref.localName, "schemas", n) && key == "schema:" + n
    case NamedSlot(stored, Parameters) => exists n :: StandsForLocal(stored, "parameters", n) && key == "param:" + n
    case NamedSlot(stored, RequestBodies) =>
      exists n :: StandsForLocal(stored, "requestBodies", n) && key == "requestBody:" + n
    case NamedSlot(stored, Responses) => exists n :: StandsForLocal(stored, "responses", n) && key == "response:" + n
  }

  ghost predicate ValidImport(e: ComponentReference, name: string) {
    e.External? && ValidPath(e.path) && '#' !in e.path && Nameable(name) && e.declName == name
  }

  /** The slot names a declaration with this key in another file. */
  ghost predicate NamesOutside(s: Slot, key: string) {
    match s
    case SchemaSlot(ref) =>
      if ref.import_.Some? && ref.import_.value.External? then
        exists n :: ValidImport(ref.import_.value, n) && key == "schema:" + n
      else exists path, n :: WrittenExternal(ref.localName, "schemas", path, n) && key == "schema:" + n
    case NamedSlot(stored, Parameters) =>
      exists path, n :: WrittenExternal(stored, "parameters", path, n) && key == "param:" + n
    case NamedSlot(stored, RequestBodies) =>
      exists path, n :: WrittenExternal(stored, "requestBodies", path, n) && key == "requestBody:" + n
    case NamedSlot(stored, Responses) =>
      exists path, n :: WrittenExternal(stored, "responses", path, n) && key == "response:" + n
  }

  lemma NamedExactly(stored: string, component: string, prefix: string, key: string)
    ensures var r := ParseStored(stored, component);
            && ((r.Success? && Pushed(r.value, prefix) == TypeRef(key, false)) <==>
                exists n :: StandsForLocal(stored, component, n) && key == prefix + n)
            && ((r.Success? && Pushed(r.value, prefix) == TypeRef(key, true)) <==>
                exists path, n :: WrittenExternal(stored, component, path, n) && key == prefix + n)
  {
    var r := ParseStored(stored, component);
    forall n ensures StandsForLocal(stored, component, n) <==> r == Success(Local(n)) {
      ParseStoredExactly(stored, component, Local(n));
    }
    forall path, n ensures WrittenExternal(stored, component, path, n) <==> r == Success(External(path, "", n)) {
      ParseStoredExactly(stored, component, External(path, "", n));
    }
    if r.Success? {
      ParseStoredExactly(stored, component, r.value);
    }
  }

  lemma SchemaNamedExactly(ref: SchemaRef, key: string)
    ensures Resolve(SchemaSlot(ref)) == Some(TypeRef(key, false)) <==> NamesInside(SchemaSlot(ref), key)
    ensures Resolve(SchemaSlot(ref)) == Some(TypeRef(key, true)) <==> NamesOutside(SchemaSlot(ref), key)
  {
    if ref.import_.Some? && ref.import_.value.External? {
      var r := ParseStoredSchema(ref);
      ParseStoredSchemaExactly(ref, ref.import_.value);
      if r.Success? {
        ParseStoredSchemaExactly(ref, r.value);
      }
    } else {
      NamedExactly(ref.localName, "schemas", "schema:", key);
    }
  }

  /** A slot resolves to a declaration of the file, or of another file, exactly when it names it. */
  lemma ResolveExactly(s: Slot, key: string)
    ensures Resolve(s) == Some(TypeRef(key, false)) <==> NamesInside(s, key)
    ensures Resolve(s) == Some(TypeRef(key, true)) <==> NamesOutside(s, key)
  {
    match s
    case SchemaSlot(ref) => SchemaNamedExactly(ref, key);
    case NamedSlot(stored, Parameters) => NamedExactly(stored, "parameters", "param:", key);
    case NamedSlot(stored, RequestBodies) => NamedExactly(stored, "requestBodies", "requestBody:", key);
    case NamedSlot(stored, Responses) => NamedExactly(stored, "responses", "response:", key);
  }

  // ----- where references stand -----

  predicate InOption(s: Option<SchemaOrRef>, r: SchemaRef)
    decreases s
  {
    s.Some? && InSchema(s.value, r)
  }

  predicate InSchema(s: SchemaOrRef, r: SchemaRef)
    decreases s
  {
    match s
    case SchemaAt(ref) => ref == r
    case Inline(def) => InDef(def, r)
  }

  /** The reference stands in the schema, under any keyword and at any depth. */
  predicate InDef(d: SchemaDef, r: SchemaRef)
    decreases d
  {
    || InOption(d.items, r)
    || (exists i :: 0 <= i < |d.properties| && InOption(d.properties[i].schema, r))
    || (exists i :: 0 <= i < |d.allOf| && InSchema(d.allOf[i], r))
    || (exists i :: 0 <= i < |d.anyOf| && InSchema(d.anyOf[i], r))
    || (exists i :: 0 <= i < |d.oneOf| && InSchema(d.oneOf[i], r))
    || InOption(d.not_, r)
    || InOption(d.additional, r)
  }

  /** The slot is a schema reference standing in the schema. */
  predicate InSchemaOf(schema: Option<SchemaOrRef>, s: Slot) { s.SchemaSlot? && InOption(schema, s.ref) }

  predicate InContent(content: seq<MediaType>, s: Slot) {
    exists i :: 0 <= i < |content| && InSchemaOf(content[i].schema, s)
  }

  predicate InResponse(r: Response, s: Slot) {
    InContent(r.content, s) || exists i :: 0 <= i < |r.headers| && InSchemaOf(r.headers[i].schema, s)
  }

  predicate InParameter(p: OrRef<Parameter>, s: Slot) {
    match p
    case Here(value) => InSchemaOf(value.schema, s)
    case Named(stored) => s == NamedSlot(stored, Parameters)
  }

  predicate InRequestBodyOf(b: OrRef<RequestBody>, s: Slot) {
    match b
    case Here(value) => InContent(value.content, s)
    case Named(stored) => s == NamedSlot(stored, RequestBodies)
  }

  predicate InResponseOf(e: ResponseEntry, s: Slot) {
    match e.response
    case None => false
    case Some(Here(value)) => InResponse(value, s)
    case Some(Named(stored)) => s == NamedSlot(stored, Responses)
  }

  predicate InOperation(o: Operation, s: Slot) {
    || (exists i :: 0 <= i < |o.parameters| && InParameter(o.parameters[i], s))
    || (o.requestBody.Some? && InRequestBodyOf(o.requestBody.value, s))
    || (exists i :: 0 <= i < |o.responses| && InResponseOf(o.responses[i], s))
  }

  /** The reference stands somewhere in the declaration. */
  predicate Stands(p: Payload, s: Slot) {
    match p
    case PathDecl(path) =>
      || (exists i :: 0 <= i < |path.parameters| && InParameter(path.parameters[i], s))
      || (exists i :: 0 <= i < |path.operations| && InOperation(path.operations[i], s))
    case SchemaDecl(_, schema) => schema.Some? && s.SchemaSlot? && InDef(schema.value, s.ref)
    case ParameterDecl(_, parameter) => parameter.Some? && InSchemaOf(parameter.value.schema, s)
    case ResponseDecl(_, response) => response.Some? && InResponse(response.value, s)
    case RequestBodyDecl(_, body) => body.Some? && InContent(body.value.content, s)
  }

  // ----- collecting them -----

  function OfOption(s: Option<SchemaOrRef>): seq<Slot>
    decreases s, 1
  {
    if s.Some? then OfSchema(s.value) else []
  }

  function OfSchema(s: SchemaOrRef): seq<Slot>
    decreases s, 0
  {
    match s
    case SchemaAt(ref) => [SchemaSlot(ref)]
    case Inline(def) => OfDef(def)
  }

  function OfSchemas(ss: seq<SchemaOrRef>): seq<Slot>
    decreases ss, 0
  {
    if ss == [] then [] else OfSchema(ss[0]) + OfSchemas(ss[1..])
  }

  function OfProperties(ps: seq<Property>): seq<Slot>
    decreases ps, 0
  {
    if ps == [] then [] else OfOption(ps[0].schema) + OfProperties(ps[1..])
  }

  function OfDef(d: SchemaDef): seq<Slot>
    decreases d, 0
  {
    OfOption(d.items) + OfProperties(d.properties) + OfSchemas(d.allOf) + OfSchemas(d.anyOf) + OfSchemas(d.oneOf)
    + OfOption(d.not_) + OfOption(d.additional)
  }

  function OfMany<T>(xs: seq<T>, slots: T -> seq<Slot>): seq<Slot> {
    if xs == [] then [] else slots(xs[0]) + OfMany(xs[1..], slots)
  }

  function OfMediaType(m: MediaType): seq<Slot> { OfOption(m.schema) }

  function OfHeader(h: Header): seq<Slot> { OfOption(h.schema) }

  function OfContent(content: seq<MediaType>): seq<Slot> { OfMany(content, OfMediaType) }

  function OfResponse(r: Response): seq<Slot> { OfContent(r.content) + OfMany(r.headers, OfHeader) }

  function OfParameter(p: OrRef<Parameter>): seq<Slot> {
    match p
    case Here(value) => OfOption(value.schema)
    case Named(stored) => [NamedSlot(stored, Parameters)]
  }

  function OfRequestBody(b: Option<OrRef<RequestBody>>): seq<Slot> {
    match b
    case None => []
    case Some(Here(value)) => OfContent(value.content)
    case Some(Named(stored)) => [NamedSlot(stored, RequestBodies)]
  }

  function OfResponseEntry(e: ResponseEntry): seq<Slot> {
    match e.response
    case None => []
    case Some(Here(value)) => OfResponse(value)
    case Some(Named(stored)) => [NamedSlot(stored, Responses)]
  }

  function OfOperation(o: Operation): seq<Slot> {
    OfMany(o.parameters, OfParameter) + OfRequestBody(o.requestBody) + OfMany(o.responses, OfResponseEntry)
  }

  function Slots(p: Payload): seq<Slot> {
    match p
    case PathDecl(path) => OfMany(path.parameters, OfParameter) + OfMany(path.operations, OfOperation)
    case SchemaDecl(_, schema) => if schema.Some? then OfDef(schema.value) else []
    case ParameterDecl(_, parameter) => if parameter.Some? then OfOption(parameter.value.schema) else []
    case ResponseDecl(_, response) => if response.Some? then OfResponse(response.value) else []
    case RequestBodyDecl(_, body) => if body.Some? then OfContent(body.value.content) else []
  }

  /** The walk misses no reference of a schema and invents none. */
  lemma {:induction false} SchemaWalk(s: SchemaOrRef, slot: Slot)
    ensures slot in OfSchema(s) <==> slot.SchemaSlot? && InSchema(s, slot.ref)
    decreases s, 0
  {
    if s.Inline? {
      DefWalk(s.def, slot);
    }
  }

  lemma {:induction false} OptionWalk(s: Option<SchemaOrRef>, slot: Slot)
    ensures slot in OfOption(s) <==> InSchemaOf(s, slot)
    decreases s, 1
  {
    if s.Some? {
      SchemaWalk(s.value, slot);
    }
  }

  lemma {:induction false} SchemasWalk(ss: seq<SchemaOrRef>, slot: Slot)
    ensures slot in OfSchemas(ss) <==> slot.SchemaSlot? && exists i :: 0 <= i < |ss| && InSchema(ss[i], slot.ref)
    decreases ss, 0
  {
    if ss != [] {
      SchemaWalk(ss[0], slot);
      SchemasWalk(ss[1..], slot);
      if slot.SchemaSlot? {
        if i :| 0 <= i < |ss| && InSchema(ss[i], slot.ref) {
          assert i > 0 ==> InSchema(ss[1..][i - 1], slot.ref);
        }
        if i :| 0 <= i < |ss[1..]| && InSchema(ss[1..][i], slot.ref) {
          assert InSchema(ss[i + 1], slot.ref);
        }
      }
    }
  }

  lemma {:induction false} PropertiesWalk(ps: seq<Property>, slot: Slot)
    ensures slot in OfProperties(ps) <==> exists i :: 0 <= i < |ps| && InSchemaOf(ps[i].schema, slot)
    decreases ps, 0
  {
    if ps != [] {
      OptionWalk(ps[0].schema, slot);
      PropertiesWalk(ps[1..], slot);
      if i :| 0 <= i < |ps| && InSchemaOf(ps[i].schema, slot) {
        assert i > 0 ==> InSchemaOf(ps[1..][i - 1].schema, slot);
      }
      if i :| 0 <= i < |ps[1..]| && InSchemaOf(ps[1..][i].schema, slot) {
        assert InSchemaOf(ps[i + 1].schema, slot);
      }
    }
  }

  lemma {:induction false} DefWalk(d: SchemaDef, slot: Slot)
    ensures slot in OfDef(d) <==> slot.SchemaSlot? && InDef(d, slot.ref)
    decreases d, 0
  {
    OptionWalk(d.items, slot);
    PropertiesWalk(d.properties, slot);
    SchemasWalk(d.allOf, slot);
    SchemasWalk(d.anyOf, slot);
    SchemasWalk(d.oneOf, slot);
    OptionWalk(d.not_, slot);
    OptionWalk(d.additional, slot);
    if i :| 0 <= i < |d.properties| && InSchemaOf(d.properties[i].schema, slot) {
      assert InOption(d.properties[i].schema, slot.ref);
    }
  }

  lemma {:induction false} ManyWalk<T(!new)>(xs: seq<T>, slots: T -> seq<Slot>, s: Slot)
    ensures s in OfMany(xs, slots) <==> exists i :: 0 <= i < |xs| && s in slots(xs[i])
  {
    if xs != [] {
      ManyWalk(xs[1..], slots, s);
      if i :| 0 <= i < |xs| && s in slots(xs[i]) {
        assert i > 0 ==> s in slots(xs[1..][i - 1]);
      }
      if i :| 0 <= i < |xs[1..]| && s in slots(xs[1..][i]) {
        assert s in slots(xs[i + 1]);
      }
    }
  }

  lemma ContentWalk(content: seq<MediaType>, s: Slot)
    ensures s in OfContent(content) <==> InContent(content, s)
  {
    ManyWalk(content, OfMediaType, s);
    forall i | 0 <= i < |content| ensures s in OfMediaType(content[i]) <==> InSchemaOf(content[i].schema, s) {
      OptionWalk(content[i].schema, s);
    }
  }

  lemma ResponseWalk(r: Response, s: Slot)
    ensures s in OfResponse(r) <==> InResponse(r, s)
  {
    ContentWalk(r.content, s);
    ManyWalk(r.headers, OfHeader, s);
    forall i | 0 <= i < |r.headers| ensures s in OfHeader(r.headers[i]) <==> InSchemaOf(r.headers[i].schema, s) {
      OptionWalk(r.headers[i].schema, s);
    }
  }

  lemma ParametersWalk(ps: seq<OrRef<Parameter>>, s: Slot)
    ensures s in OfMany(ps, OfParameter) <==> exists i :: 0 <= i < |ps| && InParameter(ps[i], s)
  {
    ManyWalk(ps, OfParameter, s);
    forall i | 0 <= i < |ps| ensures s in OfParameter(ps[i]) <==> InParameter(ps[i], s) {
      if ps[i].Here? {
        OptionWalk(ps[i].value.schema, s);
      }
    }
  }

  lemma ResponsesWalk(es: seq<ResponseEntry>, s: Slot)
    ensures s in OfMany(es, OfResponseEntry) <==> exists i :: 0 <= i < |es| && InResponseOf(es[i], s)
  {
    ManyWalk(es, OfResponseEntry, s);
    forall i | 0 <= i < |es| ensures s in OfResponseEntry(es[i]) <==> InResponseOf(es[i], s) {
      if es[i].response.Some? && es[i].response.value.Here? {
        ResponseWalk(es[i].response.value.value, s);
      }
    }
  }

  lemma OperationWalk(o: Operation, s: Slot)
    ensures s in OfOperation(o) <==> InOperation(o, s)
  {
    ParametersWalk(o.parameters, s);
    if o.requestBody.Some? && o.requestBody.value.Here? {
      ContentWalk(o.requestBody.value.value.content, s);
    }
    ResponsesWalk(o.responses, s);
  }

  /** The walk over a whole declaration collects a reference exactly when it stands in it. */
  lemma PayloadWalk(p: Payload, s: Slot)
    ensures s in Slots(p) <==> Stands(p, s)
  {
    match p
    case PathDecl(path) =>
      ParametersWalk(path.parameters, s);
      ManyWalk(path.operations, OfOperation, s);
      forall i | 0 <= i < |path.operations|
        ensures s in OfOperation(path.operations[i]) <==> InOperation(path.operations[i], s)
      {
        OperationWalk(path.operations[i], s);
      }
    case SchemaDecl(_, schema) => if schema.Some? { DefWalk(schema.value, s); }
    case ParameterDecl(_, parameter) => if parameter.Some? { OptionWalk(parameter.value.schema, s); }
    case ResponseDecl(_, response) => if response.Some? { ResponseWalk(response.value, s); }
    case RequestBodyDecl(_, body) => if body.Some? { ContentWalk(body.value.content, s); }
  }

  // ----- the walk as written: pushing onto one list -----

  method CollectSchema(s: SchemaOrRef, refs: seq<Slot>) returns (out: seq<Slot>)
    ensures out == refs + OfSchema(s)
    decreases s, 0
  {
    match s
    case SchemaAt(ref) => out := refs + [SchemaSlot(ref)];
    case Inline(def) => out := CollectDef(def, refs);
  }

  method CollectSchemas(ss: seq<SchemaOrRef>, refs: seq<Slot>) returns (out: seq<Slot>)
    ensures out == refs + OfSchemas(ss)
    decreases ss, 0
  {
    out := refs;
    var i := 0;
    while i < |ss|
      invariant 0 <= i <= |ss|
      invariant out + OfSchemas(ss[i..]) == refs + OfSchemas(ss)
    {
      assert ss[i..][1..] == ss[i + 1..];
      ghost var before := out;
      out := CollectSchema(ss[i], out);
      assert before + (OfSchema(ss[i]) + OfSchemas(ss[i + 1..])) == out + OfSchemas(ss[i + 1..]);
      i := i + 1;
    }
    assert out + [] == out;
  }

  method CollectProperties(ps: seq<Property>, refs: seq<Slot>) returns (out: seq<Slot>)
    ensures out == refs + OfProperties(ps)
    decreases ps, 0
  {
    out := refs;
    var i := 0;
    while i < |ps|
      invariant 0 <= i <= |ps|
      invariant out + OfProperties(ps[i..]) == refs + OfProperties(ps)
    {
      assert ps[i..][1..] == ps[i + 1..];
      ghost var before := out;
      out := CollectOption(ps[i].schema, out);
      assert before + (OfOption(ps[i].schema) + OfProperties(ps[i + 1..])) == out + OfProperties(ps[i + 1..]);
      i := i + 1;
    }
    assert out + [] == out;
  }

  method CollectOption(s: Option<SchemaOrRef>, refs: seq<Slot>) returns (out: seq<Slot>)
    ensures out == refs + OfOption(s)
    decreases s, 1
  {
    if s.Some? {
      out := CollectSchema(s.value, refs);
    } else {
      out := refs;
    }
  }

  method CollectDef(d: SchemaDef, refs: seq<Slot>) returns (out: seq<Slot>)
    ensures out == refs + OfDef(d)
    decreases d, 0
  {
    out := CollectOption(d.items, refs);
    out := CollectProperties(d.properties, out);
    out := CollectSchemas(d.allOf, out);
    out := CollectSchemas(d.anyOf, out);
    out := CollectSchemas(d.oneOf, out);
    out := CollectOption(d.not_, out);
    out := CollectOption(d.additional, out);
    Regroup(refs, OfOption(d.items), OfProperties(d.properties), OfSchemas(d.allOf), OfSchemas(d.anyOf),
            OfSchemas(d.oneOf), OfOption(d.not_), OfOption(d.additional));
  }

  lemma Regroup(r: seq<Slot>, a: seq<Slot>, b: seq<Slot>, c: seq<Slot>, d: seq<Slot>, e: seq<Slot>, f: seq<Slot>,
                g: seq<Slot>)
    ensures r + a + b + c + d + e + f + g == r + (a + b + c + d + e + f + g)
  {}

  method CollectContent(content: seq<MediaType>, refs: seq<Slot>) returns (out: seq<Slot>)
    ensures out == refs + OfContent(content)
  {
    out := refs;
    for i := 0 to |content|
      invariant out + OfContent(content[i..]) == refs + OfContent(content)
    {
      ghost var before := out;
      out := CollectOption(content[i].schema, out);
      Next(content, OfMediaType, i, before, out);
    }
    assert out + OfContent([]) == out;
  }

  method CollectHeaders(headers: seq<Header>, refs: seq<Slot>) returns (out: seq<Slot>)
    ensures out == refs + OfMany(headers, OfHeader)
  {
    out := refs;
    for i := 0 to |headers|
      invariant out + OfMany(headers[i..], OfHeader) == refs + OfMany(headers, OfHeader)
    {
      ghost var before := out;
      out := CollectOption(headers[i].schema, out);
      Next(headers, OfHeader, i, before, out);
    }
    assert out + OfMany([], OfHeader) == out;
  }

  method CollectResponse(r: Response, refs: seq<Slot>) returns (out: seq<Slot>)
    ensures out == refs + OfResponse(r)
  {
    out := CollectContent(r.content, refs);
    out := CollectHeaders(r.headers, out);
  }

  method CollectParameters(ps: seq<OrRef<Parameter>>, refs: seq<Slot>) returns (out: seq<Slot>)
    ensures out == refs + OfMany(ps, OfParameter)
  {
    out := refs;
    for i := 0 to |ps|
      invariant out + OfMany(ps[i..], OfParameter) == refs + OfMany(ps, OfParameter)
    {
      ghost var before := out;
      match ps[i] {
        case Here(value) => out := CollectOption(value.schema, out);
        case Named(stored) => out := out + [NamedSlot(stored, Parameters)];
      }
      Next(ps, OfParameter, i, before, out);
    }
    assert out + OfMany([], OfParameter) == out;
  }

  method CollectResponses(es: seq<ResponseEntry>, refs: seq<Slot>) returns (out: seq<Slot>)
    ensures out == refs + OfMany(es, OfResponseEntry)
  {
    out := refs;
    for i := 0 to |es|
      invariant out + OfMany(es[i..], OfResponseEntry) == refs + OfMany(es, OfResponseEntry)
    {
      ghost var before := out;
      match es[i].response {
        case None =>
        case Some(Here(value)) => out := CollectResponse(value, out);
        case Some(Named(stored)) => out := out + [NamedSlot(stored, Responses)];
      }
      Next(es, OfResponseEntry, i, before, out);
    }
    assert out + OfMany([], OfResponseEntry) == out;
  }

  method CollectOperation(o: Operation, refs: seq<Slot>) returns (out: seq<Slot>)
    ensures out == refs + OfOperation(o)
  {
    out := CollectParameters(o.parameters, refs);
    ghost var before := out;
    match o.requestBody {
      case None =>
      case Some(Here(value)) => out := CollectContent(value.content, out);
      case Some(Named(stored)) => out := out + [NamedSlot(stored, RequestBodies)];
    }
    assert out == before + OfRequestBody(o.requestBody);
    out := CollectResponses(o.responses, out);
  }

  method CollectOperations(os: seq<Operation>, refs: seq<Slot>) returns (out: seq<Slot>)
    ensures out == refs + OfMany(os, OfOperation)
  {
    out := refs;
    for i := 0 to |os|
      invariant out + OfMany(os[i..], OfOperation) == refs + OfMany(os, OfOperation)
    {
      ghost var before := out;
      out := CollectOperation(os[i], out);
      Next(os, OfOperation, i, before, out);
    }
    assert out + OfMany([], OfOperation) == out;
  }

  /** One more element of the list has been walked. */
  lemma Next<T>(xs: seq<T>, slots: T -> seq<Slot>, i: nat, before: seq<Slot>, out: seq<Slot>)
    requires i < |xs| && out == before + slots(xs[i])
    ensures out + OfMany(xs[i + 1..], slots) == before + OfMany(xs[i..], slots)
    ensures i + 1 == |xs| ==> xs[i + 1..] == []
  {
    assert xs[i..][1..] == xs[i + 1..];
  }

  /** `collect_type_refs`: the references of a whole declaration, in walk order. */
  method CollectPayload(p: Payload) returns (out: seq<Slot>)
    ensures out == Slots(p)
  {
    out := [];
    match p {
      case PathDecl(path) =>
        out := CollectParameters(path.parameters, out);
        out := CollectOperations(path.operations, out);
      case SchemaDecl(_, schema) => if schema.Some? { out := CollectDef(schema.value, out); }
      case ParameterDecl(_, parameter) => if parameter.Some? { out := CollectOption(parameter.value.schema, out); }
      case ResponseDecl(_, response) => if response.Some? { out := CollectResponse(response.value, out); }
      case RequestBodyDecl(_, body) => if body.Some? { out := CollectContent(body.value.content, out); }
    }
  }

  /** The resolved reference says what the slot names. */
  ghost predicate Says(s: Slot, ref: TypeRef) {
    if ref.external then NamesOutside(s, ref.name) else NamesInside(s, ref.name)
  }

  ghost predicate Reads(s: Slot, ref: TypeRef) { Resolve(s) == Some(ref) && Says(s, ref) }

  lemma ResolveReads(s: Slot)
    requires Resolve(s).Some?
    ensures Reads(s, Resolve(s).value)
  {
    ResolveExactly(s, Resolve(s).value.name);
  }

  /** Every result, or nothing when an element has none. */
  method CollectAll<T, U>(xs: seq<T>, f: T -> Option<U>) returns (r: Option<seq<U>>)
    ensures r.Some? ==> |r.value| == |xs| && forall i :: 0 <= i < |xs| ==> f(xs[i]) == Some(r.value[i])
    ensures r.None? ==> exists i :: 0 <= i < |xs| && f(xs[i]).None?
  {
    var out: seq<U> := [];
    for i := 0 to |xs|
      invariant |out| == i && forall k :: 0 <= k < i ==> f(xs[k]) == Some(out[k])
    {
      var one := f(xs[i]);
      if one.None? {
        return None;
      }
      out := out + [one.value];
    }
    return Some(out);
  }

  /** The declarations the collected references stand for, or nothing when one of them is malformed. */
  method TypeRefsOf(p: Payload) returns (r: Option<seq<TypeRef>>)
    ensures r.Some? <==> forall i :: 0 <= i < |Slots(p)| ==> Resolve(Slots(p)[i]).Some?
    ensures r.Some? ==> |r.value| == |Slots(p)| && forall i :: 0 <= i < |Slots(p)| ==> Reads(Slots(p)[i], r.value[i])
  {
    var slots := CollectPayload(p);
    r := CollectAll(slots, Resolve);
    if r.Some? {
      forall i | 0 <= i < |slots| ensures Reads(slots[i], r.value[i]) {
        ResolveReads(slots[i]);
      }
    }
  }
}
