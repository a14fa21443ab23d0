/**
 The Protobuf mutation operations as functions on a document. Failures are the engine's own;
 `defer` postpones the reference checks to the end of a batch.
 */
module ProtoOps {
  import opened Wrappers
  import opened Text
  import opened NameLists
  import opened Wire
  import opened Descriptors
  import opened Reassembly
  import opened Effects

  const I32_MIN := -0x8000_0000

  /** A schema file under edit, its declarations by kind. */
  datatype Doc = Doc(messages: map<string, Message>, enums: map<string, Enum>, services: map<string, Service>,
                     meta: Meta)

  datatype ProtoOp =
    | AddField(message: string, field: string, jsonName: string, fieldType: string, number: u32, cardinality: string)
    | RemoveField(message: string, field: string)
    | RenameField(message: string, field: string, newName: string, jsonName: string)
    | ChangeFieldType(message: string, field: string, newType: string)
    | ChangeCardinality(message: string, field: string, cardinality: string)
    | ReorderFields(message: string, order: seq<string>)
    | ChangeFieldNumber(message: string, field: string, newNumber: i32)
    | CreateMessage(message: string)
    | RenameMessage(message: string, newName: string)
    | DeleteMessage(message: string)
    | CreateEnum(enumName: string)
    | DeleteEnum(enumName: string)
    | AddEnumValue(enumName: string, value: string, valueNumber: i32)
    | RemoveEnumValue(enumName: string, value: string)
    | RenameEnumValue(enumName: string, value: string, newName: string)
    | AddService(service: string)
    | RemoveService(service: string)
    | RenameService(service: string, newName: string)
    | AddRpc(service: string, rpc: string, request: string, response: string, clientStreaming: bool,
             serverStreaming: bool)
    | RemoveRpc(service: string, rpc: string)
    | RenameRpc(service: string, rpc: string, newName: string)
    | ChangeRpcType(service: string, rpc: string, newRequest: string, newResponse: string)
    | UpdateImport(path: string, commit: string, remove: bool)

  // ----- stored form -----

  function Load(s: Schema<Decl, Meta>): Doc {
    Doc(map n | n in s.decls && s.decls[n].MessageDecl? :: s.decls[n].message,
        map n | n in s.decls && s.decls[n].EnumDecl? :: s.decls[n].enumeration,
        map n | n in s.decls && s.decls[n].ServiceDecl? :: s.decls[n].service,
        s.meta)
  }

  predicate Exists(d: Doc, name: string) {
    name in d.messages || name in d.enums || name in d.services
  }

  function NamesOf(d: Doc): set<string> {
    d.messages.Keys + d.enums.Keys + d.services.Keys
  }

  /** No name is used by two kinds; true of every loaded document. */
  predicate KindsApart(d: Doc) {
    && d.messages.Keys !! d.enums.Keys
    && d.messages.Keys !! d.services.Keys
    && d.enums.Keys !! d.services.Keys
  }

  function DeclAt(d: Doc, name: string): Decl
    requires Exists(d, name)
  {
    if name in d.messages then MessageDecl(d.messages[name])
    else if name in d.enums then EnumDecl(d.enums[name])
    else ServiceDecl(d.services[name])
  }

  function Stored(d: Doc): Schema<Decl, Meta> {
    Schema(map n | n in NamesOf(d) :: DeclAt(d, n), d.meta)
  }

  lemma StoredLoad(s: Schema<Decl, Meta>)
    ensures KindsApart(Load(s)) && Stored(Load(s)) == s
  {}

  lemma LoadStored(d: Doc)
    requires KindsApart(d)
    ensures Load(Stored(d)) == d
  {
    var l := Load(Stored(d));
    assert l.messages == d.messages && l.enums == d.enums && l.services == d.services;
  }

  // ----- fields -----

  function FieldName(f: Field): string { f.name.GetOr("") }

  /** The first field of that name. */
  function FindField(fs: seq<Field>, name: string): (r: Option<nat>)
    ensures r.Some? ==> r.value < |fs| && fs[r.value].name == Some(name)
    ensures r.Some? ==> forall i :: 0 <= i < r.value ==> fs[i].name != Some(name)
    ensures r.None? ==> forall i :: 0 <= i < |fs| ==> fs[i].name != Some(name)
  {
    if fs == [] then None
    else if fs[0].name == Some(name) then Some(0)
    else
      match FindField(fs[1..], name)
      case None => None
      case Some(i) => Some(i + 1)
  }

  predicate CarriesNumber(m: Message, number: i32) {
    exists i :: 0 <= i < |m.field| && m.field[i].number == Some(number)
  }

  predicate InRange(r: ReservedRange, number: i32) {
    r.start.GetOr(I32_MAX) <= number < r.end.GetOr(I32_MIN)
  }

  predicate NumberReserved(m: Message, number: i32) {
    exists i :: 0 <= i < |m.reservedRange| && InRange(m.reservedRange[i], number)
  }

  function CardinalityToLabel(card: string): Result<(Option<FieldLabel>, bool), MutationError> {
    if card == "" || card == "singular" then Success((None, false))
    else if card == "optional" then Success((Some(LabelOptional), true))
    else if card == "required" then Success((Some(LabelRequired), false))
    else if card == "repeated" then Success((Some(LabelRepeated), false))
    else Failure(InvalidOperation)
  }

  /** The scalar keywords. */
  function ScalarType(name: string): Option<FieldType> {
    if name == "double" then Some(TDouble) else if name == "float" then Some(TFloat)
    else if name == "int64" then Some(TInt64) else if name == "uint64" then Some(TUint64)
    else if name == "int32" then Some(TInt32) else if name == "fixed64" then Some(TFixed64)
    else if name == "fixed32" then Some(TFixed32) else if name == "bool" then Some(TBool)
    else if name == "string" then Some(TString) else if name == "bytes" then Some(TBytes)
    else if name == "uint32" then Some(TUint32) else if name == "sfixed32" then Some(TSfixed32)
    else if name == "sfixed64" then Some(TSfixed64) else if name == "sint32" then Some(TSint32)
    else if name == "sint64" then Some(TSint64) else None
  }

  function ResolveType(name: string): (Option<FieldType>, Option<string>) {
    if ScalarType(name).Some? then (ScalarType(name), None) else (Some(TMessage), Some(name))
  }

  function AddFieldTo(m: Message, o: ProtoOp): Result<Message, MutationError>
    requires o.AddField?
  {
    var number := Wrap32(o.number);
    if CarriesNumber(m, number) then Failure(FieldNumberConflict(o.number))
    else if NumberReserved(m, number) then Failure(FieldNumberReserved(o.number))
    else
      var (lbl, optional) :- CardinalityToLabel(o.cardinality);
      var (ty, typeName) := ResolveType(o.fieldType);
      var oneofs := if optional then m.oneofDecl + [OneofDescriptor(Some("_" + o.field), None)] else m.oneofDecl;
      var field := Field(Some(o.field), Some(number), lbl, ty, typeName, None, None,
                         if optional then Some(Wrap32(|m.oneofDecl|)) else None,
                         Some(o.jsonName), None, if optional then Some(true) else None, None);
      Success(m.(oneofDecl := oneofs, field := m.field + [field]))
  }

  function RemoveFieldFrom(m: Message, o: ProtoOp): Result<Message, MutationError>
    requires o.RemoveField?
  {
    match FindField(m.field, o.field)
    case None => Failure(FieldNotFound(o.message, o.field))
    case Some(i) =>
      var gone := m.field[i];
      // The range end is exclusive; at the largest number it wraps.
      var ranges := if gone.number.Some? then [ReservedRange(gone.number, Some(Wrap32(gone.number.value + 1)))] else [];
      Success(m.(field := m.field[..i] + m.field[i + 1..],
                 reservedRange := m.reservedRange + ranges,
                 reservedName := m.reservedName + [o.field]))
  }

  function RenameFieldIn(m: Message, o: ProtoOp): Result<Message, MutationError>
    requires o.RenameField?
  {
    match FindField(m.field, o.field)
    case None => Failure(FieldNotFound(o.message, o.field))
    case Some(i) =>
      Success(m.(field := m.field[i := m.field[i].(name := Some(o.newName), jsonName := Some(o.jsonName))]))
  }

  datatype WireType = Varint | I64 | LengthDelimited | Group | I32

  function WireOf(t: FieldType): WireType {
    match t
    case TDouble | TFixed64 | TSfixed64 => I64
    case TFloat | TFixed32 | TSfixed32 => I32
    case TString | TBytes | TMessage => LengthDelimited
    case TGroup => Group
    case _ => Varint
  }

  function WireOfField(name: string, ty: Option<FieldType>): WireType {
    if ty.Some? then WireOf(ty.value)
    else if ScalarType(name).Some? then WireOf(ScalarType(name).value)
    else LengthDelimited
  }

  datatype TypeChange = FullyCompat | BackwardOnly | Breaking

  function AllowKey(name: string, ty: Option<FieldType>): string {
    if ty == Some(TEnum) then "enum" else name
  }

  predicate FullyAllowed(a: string, b: string) {
    || (a == "int32" && b in ["int64", "uint32", "bool", "enum"])
    || (a == "uint32" && b in ["uint64", "int32", "enum"])
    || (a == "sint32" && b == "sint64")
    || (a == "string" && b == "bytes")
    || (a == "bytes" && b == "string")
    || (a == "enum" && b in ["int32", "uint32", "int64", "uint64"])
  }

  predicate BackwardAllowed(a: string, b: string) {
    || (a == "int64" && b == "int32")
    || (a == "sint64" && b == "sint32")
    || (a == "uint64" && b == "uint32")
  }

  function ClassifyTypeChange(from: string, fromTy: Option<FieldType>, to: string, toTy: Option<FieldType>)
    : TypeChange
  {
    if from == to then FullyCompat
    else if WireOfField(from, fromTy) != WireOfField(to, toTy) then Breaking
    else if FullyAllowed(AllowKey(from, fromTy), AllowKey(to, toTy)) then FullyCompat
    else if BackwardAllowed(AllowKey(from, fromTy), AllowKey(to, toTy)) then BackwardOnly
    else Breaking
  }

  function ScalarName(t: FieldType): string {
    match t
    case TDouble => "double" case TFloat => "float" case TInt64 => "int64" case TUint64 => "uint64"
    case TInt32 => "int32" case TFixed64 => "fixed64" case TFixed32 => "fixed32" case TBool => "bool"
    case TString => "string" case TGroup => "group" case TMessage => "message" case TBytes => "bytes"
    case TUint32 => "uint32" case TEnum => "enum" case TSfixed32 => "sfixed32" case TSfixed64 => "sfixed64"
    case TSint32 => "sint32" case TSint64 => "sint64"
  }

  /** Kinds whose spelling is the name of a declaration. */
  predicate IsNamedKind(t: FieldType) { t.TMessage? || t.TEnum? || t.TGroup? }

  /** The `.proto` spelling of a field's type. */
  function TypeNameOf(f: Field): string {
    if f.fieldType.None? then f.typeName.GetOr("")
    else if IsNamedKind(f.fieldType.value) then Simple(f.typeName.GetOr(""))
    else ScalarName(f.fieldType.value)
  }

  function ChangeFieldTypeIn(m: Message, o: ProtoOp): Result<Message, MutationError>
    requires o.ChangeFieldType?
  {
    match FindField(m.field, o.field)
    case None => Failure(FieldNotFound(o.message, o.field))
    case Some(i) =>
      var f := m.field[i];
      var (ty, typeName) := ResolveType(o.newType);
      if ClassifyTypeChange(TypeNameOf(f), f.fieldType, o.newType, ty) == Breaking then Failure(InvalidOperation)
      else Success(m.(field := m.field[i := f.(fieldType := ty, typeName := typeName)]))
  }

  function ChangeCardinalityIn(m: Message, o: ProtoOp): Result<Message, MutationError>
    requires o.ChangeCardinality?
  {
    var (lbl, optional) :- CardinalityToLabel(o.cardinality);
    match FindField(m.field, o.field)
    case None => Failure(FieldNotFound(o.message, o.field))
    case Some(i) =>
      var f := m.field[i].(fieldLabel := lbl, proto3Optional := if optional then Some(true) else None);
      Success(m.(field := m.field[i := f]))
  }

  function FieldNames(fs: seq<Field>): set<string> {
    set f | f in fs && f.name.Some? :: f.name.value
  }

  function Elements(order: seq<string>): set<string> {
    set n | n in order
  }

  function ReorderFieldsIn(m: Message, o: ProtoOp): Result<Message, MutationError>
    requires o.ReorderFields?
  {
    if FieldNames(m.field) != Elements(o.order) then Failure(InvalidOperation)
    else Success(m.(field := Pick(o.order, ByName(m.field, FieldName))))
  }

  // ----- references -----

  predicate RefMatches(r: Option<string>, target: string) {
    r.Some? && Simple(r.value) == target
  }

  predicate FieldReferences(f: Field, target: string) {
    RefMatches(f.typeName, target) || RefMatches(f.extendee, target)
  }

  predicate MessageReferences(m: Message, target: string)
    decreases m, 1
  {
    || (exists i :: 0 <= i < |m.field| && FieldReferences(m.field[i], target))
    || (exists i :: 0 <= i < |m.extension| && FieldReferences(m.extension[i], target))
    || NestedReferences(m.nestedType, target)
  }

  predicate NestedReferences(ms: seq<Message>, target: string)
    decreases ms, 0
  {
    ms != [] && (MessageReferences(ms[0], target) || NestedReferences(ms[1..], target))
  }

  predicate MethodReferences(m: RpcMethod, target: string) {
    RefMatches(m.inputType, target) || RefMatches(m.outputType, target)
  }

  predicate ServiceReferences(s: Service, target: string) {
    exists i :: 0 <= i < |s.rpcs| && MethodReferences(s.rpcs[i], target)
  }

  predicate FieldUsesValue(f: Field, enumName: string, value: string) {
    RefMatches(f.typeName, enumName) && f.defaultValue == Some(value)
  }

  predicate MessageUsesValue(m: Message, enumName: string, value: string)
    decreases m, 1
  {
    || (exists i :: 0 <= i < |m.field| && FieldUsesValue(m.field[i], enumName, value))
    || (exists i :: 0 <= i < |m.extension| && FieldUsesValue(m.extension[i], enumName, value))
    || NestedUsesValue(m.nestedType, enumName, value)
  }

  predicate NestedUsesValue(ms: seq<Message>, enumName: string, value: string)
    decreases ms, 0
  {
    ms != [] && (MessageUsesValue(ms[0], enumName, value) || NestedUsesValue(ms[1..], enumName, value))
  }

  /** Some declaration other than message `skip`, or a file extension, refers to `target`. */
  predicate Referenced(d: Doc, target: string, skip: Option<string>) {
    || (exists n :: n in d.messages && skip != Some(n) && MessageReferences(d.messages[n], target))
    || (exists n :: n in d.services && ServiceReferences(d.services[n], target))
    || (exists i :: 0 <= i < |d.meta.extension| && FieldReferences(d.meta.extension[i], target))
  }

  predicate ValueUsed(d: Doc, enumName: string, value: string) {
    || (exists n :: n in d.messages && MessageUsesValue(d.messages[n], enumName, value))
    || (exists i :: 0 <= i < |d.meta.extension| && FieldUsesValue(d.meta.extension[i], enumName, value))
  }

  // ----- renaming references -----

  function RenamedRef(r: Option<string>, from: string, to: string): Option<string> {
    if RefMatches(r, from) then Some(Qualifier(r.value) + to) else r
  }

  function RenamedField(f: Field, from: string, to: string): Field {
    f.(typeName := RenamedRef(f.typeName, from, to), extendee := RenamedRef(f.extendee, from, to))
  }

  function RenamedFields(fs: seq<Field>, from: string, to: string): (r: seq<Field>)
    ensures |r| == |fs|
    ensures forall i :: 0 <= i < |fs| ==> r[i] == RenamedField(fs[i], from, to)
  {
    seq(|fs|, i requires 0 <= i < |fs| => RenamedField(fs[i], from, to))
  }

  function RenamedRefs(m: Message, from: string, to: string): Message
    decreases m, 1
  {
    m.(field := RenamedFields(m.field, from, to), extension := RenamedFields(m.extension, from, to),
       nestedType := RenamedNested(m.nestedType, from, to))
  }

  function RenamedNested(ms: seq<Message>, from: string, to: string): (r: seq<Message>)
    ensures |r| == |ms|
    decreases ms, 0
  {
    if ms == [] then [] else [RenamedRefs(ms[0], from, to)] + RenamedNested(ms[1..], from, to)
  }

  function RenamedService(s: Service, from: string, to: string): Service {
    s.(rpcs := seq(|s.rpcs|, i requires 0 <= i < |s.rpcs| =>
         s.rpcs[i].(inputType := RenamedRef(s.rpcs[i].inputType, from, to),
                    outputType := RenamedRef(s.rpcs[i].outputType, from, to))))
  }

  function RenamedValueField(f: Field, enumName: string, from: string, to: string): Field {
    if FieldUsesValue(f, enumName, from) then f.(defaultValue := Some(to)) else f
  }

  function RenamedValueFields(fs: seq<Field>, enumName: string, from: string, to: string): (r: seq<Field>)
    ensures |r| == |fs|
    ensures forall i :: 0 <= i < |fs| ==> r[i] == RenamedValueField(fs[i], enumName, from, to)
  {
    seq(|fs|, i requires 0 <= i < |fs| => RenamedValueField(fs[i], enumName, from, to))
  }

  function RenamedValue(m: Message, enumName: string, from: string, to: string): Message
    decreases m, 1
  {
    m.(field := RenamedValueFields(m.field, enumName, from, to),
       extension := RenamedValueFields(m.extension, enumName, from, to),
       nestedType := RenamedValueNested(m.nestedType, enumName, from, to))
  }

  function RenamedValueNested(ms: seq<Message>, enumName: string, from: string, to: string): (r: seq<Message>)
    ensures |r| == |ms|
    decreases ms, 0
  {
    if ms == [] then [] else [RenamedValue(ms[0], enumName, from, to)] + RenamedValueNested(ms[1..], enumName, from, to)
  }

  // ----- documents -----

  function RenamedMessages(messages: map<string, Message>, from: string, to: string): map<string, Message> {
    map n | n in messages :: RenamedRefs(messages[n], from, to)
  }

  function RenamedServices(services: map<string, Service>, from: string, to: string): map<string, Service> {
    map n | n in services :: RenamedService(services[n], from, to)
  }

  function RenamedMeta(m: Meta, from: string, to: string): Meta {
    m.(extension := RenamedFields(m.extension, from, to), messageOrder := RenamedOrder(m.messageOrder, from, to))
  }

  function RenameMessageIn(d: Doc, from: string, to: string): Result<Doc, MutationError> {
    if from != to && Exists(d, to) then Failure(InvalidOperation)
    else if from !in d.messages then Failure(DeclarationNotFound(from))
    else
      var messages := (d.messages - {from})[to := d.messages[from].(name := Some(to))];
      Success(Doc(RenamedMessages(messages, from, to), d.enums, RenamedServices(d.services, from, to),
                  RenamedMeta(d.meta, from, to)))
  }

  function FindValue(vs: seq<EnumValue>, name: string): (r: Option<nat>)
    ensures r.Some? ==> r.value < |vs| && vs[r.value].name == Some(name)
    ensures r.None? ==> forall i :: 0 <= i < |vs| ==> vs[i].name != Some(name)
  {
    if vs == [] then None
    else if vs[0].name == Some(name) then Some(0)
    else
      match FindValue(vs[1..], name)
      case None => None
      case Some(i) => Some(i + 1)
  }

  predicate EnumNumberReserved(e: Enum, number: i32) {
    exists i :: 0 <= i < |e.reservedRange|
      && e.reservedRange[i].start.GetOr(I32_MAX) <= number <= e.reservedRange[i].end.GetOr(I32_MIN)
  }

  function AddEnumValueTo(e: Enum, o: ProtoOp, proto3: bool): Result<Enum, MutationError>
    requires o.AddEnumValue?
  {
    if FindValue(e.value, o.value).Some? then Failure(InvalidOperation)
    else if o.value in e.reservedName then Failure(InvalidOperation)
    else if EnumNumberReserved(e, o.valueNumber) then Failure(InvalidOperation)
    else if (exists i :: 0 <= i < |e.value| && e.value[i].number == Some(o.valueNumber))
            && !(e.options.Some? && e.options.value.allowAlias == Some(true)) then Failure(InvalidOperation)
    else if proto3 && e.value == [] && o.valueNumber != 0 then Failure(InvalidOperation)
    else Success(e.(value := e.value + [EnumValue(Some(o.value), Some(o.valueNumber), None, None)]))
  }

  function RemoveEnumValueFrom(e: Enum, o: ProtoOp): Result<Enum, MutationError>
    requires o.RemoveEnumValue?
  {
    match FindValue(e.value, o.value)
    case None => Failure(FieldNotFound(o.enumName, o.value))
    case Some(i) =>
      var n := e.value[i].number;
      Success(e.(value := e.value[..i] + e.value[i + 1..],
                 reservedRange := e.reservedRange + (if n.Some? then [ReservedRange(n, n)] else []),
                 reservedName := e.reservedName + [o.value]))
  }

  function RenamedValueMessages(messages: map<string, Message>, enumName: string, from: string, to: string)
    : map<string, Message>
  {
    map n | n in messages :: RenamedValue(messages[n], enumName, from, to)
  }

  function RenameEnumValueIn(d: Doc, o: ProtoOp): Result<Doc, MutationError>
    requires o.RenameEnumValue?
  {
    if o.enumName !in d.enums then Failure(DeclarationNotFound(o.enumName))
    else
      var e := d.enums[o.enumName];
      if FindValue(e.value, o.newName).Some? then Failure(InvalidOperation)
      else
        match FindValue(e.value, o.value)
        case None => Failure(FieldNotFound(o.enumName, o.value))
        case Some(i) =>
          Success(Doc(RenamedValueMessages(d.messages, o.enumName, o.value, o.newName),
                      d.enums[o.enumName := e.(value := e.value[i := e.value[i].(name := Some(o.newName))])],
                      d.services,
                      d.meta.(extension := RenamedValueFields(d.meta.extension, o.enumName, o.value, o.newName))))
  }

  function FindRpc(rpcs: seq<RpcMethod>, name: string): (r: Option<nat>)
    ensures r.Some? ==> r.value < |rpcs| && rpcs[r.value].name == Some(name)
    ensures r.None? ==> forall i :: 0 <= i < |rpcs| ==> rpcs[i].name != Some(name)
  {
    if rpcs == [] then None
    else if rpcs[0].name == Some(name) then Some(0)
    else
      match FindRpc(rpcs[1..], name)
      case None => None
      case Some(i) => Some(i + 1)
  }

  function EditService(s: Service, o: ProtoOp): Result<Service, MutationError>
    requires EditsService(o)
  {
    var at := FindRpc(s.rpcs, o.rpc);
    if o.AddRpc? then
      if at.Some? then Failure(InvalidOperation)
      else Success(s.(rpcs := s.rpcs + [RpcMethod(Some(o.rpc), Some(o.request), Some(o.response), None,
                                                  Some(o.clientStreaming), Some(o.serverStreaming))]))
    else if o.RenameRpc? && FindRpc(s.rpcs, o.newName).Some? then Failure(InvalidOperation)
    else
      match at
      case None => Failure(FieldNotFound(o.service, o.rpc))
      case Some(i) =>
        if o.RemoveRpc? then Success(s.(rpcs := s.rpcs[..i] + s.rpcs[i + 1..]))
        else if o.RenameRpc? then Success(s.(rpcs := s.rpcs[i := s.rpcs[i].(name := Some(o.newName))]))
        else
          var m := s.rpcs[i];
          Success(s.(rpcs := s.rpcs[i := m.(
            inputType := if o.newRequest == "" then m.inputType else Some(o.newRequest),
            outputType := if o.newResponse == "" then m.outputType else Some(o.newResponse))]))
  }

  // ----- imports -----

  /** Drop the marker at `pos` and shift the ones above it down. */
  function Reindexed(indices: seq<i32>, pos: nat): seq<i32> {
    if indices == [] then []
    else
      var rest := Reindexed(indices[1..], pos);
      var at: int := Wrap32(pos);
      if indices[0] == at then rest
      else if indices[0] > at then [Wrap32(indices[0] - 1)] + rest
      else [indices[0]] + rest
  }

  function UpdateImportIn(m: Meta, path: string, commit: string, remove: bool): Meta {
    var pins := Resized(m.dependencyCommit, |m.dependency|);
    match IndexOf(m.dependency, path)
    case Some(pos) =>
      if remove then
        m.(dependency := m.dependency[..pos] + m.dependency[pos + 1..],
           dependencyCommit := pins[..pos] + pins[pos + 1..],
           publicDependency := Reindexed(m.publicDependency, pos),
           weakDependency := Reindexed(m.weakDependency, pos))
      else m.(dependencyCommit := pins[pos := commit])
    case None =>
      if remove then m.(dependencyCommit := pins)
      else m.(dependency := m.dependency + [path], dependencyCommit := pins + [commit])
  }

  // ----- one operation -----

  predicate EditsMessage(op: ProtoOp) {
    || op.AddField? || op.RemoveField? || op.RenameField?
    || op.ChangeFieldType? || op.ChangeCardinality? || op.ReorderFields?
  }

  function EditMessage(m: Message, op: ProtoOp): Result<Message, MutationError>
    requires EditsMessage(op)
  {
    match op
    case AddField(_, _, _, _, _, _) => AddFieldTo(m, op)
    case RemoveField(_, _) => RemoveFieldFrom(m, op)
    case RenameField(_, _, _, _) => RenameFieldIn(m, op)
    case ChangeFieldType(_, _, _) => ChangeFieldTypeIn(m, op)
    case ChangeCardinality(_, _, _) => ChangeCardinalityIn(m, op)
    case ReorderFields(_, _) => ReorderFieldsIn(m, op)
  }

  function EditMessageIn(d: Doc, op: ProtoOp): Result<Doc, MutationError>
    requires EditsMessage(op)
  {
    if op.ChangeCardinality? && CardinalityToLabel(op.cardinality).Failure? then Failure(InvalidOperation)
    else if op.message !in d.messages then Failure(DeclarationNotFound(op.message))
    else
      var m :- EditMessage(d.messages[op.message], op);
      Success(d.(messages := d.messages[op.message := m]))
  }

  function CreateMessageIn(d: Doc, name: string): Result<Doc, MutationError> {
    if Exists(d, name) then Failure(InvalidOperation)
    else Success(d.(messages := d.messages[name := EmptyMessage.(name := Some(name))],
                    meta := d.meta.(messageOrder := d.meta.messageOrder + [name])))
  }

  function DeleteMessageIn(d: Doc, name: string, defer: bool): Result<Doc, MutationError> {
    if name !in d.messages then Failure(DeclarationNotFound(name))
    else if !defer && Referenced(d, name, Some(name)) then Failure(InvalidOperation)
    else Success(d.(messages := d.messages - {name},
                    meta := d.meta.(messageOrder := Without(d.meta.messageOrder, name))))
  }

  function CreateEnumIn(d: Doc, name: string): Result<Doc, MutationError> {
    if Exists(d, name) then Failure(InvalidOperation)
    else Success(d.(enums := d.enums[name := EmptyEnum.(name := Some(name))],
                    meta := d.meta.(enumOrder := d.meta.enumOrder + [name])))
  }

  function DeleteEnumIn(d: Doc, name: string, defer: bool): Result<Doc, MutationError> {
    if name !in d.enums then Failure(DeclarationNotFound(name))
    else if !defer && Referenced(d, name, None) then Failure(InvalidOperation)
    else Success(d.(enums := d.enums - {name}, meta := d.meta.(enumOrder := Without(d.meta.enumOrder, name))))
  }

  function AddEnumValueIn(d: Doc, op: ProtoOp): Result<Doc, MutationError>
    requires op.AddEnumValue?
  {
    if op.enumName !in d.enums then Failure(DeclarationNotFound(op.enumName))
    else
      var e :- AddEnumValueTo(d.enums[op.enumName], op, d.meta.syntax == Some("proto3"));
      Success(d.(enums := d.enums[op.enumName := e]))
  }

  function RemoveEnumValueIn(d: Doc, op: ProtoOp, defer: bool): Result<Doc, MutationError>
    requires op.RemoveEnumValue?
  {
    if !defer && ValueUsed(d, op.enumName, op.value) then Failure(InvalidOperation)
    else if op.enumName !in d.enums then Failure(DeclarationNotFound(op.enumName))
    else
      var e :- RemoveEnumValueFrom(d.enums[op.enumName], op);
      Success(d.(enums := d.enums[op.enumName := e]))
  }

  predicate EditsEnum(op: ProtoOp) {
    op.AddEnumValue? || op.RemoveEnumValue? || op.RenameEnumValue?
  }

  function EditEnumIn(d: Doc, op: ProtoOp, defer: bool): Result<Doc, MutationError>
    requires EditsEnum(op)
  {
    match op
    case AddEnumValue(_, _, _) => AddEnumValueIn(d, op)
    case RemoveEnumValue(_, _) => RemoveEnumValueIn(d, op, defer)
    case RenameEnumValue(_, _, _) => RenameEnumValueIn(d, op)
  }

  function AddServiceIn(d: Doc, name: string): Result<Doc, MutationError> {
    if Exists(d, name) then Failure(InvalidOperation)
    else Success(d.(services := d.services[name := EmptyService.(name := Some(name))],
                    meta := d.meta.(serviceOrder := d.meta.serviceOrder + [name])))
  }

  function RemoveServiceIn(d: Doc, name: string): Result<Doc, MutationError> {
    if name !in d.services then Failure(DeclarationNotFound(name))
    else Success(d.(services := d.services - {name},
                    meta := d.meta.(serviceOrder := Without(d.meta.serviceOrder, name))))
  }

  function RenameServiceIn(d: Doc, from: string, to: string): Result<Doc, MutationError> {
    if from != to && Exists(d, to) then Failure(InvalidOperation)
    else if from !in d.services then Failure(DeclarationNotFound(from))
    else Success(d.(services := (d.services - {from})[to := d.services[from].(name := Some(to))],
                    meta := d.meta.(serviceOrder := RenamedOrder(d.meta.serviceOrder, from, to))))
  }

  predicate EditsService(op: ProtoOp) {
    op.AddRpc? || op.RemoveRpc? || op.RenameRpc? || op.ChangeRpcType?
  }

  function EditServiceIn(d: Doc, op: ProtoOp): Result<Doc, MutationError>
    requires EditsService(op)
  {
    if op.service !in d.services then Failure(DeclarationNotFound(op.service))
    else
      var s :- EditService(d.services[op.service], op);
      Success(d.(services := d.services[op.service := s]))
  }

  function ApplyOp(d: Doc, op: ProtoOp, defer: bool): Result<Doc, MutationError> {
    if EditsMessage(op) then EditMessageIn(d, op)
    else if EditsService(op) then EditServiceIn(d, op)
    else if EditsEnum(op) then EditEnumIn(d, op, defer)
    else
      match op
      case ChangeFieldNumber(_, _, _) => Failure(InvalidOperation)
      case CreateMessage(name) => CreateMessageIn(d, name)
      case RenameMessage(from, to) => RenameMessageIn(d, from, to)
      case DeleteMessage(name) => DeleteMessageIn(d, name, defer)
      case CreateEnum(name) => CreateEnumIn(d, name)
      case DeleteEnum(name) => DeleteEnumIn(d, name, defer)
      case AddService(name) => AddServiceIn(d, name)
      case RemoveService(name) => RemoveServiceIn(d, name)
      case RenameService(from, to) => RenameServiceIn(d, from, to)
      case UpdateImport(path, commit, remove) => Success(d.(meta := UpdateImportIn(d.meta, path, commit, remove)))
  }

  /** Postponing reference checks changes what is accepted, never the result. */
  lemma DeferOnlyAccepts(d: Doc, op: ProtoOp)
    ensures ApplyOp(d, op, false).Success? ==> ApplyOp(d, op, true) == ApplyOp(d, op, false)
  {}

  lemma EditKeepsKindsApart(d: Doc, op: ProtoOp)
    requires KindsApart(d)
    ensures EditsMessage(op) && EditMessageIn(d, op).Success? ==> KindsApart(EditMessageIn(d, op).value)
    ensures EditsService(op) && EditServiceIn(d, op).Success? ==> KindsApart(EditServiceIn(d, op).value)
  {}

  lemma ApplyKeepsKindsApart(d: Doc, op: ProtoOp, defer: bool)
    requires KindsApart(d)
    ensures ApplyOp(d, op, defer).Success? ==> KindsApart(ApplyOp(d, op, defer).value)
  {
    if EditsMessage(op) || EditsService(op) {
      EditKeepsKindsApart(d, op);
    }
  }

  /** A run of operations, stopping at the first failure. */
  function Run(d: Doc, ops: seq<ProtoOp>, defer: bool): Result<Doc, MutationError>
    decreases |ops|
  {
    if ops == [] then Success(d)
    else
      var next :- ApplyOp(d, ops[0], defer);
      Run(next, ops[1..], defer)
  }

  /** Every name declared at the start of a run or by the end of any of its operations. */
  function Ever(d: Doc, ops: seq<ProtoOp>, defer: bool): set<string>
    decreases |ops|
  {
    NamesOf(d) +
    if ops == [] then {}
    else
      match ApplyOp(d, ops[0], defer)
      case Failure(_) => {}
      case Success(next) => Ever(next, ops[1..], defer)
  }

  /** The enum values some operation of a run removed. */
  function RemovedValues(ops: seq<ProtoOp>): set<(string, string)> {
    set i | 0 <= i < |ops| && ops[i].RemoveEnumValue? :: (ops[i].enumName, ops[i].value)
  }
}
