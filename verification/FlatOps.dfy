/** The FlatBuffers declarations a file holds and the mutation operations as functions on the stored schema. */
module FlatOps {
  import opened Wrappers
  import opened Text
  import opened NameLists
  import opened Wire
  import opened Effects

  const U32 := 0x1_0000_0000
  const I64_MAX := 0x7FFF_FFFF_FFFF_FFFF

  datatype BaseType =
    | BNone | BUType | BBool | BByte | BUByte | BShort | BUShort | BInt | BUInt | BLong | BULong | BFloat | BDouble
    | BString | BVector | BTable | BStruct | BUnion | BArray | BVector64

  datatype Type = Type(base: Option<BaseType>, element: Option<BaseType>, fixedLength: Option<nat>,
                       name: Option<string>)

  /** Attributes are key/value pairs; `deprecated` has no value. */
  datatype Attribute = Attribute(key: Option<string>, value: Option<string>)

  /** A default as its spelling classifies it: an integer, a real, or anything else. */
  datatype Default = IntDefault(i: i64) | RealDefault(r: real) | TextDefault(s: string)

  datatype Field = Field(
    name: Option<string>, ty: Option<Type>, id: Option<u32>, defaultInteger: Option<i64>, defaultReal: Option<real>,
    defaultString: Option<string>, isDeprecated: bool, attributes: Option<seq<Attribute>>,
    documentation: Option<seq<string>>)

  /** A table or a struct. */
  datatype Object = Object(
    name: Option<string>, fields: seq<Field>, isStruct: bool, attributes: Option<seq<Attribute>>,
    documentation: Option<seq<string>>)

  datatype EnumVal = EnumVal(name: Option<string>, value: Option<i64>, unionType: Option<Type>,
                         documentation: Option<seq<string>>)

  /** An enum or a union. */
  datatype Enum = Enum(
    name: Option<string>, isUnion: bool, underlying: Option<Type>, values: seq<EnumVal>,
    documentation: Option<seq<string>>)

  datatype Call = Call(name: Option<string>, request: Option<Object>, response: Option<Object>)

  datatype Service = Service(name: Option<string>, calls: seq<Call>)

  datatype Payload = ObjectDecl(obj: Object) | EnumDecl(enumeration: Enum) | ServiceDecl(service: Service)

  datatype FlatMeta = FlatMeta(
    namespace: Option<string>, includes: seq<string>, includeCommits: seq<string>, rootType: Option<string>,
    fileIdent: Option<string>, fileExt: Option<string>, declOrder: seq<string>, declaredAttributes: seq<string>)

  type Doc = Schema<Payload, FlatMeta>

  datatype Kind = TableKind | EnumKind | UnionKind

  /** Rename and delete exist for each kind of declaration. */
  datatype FlatOp =
    | AddField(table: string, field: string, fieldType: string, default: Option<Default>, doc: Option<string>)
    | DeprecateField(table: string, field: string)
    | RenameField(table: string, field: string, newName: string)
    | ChangeFieldType(table: string, field: string, newType: string)
    | RemoveField(table: string, field: string)
    | CreateTable(name: string, doc: Option<string>)
    | CreateEnum(name: string, underlying: string, doc: Option<string>)
    | CreateUnion(name: string, doc: Option<string>)
    | CreateUnionWithMembers(name: string, members: seq<string>, doc: Option<string>)
    | AddUnionMember(name: string, member: string)
    | RemoveUnionMember(name: string, member: string)
    | RenameDecl(kind: Kind, name: string, newName: string)
    | DeleteDecl(kind: Kind, name: string)
    | AddEnumValue(name: string, value: string, number: i64)
    | RemoveEnumValue(name: string, value: string)
    | RenameEnumValue(name: string, value: string, newName: string)
    | UpdateImport(path: string, commit: string, remove: bool)

  // ----- types -----

  function LookupScalar(name: string): Option<BaseType> {
    if name == "bool" then Some(BBool)
    else if name == "byte" || name == "int8" then Some(BByte)
    else if name == "ubyte" || name == "uint8" then Some(BUByte)
    else if name == "short" || name == "int16" then Some(BShort)
    else if name == "ushort" || name == "uint16" then Some(BUShort)
    else if name == "int" || name == "int32" then Some(BInt)
    else if name == "uint" || name == "uint32" then Some(BUInt)
    else if name == "long" || name == "int64" then Some(BLong)
    else if name == "ulong" || name == "uint64" then Some(BULong)
    else if name == "float" || name == "float32" then Some(BFloat)
    else if name == "double" || name == "float64" then Some(BDouble)
    else if name == "string" then Some(BString)
    else None
  }

  /** A type from its spelling: a vector, a scalar, or a name. */
  function ParseTypeSpec(spec: string): Type
    decreases |spec|
  {
    var s := Trim(spec);
    if |s| >= 2 && s[0] == '[' && s[|s| - 1] == ']' then
      var element := ParseTypeSpec(s[1..|s| - 1]);
      Type(Some(BVector), element.base, None, element.name)
    else if LookupScalar(s).Some? then Type(LookupScalar(s), None, None, None)
    else Type(Some(BTable), None, None, Some(s))
  }

  // ----- references -----

  predicate TypeNameMatches(name: string, target: string) {
    name == target || Simple(name) == target
  }

  predicate Matches(name: Option<string>, target: string) {
    name.Some? && TypeNameMatches(name.value, target)
  }

  function NameOfType(t: Option<Type>): Option<string> {
    if t.Some? then t.value.name else None
  }

  function NameOfObject(o: Option<Object>): Option<string> {
    if o.Some? then o.value.name else None
  }

  predicate FieldRefers(f: Field, target: string) { Matches(NameOfType(f.ty), target) }

  predicate ValueRefers(v: EnumVal, target: string) { Matches(NameOfType(v.unionType), target) }

  predicate CallRefers(c: Call, target: string) {
    Matches(NameOfObject(c.request), target) || Matches(NameOfObject(c.response), target)
  }

  predicate PayloadReferences(p: Payload, target: string) {
    match p
    case ObjectDecl(o) => exists i :: 0 <= i < |o.fields| && FieldRefers(o.fields[i], target)
    case EnumDecl(e) => e.isUnion && exists i :: 0 <= i < |e.values| && ValueRefers(e.values[i], target)
    case ServiceDecl(s) => exists i :: 0 <= i < |s.calls| && CallRefers(s.calls[i], target)
  }

  /** A declaration other than `skip`, or the root type, refers to `target`. */
  predicate Referenced(d: Doc, target: string, skip: Option<string>) {
    || (exists n :: n in d.decls && skip != Some(n) && PayloadReferences(d.decls[n], target))
    || Matches(d.meta.rootType, target)
  }

  predicate FieldDefaultsTo(f: Field, enumName: string, value: string) {
    FieldRefers(f, enumName) && f.defaultString == Some(value)
  }

  predicate PayloadDefaultsTo(p: Payload, enumName: string, value: string) {
    p.ObjectDecl? && exists i :: 0 <= i < |p.obj.fields| && FieldDefaultsTo(p.obj.fields[i], enumName, value)
  }

  predicate ValueUsed(d: Doc, enumName: string, value: string) {
    exists n :: n in d.decls && PayloadDefaultsTo(d.decls[n], enumName, value)
  }

  // ----- rewriting references -----

  function RenamedName(name: Option<string>, from: string, to: string): Option<string> {
    if Matches(name, from) then Some(Qualifier(name.value) + to) else name
  }

  function RenamedType(t: Option<Type>, from: string, to: string): Option<Type> {
    if t.Some? then Some(t.value.(name := RenamedName(t.value.name, from, to))) else None
  }

  function RenamedObjectRef(o: Option<Object>, from: string, to: string): Option<Object> {
    if o.Some? then Some(o.value.(name := RenamedName(o.value.name, from, to))) else None
  }

  function RenamedFieldRef(f: Field, from: string, to: string): Field {
    f.(ty := RenamedType(f.ty, from, to))
  }

  /** A union member that carries the old name as its own is renamed with its type. */
  function RenamedMember(v: EnumVal, from: string, to: string): EnumVal {
    v.(unionType := RenamedType(v.unionType, from, to),
       name := if ValueRefers(v, from) && v.name == Some(from) then Some(to) else v.name)
  }

  function RenamedCall(c: Call, from: string, to: string): Call {
    c.(request := RenamedObjectRef(c.request, from, to), response := RenamedObjectRef(c.response, from, to))
  }

  function RenamedPayload(p: Payload, from: string, to: string): Payload {
    match p
    case ObjectDecl(o) =>
      ObjectDecl(o.(fields := seq(|o.fields|, i requires 0 <= i < |o.fields| =>
                                    RenamedFieldRef(o.fields[i], from, to))))
    case EnumDecl(e) =>
      if e.isUnion then
        EnumDecl(e.(values := seq(|e.values|, i requires 0 <= i < |e.values| => RenamedMember(e.values[i], from, to))))
      else p
    case ServiceDecl(s) =>
      ServiceDecl(s.(calls := seq(|s.calls|, i requires 0 <= i < |s.calls| => RenamedCall(s.calls[i], from, to))))
  }

  function RenamedDecls(decls: map<string, Payload>, from: string, to: string): map<string, Payload> {
    map n | n in decls :: RenamedPayload(decls[n], from, to)
  }

  function RenamedMeta(m: FlatMeta, from: string, to: string): FlatMeta {
    m.(rootType := RenamedName(m.rootType, from, to), declOrder := RenamedOrder(m.declOrder, from, to))
  }

  function RenamedDefault(f: Field, enumName: string, from: string, to: string): Field {
    if FieldDefaultsTo(f, enumName, from) then f.(defaultString := Some(to)) else f
  }

  function RenamedDefaults(p: Payload, enumName: string, from: string, to: string): Payload {
    if p.ObjectDecl? then
      ObjectDecl(p.obj.(fields := seq(|p.obj.fields|, i requires 0 <= i < |p.obj.fields| =>
                                           RenamedDefault(p.obj.fields[i], enumName, from, to))))
    else p
  }

  // ----- tables -----

  function FindField(fs: seq<Field>, name: string): (r: Option<nat>)
    ensures r.Some? ==> r.value < |fs| && fs[r.value].name == Some(name)
    ensures r.None? ==> forall i :: 0 <= i < |fs| ==> fs[i].name != Some(name)
  {
    if fs == [] then None
    else if fs[0].name == Some(name) then Some(0)
    else
      match FindField(fs[1..], name)
      case None => None
      case Some(i) => Some(i + 1)
  }

  /** Wire slot: the explicit id, else the position. */
  function SlotOf(f: Field, position: nat): u32 {
    f.id.GetOr(position % U32)
  }

  /** The largest slot in use. */
  function MaxSlot(fs: seq<Field>): (r: Option<u32>)
    ensures r.None? <==> fs == []
    ensures forall i :: 0 <= i < |fs| ==> SlotOf(fs[i], i) <= r.value
    ensures r.Some? ==> exists i :: 0 <= i < |fs| && SlotOf(fs[i], i) == r.value
  {
    if fs == [] then None
    else
      var last := |fs| - 1;
      var slot := SlotOf(fs[last], last);
      match MaxSlot(fs[..last])
      case None => Some(slot)
      case Some(m) => Some(if slot > m then slot else m)
  }

  /** One past the largest slot, in 32 bits. */
  function NextSlot(fs: seq<Field>): u32 {
    match MaxSlot(fs)
    case None => 0
    case Some(m) => (m + 1) % U32
  }

  function NewField(fs: seq<Field>, op: FlatOp): Field
    requires op.AddField?
  {
    Field(Some(op.field), Some(ParseTypeSpec(op.fieldType)), Some(NextSlot(fs)),
          if op.default.Some? && op.default.value.IntDefault? then Some(op.default.value.i) else None,
          if op.default.Some? && op.default.value.RealDefault? then Some(op.default.value.r) else None,
          if op.default.Some? && op.default.value.TextDefault? then Some(op.default.value.s) else None,
          false, None, if op.doc.Some? then Some([op.doc.value]) else None)
  }

  function Flagged(attributes: Option<seq<Attribute>>, key: string): Option<seq<Attribute>> {
    var entries := attributes.GetOr([]);
    if exists i :: 0 <= i < |entries| && entries[i].key == Some(key) then Some(entries)
    else Some(entries + [Attribute(Some(key), None)])
  }

  predicate EditsTable(op: FlatOp) {
    op.AddField? || op.DeprecateField? || op.RenameField? || op.ChangeFieldType?
  }

  function EditObject(o: Object, op: FlatOp): Result<Object, MutationError>
    requires EditsTable(op)
  {
    var at := FindField(o.fields, op.field);
    if o.isStruct then Failure(InvalidOperation)
    else if op.AddField? then
      if at.Some? then Failure(InvalidOperation)
      else Success(o.(fields := o.fields + [NewField(o.fields, op)]))
    else if op.RenameField? && FindField(o.fields, op.newName).Some? then Failure(InvalidOperation)
    else
      match at
      case None => Failure(FieldNotFound(op.table, op.field))
      case Some(i) =>
        var f := o.fields[i];
        var g :=
          if op.DeprecateField? then f.(isDeprecated := true, attributes := Flagged(f.attributes, "deprecated"))
          else if op.RenameField? then f.(name := Some(op.newName))
          else f.(ty := Some(ParseTypeSpec(op.newType)));
        Success(o.(fields := o.fields[i := g]))
  }

  /** A run of field operations on one table. */
  function EditAll(o: Object, ops: seq<FlatOp>): Result<Object, MutationError>
    decreases |ops|
  {
    if ops == [] then Success(o)
    else if !EditsTable(ops[0]) then Failure(InvalidOperation)
    else
      var next :- EditObject(o, ops[0]);
      EditAll(next, ops[1..])
  }

  // ----- enums and unions -----

  /** The largest number in use. */
  function MaxValue(vs: seq<EnumVal>): (r: Option<i64>)
    ensures forall i :: 0 <= i < |vs| && vs[i].value.Some? ==> r.Some? && vs[i].value.value <= r.value
    ensures r.Some? ==> exists i :: 0 <= i < |vs| && vs[i].value == r
  {
    if vs == [] then None
    else
      var rest := MaxValue(vs[1..]);
      if vs[0].value.None? then rest
      else if rest.Some? && rest.value >= vs[0].value.value then rest
      else vs[0].value
  }

  predicate IsMember(v: EnumVal, member: string) {
    v.name == Some(member) || ValueRefers(v, member)
  }

  function FindMember(vs: seq<EnumVal>, member: string): (r: Option<nat>)
    ensures r.Some? ==> r.value < |vs| && IsMember(vs[r.value], member)
    ensures r.None? ==> forall i :: 0 <= i < |vs| ==> !IsMember(vs[i], member)
  {
    if vs == [] then None
    else if IsMember(vs[0], member) then Some(0)
    else
      match FindMember(vs[1..], member)
      case None => None
      case Some(i) => Some(i + 1)
  }

  function FindValue(vs: seq<EnumVal>, name: string): (r: Option<nat>)
    ensures r.Some? ==> r.value < |vs| && vs[r.value].name == Some(name)
    ensures r.None? ==> forall i :: 0 <= i < |vs| ==> vs[i].name != Some(name)
  {
    if vs == [] then None
    else if vs[0].name == Some(name) then Some(0)
    else
      match FindValue(vs[1..], name)
      case None => None
      case Some(i) => Some(i + 1)
  }

  function WithoutValue(vs: seq<EnumVal>, name: string): seq<EnumVal> {
    if vs == [] then []
    else if vs[0].name == Some(name) then WithoutValue(vs[1..], name)
    else [vs[0]] + WithoutValue(vs[1..], name)
  }

  function EnumAt(d: Doc, name: string, isUnion: bool): Result<Enum, MutationError> {
    if name !in d.decls then Failure(DeclarationNotFound(name))
    else if !d.decls[name].EnumDecl? || d.decls[name].enumeration.isUnion != isUnion then Failure(InvalidOperation)
    else Success(d.decls[name].enumeration)
  }

  function Put(d: Doc, name: string, p: Payload): Doc {
    d.(decls := d.decls[name := p])
  }

  function CreateIn(d: Doc, name: string, p: Payload): Result<Doc, MutationError> {
    if name in d.decls then Failure(InvalidOperation)
    else Success(Put(d, name, p).(meta := d.meta.(declOrder := d.meta.declOrder + [name])))
  }

  function NewTable(name: string, doc: Option<string>): Payload {
    ObjectDecl(Object(Some(name), [], false, None, if doc.Some? then Some([doc.value]) else None))
  }

  function NewEnum(name: string, underlying: string, doc: Option<string>): Payload {
    EnumDecl(Enum(Some(name), false, Some(ParseTypeSpec(underlying)), [],
                  if doc.Some? then Some([doc.value]) else None))
  }

  function NewUnion(name: string, doc: Option<string>): Payload {
    EnumDecl(Enum(Some(name), true, Some(Type(Some(BUType), None, None, None)),
                  [EnumVal(Some("NONE"), Some(0), None, None)], if doc.Some? then Some([doc.value]) else None))
  }

  function AddMemberIn(d: Doc, name: string, member: string): Result<Doc, MutationError> {
    if member !in d.decls then Failure(DeclarationNotFound(member))
    else if !d.decls[member].ObjectDecl? || d.decls[member].obj.isStruct then Failure(InvalidOperation)
    else
      var e :- EnumAt(d, name, true);
      var top: int := MaxValue(e.values).GetOr(0);
      if FindMember(e.values, member).Some? || top == I64_MAX then Failure(InvalidOperation)
      else
        var value := EnumVal(Some(member), Some(top + 1), Some(Type(Some(BTable), None, None, Some(member))), None);
        Success(Put(d, name, EnumDecl(e.(values := e.values + [value]))))
  }

  function AddMembersIn(d: Doc, name: string, members: seq<string>): Result<Doc, MutationError>
    decreases |members|
  {
    if members == [] then Success(d)
    else
      var next :- AddMemberIn(d, name, members[0]);
      AddMembersIn(next, name, members[1..])
  }

  function RemoveMemberIn(d: Doc, name: string, member: string): Result<Doc, MutationError> {
    if member == "NONE" then Failure(InvalidOperation)
    else
      var e :- EnumAt(d, name, true);
      match FindMember(e.values, member)
      case None => Failure(FieldNotFound(name, member))
      case Some(i) => Success(Put(d, name, EnumDecl(e.(values := e.values[..i] + e.values[i + 1..]))))
  }

  function AddEnumValueIn(d: Doc, op: FlatOp): Result<Doc, MutationError>
    requires op.AddEnumValue?
  {
    var e :- EnumAt(d, op.name, false);
    if FindValue(e.values, op.value).Some? then Failure(InvalidOperation)
    else if exists i :: 0 <= i < |e.values| && e.values[i].value == Some(op.number) then Failure(InvalidOperation)
    else Success(Put(d, op.name,
                     EnumDecl(e.(values := e.values + [EnumVal(Some(op.value), Some(op.number), None, None)]))))
  }

  function RemoveEnumValueIn(d: Doc, op: FlatOp, defer: bool): Result<Doc, MutationError>
    requires op.RemoveEnumValue?
  {
    if !defer && ValueUsed(d, op.name, op.value) then Failure(InvalidOperation)
    else
      var e :- EnumAt(d, op.name, false);
      var kept := WithoutValue(e.values, op.value);
      if |kept| == |e.values| then Failure(FieldNotFound(op.name, op.value))
      else Success(Put(d, op.name, EnumDecl(e.(values := kept))))
  }

  function DefaultsRenamed(decls: map<string, Payload>, enumName: string, from: string, to: string)
    : map<string, Payload>
  {
    map n | n in decls :: RenamedDefaults(decls[n], enumName, from, to)
  }

  function RenameEnumValueIn(d: Doc, op: FlatOp): Result<Doc, MutationError>
    requires op.RenameEnumValue?
  {
    var e :- EnumAt(d, op.name, false);
    if FindValue(e.values, op.newName).Some? then Failure(InvalidOperation)
    else
      match FindValue(e.values, op.value)
      case None => Failure(FieldNotFound(op.name, op.value))
      case Some(i) =>
        var edited := EnumDecl(e.(values := e.values[i := e.values[i].(name := Some(op.newName))]));
        Success(d.(decls := DefaultsRenamed(d.decls[op.name := edited], op.name, op.value, op.newName)))
  }

  // ----- declarations -----

  predicate KindIs(p: Payload, kind: Kind) {
    match kind
    case TableKind => p.ObjectDecl? && !p.obj.isStruct
    case EnumKind => p.EnumDecl? && !p.enumeration.isUnion
    case UnionKind => p.EnumDecl? && p.enumeration.isUnion
  }

  function Named(p: Payload, name: string): Payload {
    match p
    case ObjectDecl(o) => ObjectDecl(o.(name := Some(name)))
    case EnumDecl(e) => EnumDecl(e.(name := Some(name)))
    case ServiceDecl(s) => ServiceDecl(s.(name := Some(name)))
  }

  function OwnName(p: Payload): Option<string> {
    match p
    case ObjectDecl(o) => o.name
    case EnumDecl(e) => e.name
    case ServiceDecl(s) => s.name
  }

  /** The declarations with one re-keyed, before any reference is rewritten. */
  function Moved(decls: map<string, Payload>, from: string, to: string): map<string, Payload>
    requires from in decls
  {
    (decls - {from})[to := Named(decls[from], to)]
  }

  function RenameIn(d: Doc, kind: Kind, from: string, to: string): Result<Doc, MutationError> {
    if from !in d.decls then Failure(DeclarationNotFound(from))
    else if !KindIs(d.decls[from], kind) then Failure(InvalidOperation)
    else if from == to then Success(d)
    else if to in d.decls then Failure(InvalidOperation)
    else Success(Schema(RenamedDecls(Moved(d.decls, from, to), from, to), RenamedMeta(d.meta, from, to)))
  }

  function DeleteIn(d: Doc, kind: Kind, name: string, defer: bool): Result<Doc, MutationError> {
    if name !in d.decls then Failure(DeclarationNotFound(name))
    else if !KindIs(d.decls[name], kind) then Failure(InvalidOperation)
    else if !defer && Referenced(d, name, Some(name)) then Failure(InvalidOperation)
    else Success(Schema(d.decls - {name}, d.meta.(declOrder := Without(d.meta.declOrder, name))))
  }

  function EditTableIn(d: Doc, op: FlatOp): Result<Doc, MutationError>
    requires EditsTable(op)
  {
    if op.table !in d.decls then Failure(DeclarationNotFound(op.table))
    else if !d.decls[op.table].ObjectDecl? then Failure(InvalidOperation)
    else
      var o :- EditObject(d.decls[op.table].obj, op);
      Success(Put(d, op.table, ObjectDecl(o)))
  }

  function UpdateImportIn(m: FlatMeta, path: string, commit: string, remove: bool): FlatMeta {
    var pins := Resized(m.includeCommits, |m.includes|);
    match IndexOf(m.includes, path)
    case Some(i) =>
      if remove then m.(includes := m.includes[..i] + m.includes[i + 1..], includeCommits := pins[..i] + pins[i + 1..])
      else m.(includeCommits := pins[i := commit])
    case None =>
      if remove then m.(includeCommits := pins)
      else m.(includes := m.includes + [path], includeCommits := pins + [commit])
  }

  function ApplyOp(d: Doc, op: FlatOp, defer: bool): Result<Doc, MutationError> {
    if EditsTable(op) then EditTableIn(d, op)
    else
      match op
      case RemoveField(_, _) => Failure(InvalidOperation)
      case CreateTable(name, doc) => CreateIn(d, name, NewTable(name, doc))
      case CreateEnum(name, underlying, doc) => CreateIn(d, name, NewEnum(name, underlying, doc))
      case CreateUnion(name, doc) => CreateIn(d, name, NewUnion(name, doc))
      case CreateUnionWithMembers(name, members, doc) =>
        var created :- CreateIn(d, name, NewUnion(name, doc));
        AddMembersIn(created, name, members)
      case AddUnionMember(name, member) => AddMemberIn(d, name, member)
      case RemoveUnionMember(name, member) => RemoveMemberIn(d, name, member)
      case RenameDecl(kind, from, to) => RenameIn(d, kind, from, to)
      case DeleteDecl(kind, name) => DeleteIn(d, kind, name, defer)
      case AddEnumValue(_, _, _) => AddEnumValueIn(d, op)
      case RemoveEnumValue(_, _) => RemoveEnumValueIn(d, op, defer)
      case RenameEnumValue(_, _, _) => RenameEnumValueIn(d, op)
      case UpdateImport(path, commit, remove) => Success(d.(meta := UpdateImportIn(d.meta, path, commit, remove)))
  }

  /** Postponing reference checks changes what is accepted, never the result. */
  lemma DeferOnlyAccepts(d: Doc, op: FlatOp)
    ensures ApplyOp(d, op, false).Success? ==> ApplyOp(d, op, true) == ApplyOp(d, op, false)
  {}

  function Run(d: Doc, ops: seq<FlatOp>, defer: bool): Result<Doc, MutationError>
    decreases |ops|
  {
    if ops == [] then Success(d)
    else
      var next :- ApplyOp(d, ops[0], defer);
      Run(next, ops[1..], defer)
  }
}
