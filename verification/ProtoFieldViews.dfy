/**
 A message with distinctly named fields as a plain table from field name to what the field says, with the one-ofs and
 what is reserved: each field operation is one update of the table, accepted on the same condition.
 */
module ProtoFieldViews {
  import opened Wrappers
  import opened NamedTables
  import opened Wire
  import opened Descriptors
  import opened Reassembly
  import opened ProtoOps
  import opened ProtoCompat

  function NameOf(f: Field): Option<string> { f.name }

  /** What a field is, apart from its name and where it stands. */
  function RowOf(f: Field): Field { f.(name := None) }

  datatype Table = Table(fields: map<string, Field>, ranges: seq<ReservedRange>, names: seq<string>,
                         oneofs: seq<OneofDescriptor>)

  /** The table is what the message says. */
  ghost predicate Shows(m: Message, t: Table) {
    && Lists(m.field, NameOf, RowOf, t.fields)
    && t.ranges == m.reservedRange && t.names == m.reservedName && t.oneofs == m.oneofDecl
  }

  // ----- the operations on the table -----

  function KindNamed(name: string): FieldType { if ScalarType(name).Some? then ScalarType(name).value else TMessage }

  /** A field of a named type keeps the name as it is given. */
  function NameKept(name: string): Option<string> { if ScalarType(name).Some? then None else Some(name) }

  predicate NumberUsed(t: Table, k: i32) {
    || (exists n :: n in t.fields && t.fields[n].number == Some(k))
    || (exists i :: 0 <= i < |t.ranges| && InRange(t.ranges[i], k))
  }

  /** The cardinality words: a label, and the flag of a field with presence. */
  function Cardinality(word: string): Option<(Option<FieldLabel>, Option<bool>)> {
    if word in ["", "singular"] then Some((None, None))
    else if word == "optional" then Some((Some(LabelOptional), Some(true)))
    else if word == "required" then Some((Some(LabelRequired), None))
    else if word == "repeated" then Some((Some(LabelRepeated), None))
    else None
  }

  predicate Accepts(t: Table, op: ProtoOp)
    requires EditsMessage(op)
  {
    match op
    case AddField(_, _, _, _, number, card) => !NumberUsed(t, Wrap32(number)) && Cardinality(card).Some?
    case RemoveField(_, field) => field in t.fields
    case RenameField(_, field, _, _) => field in t.fields
    case ChangeFieldType(_, field, newType) =>
      field in t.fields
      && ClassifyTypeChange(TypeNameOf(t.fields[field]), t.fields[field].fieldType, newType, Some(KindNamed(newType)))
         != Breaking
    case ChangeCardinality(_, field, card) => field in t.fields && Cardinality(card).Some?
    case ReorderFields(_, order) => t.fields.Keys == Elements(order)
  }

  /** A field with presence gets a one-of of its own, the last one. */
  function NewRow(op: ProtoOp, lbl: Option<FieldLabel>, presence: Option<bool>, oneofs: nat): Field
    requires op.AddField?
  {
    Field(None, Some(Wrap32(op.number)), lbl, Some(KindNamed(op.fieldType)), NameKept(op.fieldType), None, None,
          if presence.Some? then Some(Wrap32(oneofs)) else None, Some(op.jsonName), None, presence, None)
  }

  function Edited(t: Table, op: ProtoOp): Table
    requires EditsMessage(op) && Accepts(t, op)
  {
    match op
    case AddField(_, field, _, _, _, card) =>
      var (lbl, presence) := Cardinality(card).value;
      t.(fields := t.fields[field := NewRow(op, lbl, presence, |t.oneofs|)],
         oneofs := if presence.Some? then t.oneofs + [OneofDescriptor(Some("_" + field), None)] else t.oneofs)
    case RemoveField(_, field) =>
      var number := t.fields[field].number;
      t.(fields := t.fields - {field}, names := t.names + [field],
         ranges := if number.None? then t.ranges
                   else t.ranges + [ReservedRange(number, Some(Wrap32(number.value + 1)))])
    case RenameField(_, field, newName, json) =>
      t.(fields := (t.fields - {field})[newName := t.fields[field].(jsonName := Some(json))])
    case ChangeFieldType(_, field, ty) =>
      t.(fields := t.fields[field := t.fields[field].(fieldType := Some(KindNamed(ty)), typeName := NameKept(ty))])
    case ChangeCardinality(_, field, card) =>
      var (lbl, presence) := Cardinality(card).value;
      t.(fields := t.fields[field := t.fields[field].(fieldLabel := lbl, proto3Optional := presence)])
    case ReorderFields(_, _) => t
  }

  /** The names an operation introduces are new; the engine does not ask. */
  predicate Tidy(t: Table, op: ProtoOp) {
    && (op.AddField? ==> op.field !in t.fields)
    && (op.RenameField? && op.newName != op.field ==> op.newName !in t.fields)
  }

  // ----- they agree -----

  /** The message is edited as the table is; the other fields keep their places unless that is what is asked. */
  ghost predicate EditedAs(m: Message, next: Message, t: Table, op: ProtoOp)
    requires EditsMessage(op)
  {
    && Accepts(t, op) && Shows(next, Edited(t, op))
    && (op.ReorderFields? || InOrder(m.field, next.field, NameOf, op.field))
    && next == m.(field := next.field, reservedRange := next.reservedRange, reservedName := next.reservedName,
                  oneofDecl := next.oneofDecl)
  }

  lemma Found(m: Message, t: Table, name: string)
    requires Shows(m, t)
    ensures FindField(m.field, name).Some? <==> name in t.fields
    ensures FindField(m.field, name).Some? ==> t.fields[name] == RowOf(m.field[FindField(m.field, name).value])
  {
    if name in t.fields {
      assert Carries(m.field, NameOf, name);
    }
  }

  lemma CardinalityAgrees(word: string)
    ensures CardinalityToLabel(word).Success? <==> Cardinality(word).Some?
    ensures CardinalityToLabel(word).Success? ==>
              Cardinality(word).value
              == (CardinalityToLabel(word).value.0, if CardinalityToLabel(word).value.1 then Some(true) else None)
  {}

  lemma NumberAgrees(m: Message, t: Table, k: i32)
    requires Shows(m, t)
    ensures NumberUsed(t, k) <==> CarriesNumber(m, k) || NumberReserved(m, k)
  {
    if n :| n in t.fields && t.fields[n].number == Some(k) {
      var i := ItemOfRow(m.field, NameOf, RowOf, t.fields, n);
      assert m.field[i].number == Some(k);
    }
    if i :| 0 <= i < |m.field| && m.field[i].number == Some(k) {
      assert t.fields[m.field[i].name.value].number == Some(k);
    }
  }

  lemma AppendAgrees(m: Message, t: Table, op: ProtoOp, f: Field, oneofs: seq<OneofDescriptor>)
    requires op.AddField? && Shows(m, t) && Tidy(t, op) && Accepts(t, op)
    requires f.name == Some(op.field) && RowOf(f) == Edited(t, op).fields[op.field] && oneofs == Edited(t, op).oneofs
    ensures EditedAs(m, m.(oneofDecl := oneofs, field := m.field + [f]), t, op)
  {
    Appended(m.field, NameOf, RowOf, t.fields, f);
  }

  lemma AddAgrees(m: Message, t: Table, op: ProtoOp)
    requires op.AddField? && Shows(m, t) && Tidy(t, op)
    ensures AddFieldTo(m, op).Success? <==> Accepts(t, op)
    ensures AddFieldTo(m, op).Success? ==> EditedAs(m, AddFieldTo(m, op).value, t, op)
  {
    NumberAgrees(m, t, Wrap32(op.number));
    CardinalityAgrees(op.cardinality);
    if AddFieldTo(m, op).Success? {
      var next := AddFieldTo(m, op).value;
      AppendAgrees(m, t, op, next.field[|m.field|], next.oneofDecl);
    }
  }

  lemma DropAgrees(m: Message, t: Table, op: ProtoOp, at: nat, ranges: seq<ReservedRange>)
    requires op.RemoveField? && Shows(m, t) && op.field in t.fields
    requires at < |m.field| && m.field[at].name == Some(op.field) && ranges == Edited(t, op).ranges
    ensures EditedAs(m, m.(field := m.field[..at] + m.field[at + 1..], reservedRange := ranges,
                           reservedName := m.reservedName + [op.field]), t, op)
  {
    Dropped(m.field, NameOf, RowOf, t.fields, at);
  }

  lemma RemoveAgrees(m: Message, t: Table, op: ProtoOp)
    requires op.RemoveField? && Shows(m, t)
    ensures RemoveFieldFrom(m, op).Success? <==> Accepts(t, op)
    ensures RemoveFieldFrom(m, op).Success? ==> EditedAs(m, RemoveFieldFrom(m, op).value, t, op)
  {
    Found(m, t, op.field);
    if op.field in t.fields {
      DropAgrees(m, t, op, FindField(m.field, op.field).value, RemoveFieldFrom(m, op).value.reservedRange);
    }
  }

  lemma RenameAgrees(m: Message, t: Table, op: ProtoOp)
    requires op.RenameField? && Shows(m, t) && Tidy(t, op)
    ensures RenameFieldIn(m, op).Success? <==> Accepts(t, op)
    ensures RenameFieldIn(m, op).Success? ==> EditedAs(m, RenameFieldIn(m, op).value, t, op)
  {
    Found(m, t, op.field);
    if op.field in t.fields {
      var at := FindField(m.field, op.field).value;
      var f := m.field[at].(name := Some(op.newName), jsonName := Some(op.jsonName));
      if op.newName == op.field {
        Replaced(m.field, NameOf, RowOf, t.fields, at, f);
        assert Edited(t, op).fields == t.fields[op.field := RowOf(f)];
      } else {
        Rekeyed(m.field, NameOf, RowOf, t.fields, at, f);
      }
    }
  }

  lemma ReplaceAgrees(m: Message, t: Table, op: ProtoOp, at: nat, f: Field)
    requires (op.ChangeFieldType? || op.ChangeCardinality?) && Shows(m, t) && Accepts(t, op)
    requires at < |m.field| && m.field[at].name == f.name == Some(op.field)
    requires RowOf(f) == Edited(t, op).fields[op.field]
    ensures EditedAs(m, m.(field := m.field[at := f]), t, op)
  {
    Replaced(m.field, NameOf, RowOf, t.fields, at, f);
  }

  lemma ChangeTypeAgrees(m: Message, t: Table, op: ProtoOp)
    requires op.ChangeFieldType? && Shows(m, t)
    ensures ChangeFieldTypeIn(m, op).Success? <==> Accepts(t, op)
    ensures ChangeFieldTypeIn(m, op).Success? ==> EditedAs(m, ChangeFieldTypeIn(m, op).value, t, op)
  {
    Found(m, t, op.field);
    if ChangeFieldTypeIn(m, op).Success? {
      var at := FindField(m.field, op.field).value;
      ReplaceAgrees(m, t, op, at, ChangeFieldTypeIn(m, op).value.field[at]);
    }
  }

  lemma ChangeCardinalityAgrees(m: Message, t: Table, op: ProtoOp)
    requires op.ChangeCardinality? && Shows(m, t)
    ensures ChangeCardinalityIn(m, op).Success? <==> Accepts(t, op)
    ensures ChangeCardinalityIn(m, op).Success? ==> EditedAs(m, ChangeCardinalityIn(m, op).value, t, op)
  {
    Found(m, t, op.field);
    CardinalityAgrees(op.cardinality);
    if ChangeCardinalityIn(m, op).Success? {
      var at := FindField(m.field, op.field).value;
      ReplaceAgrees(m, t, op, at, ChangeCardinalityIn(m, op).value.field[at]);
    }
  }

  lemma ReorderAgrees(m: Message, t: Table, op: ProtoOp)
    requires op.ReorderFields? && Shows(m, t)
    ensures ReorderFieldsIn(m, op).Success? <==> Accepts(t, op)
    ensures ReorderFieldsIn(m, op).Success? ==> EditedAs(m, ReorderFieldsIn(m, op).value, t, op)
  {
    assert t.fields.Keys == FieldNames(m.field) by {
      forall n | n in t.fields ensures n in FieldNames(m.field) {
        var i := ItemOfRow(m.field, NameOf, RowOf, t.fields, n);
        assert m.field[i] in m.field;
      }
    }
    if ReorderFieldsIn(m, op).Success? {
      var n := ReorderFieldsIn(m, op).value;
      ByNameHolds(m.field, FieldName);
      PickDistinct(op.order, ByName(m.field, FieldName), FieldName);
      ReorderKeepsFields(m, op);
      forall i | 0 <= i < |n.field| ensures n.field[i] in m.field {
        assert n.field[i] in Pick(op.order, ByName(m.field, FieldName));
      }
      forall i, j | 0 <= i < j < |n.field| ensures NameOf(n.field[i]) != NameOf(n.field[j]) {
        assert FieldName(n.field[i]) != FieldName(n.field[j]);
      }
      Permuted(m.field, NameOf, RowOf, t.fields, n.field);
    }
  }

  /** Every field operation is accepted on the table's condition and updates the table. */
  lemma EditAgrees(m: Message, t: Table, op: ProtoOp)
    requires EditsMessage(op) && Shows(m, t) && Tidy(t, op)
    ensures EditMessage(m, op).Success? <==> Accepts(t, op)
    ensures EditMessage(m, op).Success? ==> EditedAs(m, EditMessage(m, op).value, t, op)
  {
    if op.AddField? {
      AddAgrees(m, t, op);
    } else if op.RemoveField? {
      RemoveAgrees(m, t, op);
    } else if op.RenameField? {
      RenameAgrees(m, t, op);
    } else if op.ChangeFieldType? {
      ChangeTypeAgrees(m, t, op);
    } else if op.ChangeCardinality? {
      ChangeCardinalityAgrees(m, t, op);
    } else {
      ReorderAgrees(m, t, op);
    }
  }

  /** A run on the table; none when an operation is not accepted. */
  function EditedAll(t: Table, ops: seq<ProtoOp>): Option<Table>
    decreases |ops|
  {
    if ops == [] then Some(t)
    else if EditsMessage(ops[0]) && Accepts(t, ops[0]) then EditedAll(Edited(t, ops[0]), ops[1..])
    else None
  }

  /** Field operations that introduce new names only, for as long as they are accepted. */
  predicate TidyRun(t: Table, ops: seq<ProtoOp>)
    decreases |ops|
  {
    ops != [] && EditsMessage(ops[0]) ==>
      Tidy(t, ops[0]) && (Accepts(t, ops[0]) ==> TidyRun(Edited(t, ops[0]), ops[1..]))
  }

  /** A run succeeds on the message exactly when it does on the table, and shows the table's result. */
  lemma {:induction false} RunAgrees(m: Message, t: Table, ops: seq<ProtoOp>)
    requires Shows(m, t) && TidyRun(t, ops)
    ensures EditAll(m, ops).Success? <==> EditedAll(t, ops).Some?
    ensures EditAll(m, ops).Success? ==> Shows(EditAll(m, ops).value, EditedAll(t, ops).value)
    decreases |ops|
  {
    if ops != [] && EditsMessage(ops[0]) {
      EditAgrees(m, t, ops[0]);
      if Accepts(t, ops[0]) {
        RunAgrees(EditMessage(m, ops[0]).value, Edited(t, ops[0]), ops[1..]);
      }
    }
  }

  /** A new message has an empty table: no field, nothing reserved. */
  lemma CreatedEmpty(d: Doc, name: string)
    ensures CreateMessageIn(d, name).Success? <==> name !in d.messages && name !in d.enums && name !in d.services
    ensures CreateMessageIn(d, name).Success? ==>
              var next := CreateMessageIn(d, name).value;
              && next == d.(messages := next.messages, meta := next.meta) && next.messages - {name} == d.messages
              && name in next.messages && Shows(next.messages[name], Table(map[], [], [], []))
  {
    if CreateMessageIn(d, name).Success? {
      assert CreateMessageIn(d, name).value.messages - {name} == d.messages;
    }
  }

  /** The fields of a reordered message stand in the order given, repetitions dropped. */
  lemma {:induction false} PickedInOrder<T(!new)>(order: seq<string>, byName: map<string, T>, name: T -> string)
    requires forall k :: k in byName ==> name(byName[k]) == k
    requires forall i, j :: 0 <= i < j < |order| ==> order[i] != order[j]
    requires forall i :: 0 <= i < |order| ==> order[i] in byName
    ensures Names(Pick(order, byName), name) == order
  {
    if order != [] {
      PickedInOrder(order[1..], byName - {order[0]}, name);
      var rest := Pick(order[1..], byName - {order[0]});
      assert Names([byName[order[0]]] + rest, name) == [order[0]] + Names(rest, name);
      assert order == [order[0]] + order[1..];
    }
  }

  lemma ReorderIsTheOrder(m: Message, op: ProtoOp)
    requires op.ReorderFields? && NamesDistinct(m) && ReorderFieldsIn(m, op).Success?
    requires forall i, j :: 0 <= i < j < |op.order| ==> op.order[i] != op.order[j]
    ensures Names(ReorderFieldsIn(m, op).value.field, FieldName) == op.order
  {
    ByNameHolds(m.field, FieldName);
    forall i | 0 <= i < |op.order| ensures op.order[i] in ByName(m.field, FieldName) {
      assert op.order[i] in Elements(op.order);
      var f :| f in m.field && f.name == Some(op.order[i]);
    }
    PickedInOrder(op.order, ByName(m.field, FieldName), FieldName);
  }
}
