/**
 A table with distinctly named fields as a plain map from field name to what the field says, with the largest wire slot
 in use: each field operation is one update of it, accepted on the same condition, and so is every run.
 */
module FlatViews {
  import opened Wrappers
  import opened NamedTables
  import opened Wire
  import opened FlatOps

  datatype Defaults = Defaults(integer: Option<i64>, decimal: Option<real>, text: Option<string>)

  datatype Row = Row(ty: Option<Type>, id: Option<u32>, defaults: Defaults, isDeprecated: bool, marks: set<Attribute>,
                     documentation: Option<seq<string>>)

  /** `top` is the largest slot in use. */
  datatype Table = Table(rows: map<string, Row>, top: Option<u32>)

  function NameOf(f: Field): Option<string> { f.name }

  function Marks(attributes: Option<seq<Attribute>>): set<Attribute> {
    set a | a in attributes.GetOr([])
  }

  function RowOf(f: Field): Row {
    Row(f.ty, f.id, Defaults(f.defaultInteger, f.defaultReal, f.defaultString), f.isDeprecated, Marks(f.attributes),
        f.documentation)
  }

  ghost predicate IsTop(fs: seq<Field>, top: Option<u32>) {
    match top
    case None => fs == []
    case Some(m) =>
      && (forall i :: 0 <= i < |fs| ==> SlotOf(fs[i], i) <= m)
      && (exists i :: 0 <= i < |fs| && SlotOf(fs[i], i) == m)
  }

  /** The table is what the object says. */
  ghost predicate Shows(o: Object, t: Table) {
    !o.isStruct && Lists(o.fields, NameOf, RowOf, t.rows) && IsTop(o.fields, t.top)
  }

  predicate Accepts(t: Table, op: FlatOp)
    requires EditsTable(op)
  {
    match op
    case AddField(_, field, _, _, _) => field !in t.rows
    case RenameField(_, field, newName) => field in t.rows && newName !in t.rows
    case _ => op.field in t.rows
  }

  /** The slot above all in use, except that the largest slot is followed by slot zero. */
  function SlotAfter(top: Option<u32>): u32 {
    match top
    case None => 0
    case Some(m) => if m == 0xFFFF_FFFF then 0 else m + 1
  }

  /** A default is kept as what its spelling is. */
  function DefaultsOf(default: Option<Default>): Defaults {
    match default
    case None => Defaults(None, None, None)
    case Some(IntDefault(i)) => Defaults(Some(i), None, None)
    case Some(RealDefault(r)) => Defaults(None, Some(r), None)
    case Some(TextDefault(s)) => Defaults(None, None, Some(s))
  }

  /** The deprecated attribute is put in once, whatever value it has. */
  function Marked(marks: set<Attribute>): set<Attribute> {
    if exists a :: a in marks && a.key == Some("deprecated") then marks
    else marks + {Attribute(Some("deprecated"), None)}
  }

  function DocLines(doc: Option<string>): Option<seq<string>> {
    match doc
    case Some(line) => Some([line])
    case None => None
  }

  function NewRow(op: FlatOp, slot: u32): Row
    requires op.AddField?
  {
    Row(Some(ParseTypeSpec(op.fieldType)), Some(slot), DefaultsOf(op.default), false, {}, DocLines(op.doc))
  }

  function Edited(t: Table, op: FlatOp): Table
    requires EditsTable(op) && Accepts(t, op)
  {
    match op
    case AddField(_, field, _, _, _) =>
      var slot := SlotAfter(t.top);
      Table(t.rows[field := NewRow(op, slot)], Some(if t.top.Some? && t.top.value > slot then t.top.value else slot))
    case DeprecateField(_, field) =>
      t.(rows := t.rows[field := t.rows[field].(isDeprecated := true, marks := Marked(t.rows[field].marks))])
    case RenameField(_, field, newName) => t.(rows := (t.rows - {field})[newName := t.rows[field]])
    case ChangeFieldType(_, field, newType) =>
      t.(rows := t.rows[field := t.rows[field].(ty := Some(ParseTypeSpec(newType)))])
  }

  /** The object is edited as the table is; its other fields and everything else stay as they were. */
  ghost predicate EditedAs(o: Object, next: Object, t: Table, op: FlatOp)
    requires EditsTable(op)
  {
    && Accepts(t, op) && Shows(next, Edited(t, op))
    && InOrder(o.fields, next.fields, NameOf, op.field) && next == o.(fields := next.fields)
  }

  lemma FoundExactly(o: Object, t: Table, field: string)
    requires Shows(o, t)
    ensures FindField(o.fields, field).Some? <==> field in t.rows
    ensures field in t.rows ==> t.rows[field] == RowOf(o.fields[FindField(o.fields, field).value])
  {
    if field in t.rows {
      assert Carries(o.fields, NameOf, field);
    }
  }

  lemma TopIsMax(fs: seq<Field>, top: Option<u32>)
    requires IsTop(fs, top)
    ensures MaxSlot(fs) == top && NextSlot(fs) == SlotAfter(top)
  {}

  lemma TopAppended(fs: seq<Field>, top: Option<u32>, f: Field)
    requires IsTop(fs, top) && f.id == Some(SlotAfter(top))
    ensures IsTop(fs + [f], Some(if top.Some? && top.value > SlotAfter(top) then top.value else SlotAfter(top)))
  {
    var gs := fs + [f];
    assert gs[|fs|] == f && SlotOf(f, |fs|) == SlotAfter(top);
    forall i | 0 <= i < |fs| ensures gs[i] == fs[i] {}
    if top.Some? {
      var i :| 0 <= i < |fs| && SlotOf(fs[i], i) == top.value;
      assert SlotOf(gs[i], i) == top.value;
    }
  }

  lemma TopReplaced(fs: seq<Field>, top: Option<u32>, i: nat, f: Field)
    requires IsTop(fs, top) && i < |fs| && f.id == fs[i].id
    ensures IsTop(fs[i := f], top)
  {
    var gs := fs[i := f];
    forall k | 0 <= k < |fs| ensures SlotOf(gs[k], k) == SlotOf(fs[k], k) {}
  }

  lemma FlaggedMarks(attributes: Option<seq<Attribute>>)
    ensures Marks(Flagged(attributes, "deprecated")) == Marked(Marks(attributes))
  {
    var before := attributes.GetOr([]);
    if i :| 0 <= i < |before| && before[i].key == Some("deprecated") {
      assert before[i] in Marks(attributes);
    }
  }

  lemma NewFieldRow(fs: seq<Field>, top: Option<u32>, op: FlatOp)
    requires op.AddField? && IsTop(fs, top)
    ensures var f := NewField(fs, op);
            RowOf(f) == NewRow(op, SlotAfter(top)) && f.id == Some(SlotAfter(top)) && f.name == Some(op.field)
  {
    TopIsMax(fs, top);
  }

  lemma AppendAgrees(o: Object, t: Table, op: FlatOp, f: Field)
    requires op.AddField? && Shows(o, t) && op.field !in t.rows
    requires RowOf(f) == NewRow(op, SlotAfter(t.top)) && f.id == Some(SlotAfter(t.top)) && f.name == Some(op.field)
    ensures EditedAs(o, o.(fields := o.fields + [f]), t, op)
  {
    TopAppended(o.fields, t.top, f);
    Appended(o.fields, NameOf, RowOf, t.rows, f);
  }

  lemma AddAgrees(o: Object, t: Table, op: FlatOp)
    requires op.AddField? && Shows(o, t)
    ensures EditObject(o, op).Success? <==> Accepts(t, op)
    ensures EditObject(o, op).Success? ==> EditedAs(o, EditObject(o, op).value, t, op)
  {
    FoundExactly(o, t, op.field);
    if op.field !in t.rows {
      NewFieldRow(o.fields, t.top, op);
      AppendAgrees(o, t, op, NewField(o.fields, op));
    }
  }

  lemma ReplaceAgrees(o: Object, t: Table, op: FlatOp, i: nat, f: Field)
    requires (op.DeprecateField? || op.ChangeFieldType?) && Shows(o, t) && op.field in t.rows
    requires i < |o.fields| && o.fields[i].name == f.name == Some(op.field) && f.id == o.fields[i].id
    requires RowOf(f) == Edited(t, op).rows[op.field]
    ensures EditedAs(o, o.(fields := o.fields[i := f]), t, op)
  {
    TopReplaced(o.fields, t.top, i, f);
    Replaced(o.fields, NameOf, RowOf, t.rows, i, f);
  }

  lemma ChangeAgrees(o: Object, t: Table, op: FlatOp)
    requires (op.DeprecateField? || op.ChangeFieldType?) && Shows(o, t)
    ensures EditObject(o, op).Success? <==> Accepts(t, op)
    ensures EditObject(o, op).Success? ==> EditedAs(o, EditObject(o, op).value, t, op)
  {
    FoundExactly(o, t, op.field);
    if op.field in t.rows {
      var i := FindField(o.fields, op.field).value;
      FlaggedMarks(o.fields[i].attributes);
      ReplaceAgrees(o, t, op, i, EditObject(o, op).value.fields[i]);
    }
  }

  lemma RenameAgrees(o: Object, t: Table, op: FlatOp)
    requires op.RenameField? && Shows(o, t)
    ensures EditObject(o, op).Success? <==> Accepts(t, op)
    ensures EditObject(o, op).Success? ==> EditedAs(o, EditObject(o, op).value, t, op)
  {
    FoundExactly(o, t, op.field);
    FoundExactly(o, t, op.newName);
    if op.field in t.rows && op.newName !in t.rows {
      var i := FindField(o.fields, op.field).value;
      var f := o.fields[i].(name := Some(op.newName));
      TopReplaced(o.fields, t.top, i, f);
      Rekeyed(o.fields, NameOf, RowOf, t.rows, i, f);
    }
  }

  /** One field operation: accepted on the table's condition, and an update of the table. */
  lemma EditAgrees(o: Object, t: Table, op: FlatOp)
    requires EditsTable(op) && Shows(o, t)
    ensures EditObject(o, op).Success? <==> Accepts(t, op)
    ensures EditObject(o, op).Success? ==> EditedAs(o, EditObject(o, op).value, t, op)
  {
    match op
    case AddField(_, _, _, _, _) => AddAgrees(o, t, op);
    case RenameField(_, _, _) => RenameAgrees(o, t, op);
    case _ => ChangeAgrees(o, t, op);
  }

  // ----- runs -----

  function EditedAll(t: Table, ops: seq<FlatOp>): Option<Table>
    decreases |ops|
  {
    if ops == [] then Some(t)
    else if EditsTable(ops[0]) && Accepts(t, ops[0]) then EditedAll(Edited(t, ops[0]), ops[1..])
    else None
  }

  /** A run succeeds on the object exactly when it does on the table, and shows the table's result. */
  lemma {:induction false} RunAgrees(o: Object, t: Table, ops: seq<FlatOp>)
    requires Shows(o, t)
    ensures EditAll(o, ops).Success? <==> EditedAll(t, ops).Some?
    ensures EditAll(o, ops).Success? ==> Shows(EditAll(o, ops).value, EditedAll(t, ops).value)
    decreases |ops|
  {
    if ops != [] && EditsTable(ops[0]) {
      EditAgrees(o, t, ops[0]);
      if Accepts(t, ops[0]) {
        RunAgrees(EditObject(o, ops[0]).value, Edited(t, ops[0]), ops[1..]);
      }
    }
  }

  /** One table changes, as the view does, and nothing else. */
  ghost predicate OneTableChanges(d: Doc, next: Doc, t: Table, op: FlatOp)
    requires EditsTable(op) && op.table in d.decls && d.decls[op.table].ObjectDecl?
  {
    && next.meta == d.meta && next.decls.Keys == d.decls.Keys && next.decls[op.table].ObjectDecl?
    && (forall n :: n in d.decls && n != op.table ==> next.decls[n] == d.decls[n])
    && EditedAs(d.decls[op.table].obj, next.decls[op.table].obj, t, op)
  }

  lemma PutChangesOne(d: Doc, t: Table, op: FlatOp, o: Object)
    requires EditsTable(op) && op.table in d.decls && d.decls[op.table].ObjectDecl?
    requires EditedAs(d.decls[op.table].obj, o, t, op)
    ensures OneTableChanges(d, Put(d, op.table, ObjectDecl(o)), t, op)
  {}

  /** The same on a file. */
  lemma EditAgreesIn(d: Doc, t: Table, op: FlatOp)
    requires EditsTable(op) && op.table in d.decls && d.decls[op.table].ObjectDecl? && Shows(d.decls[op.table].obj, t)
    ensures EditTableIn(d, op).Success? <==> Accepts(t, op)
    ensures EditTableIn(d, op).Success? ==> OneTableChanges(d, EditTableIn(d, op).value, t, op)
  {
    var edited := EditObject(d.decls[op.table].obj, op);
    assert EditTableIn(d, op) == match edited
      case Success(o) => Success(Put(d, op.table, ObjectDecl(o)))
      case Failure(e) => Failure(e);
    EditAgrees(d.decls[op.table].obj, t, op);
    if edited.Success? {
      PutChangesOne(d, t, op, edited.value);
    }
  }

  /** A new table has an empty view and keeps its documentation. */
  lemma CreatedEmpty(d: Doc, name: string, doc: Option<string>, defer: bool)
    ensures ApplyOp(d, CreateTable(name, doc), defer).Success? <==> name !in d.decls
    ensures name !in d.decls ==>
              var next := ApplyOp(d, CreateTable(name, doc), defer).value;
              && next.decls - {name} == d.decls && name in next.decls && next.decls[name].ObjectDecl?
              && Shows(next.decls[name].obj, Table(map[], None))
              && next.decls[name].obj.documentation == DocLines(doc)
  {
    if name !in d.decls {
      assert CreateIn(d, name, NewTable(name, doc)).value.decls - {name} == d.decls;
    }
  }
}
