/**
 An enum with distinctly named values as a plain table: each value operation is one update of it, accepted on the same
 condition. Over every run the numbers of an enum and the discriminators of a union stay distinct, and a renamed value
 takes the defaults that use it along.
 */
module FlatEnumViews {
  import opened Wrappers
  import opened NameLists
  import opened NamedTables
  import opened Wire
  import opened Effects
  import opened FlatOps

  datatype ValueRow = ValueRow(number: Option<i64>, unionType: Option<Type>, documentation: Option<seq<string>>)

  type Table = map<string, ValueRow>

  function NameOf(v: EnumVal): Option<string> { v.name }

  function RowOf(v: EnumVal): ValueRow { ValueRow(v.value, v.unionType, v.documentation) }

  /** The file declares the enum, and the table is what it says. */
  ghost predicate Shows(d: Doc, name: string, t: Table) {
    && name in d.decls && d.decls[name].EnumDecl? && !d.decls[name].enumeration.isUnion
    && Lists(d.decls[name].enumeration.values, NameOf, RowOf, t)
  }

  predicate EditsEnum(op: FlatOp) { op.AddEnumValue? || op.RemoveEnumValue? || op.RenameEnumValue? }

  predicate Accepts(t: Table, op: FlatOp)
    requires EditsEnum(op)
  {
    match op
    case AddEnumValue(_, value, number) => value !in t && forall n :: n in t ==> t[n].number != Some(number)
    case RemoveEnumValue(_, value) => value in t
    case RenameEnumValue(_, value, newName) => value in t && newName !in t
  }

  function Edited(t: Table, op: FlatOp): Table
    requires EditsEnum(op) && (op.AddEnumValue? || op.value in t)
  {
    match op
    case AddEnumValue(_, value, number) => t[value := ValueRow(Some(number), None, None)]
    case RemoveEnumValue(_, value) => t - {value}
    case RenameEnumValue(_, value, newName) => (t - {value})[newName := t[value]]
  }

  /** The value operations of the engine. */
  function EditEnumIn(d: Doc, op: FlatOp, defer: bool): Result<Doc, MutationError>
    requires EditsEnum(op)
  {
    match op
    case AddEnumValue(_, _, _) => AddEnumValueIn(d, op)
    case RemoveEnumValue(_, _) => RemoveEnumValueIn(d, op, defer)
    case RenameEnumValue(_, _, _) => RenameEnumValueIn(d, op)
  }

  /** The enum is edited as the table is, its other values stay where they were, and nothing else of it changes. */
  ghost predicate EditedAs(e: Enum, next: Enum, t: Table, op: FlatOp)
    requires EditsEnum(op)
  {
    && (op.AddEnumValue? || op.value in t) && Lists(next.values, NameOf, RowOf, Edited(t, op))
    && InOrder(e.values, next.values, NameOf, op.value) && next == e.(values := next.values)
  }

  ghost predicate OneEnumChanges(d: Doc, next: Doc, t: Table, op: FlatOp)
    requires EditsEnum(op) && Shows(d, op.name, t)
  {
    && next.meta == d.meta && next.decls.Keys == d.decls.Keys && next.decls[op.name].EnumDecl?
    && EditedAs(d.decls[op.name].enumeration, next.decls[op.name].enumeration, t, op)
    && (forall n :: n in d.decls && n != op.name && (op.RenameEnumValue? ==> !d.decls[n].ObjectDecl?) ==>
          next.decls[n] == d.decls[n])
  }

  lemma FoundExactly(vs: seq<EnumVal>, t: Table, value: string)
    requires Lists(vs, NameOf, RowOf, t)
    ensures FindValue(vs, value).Some? <==> value in t
  {
    if value in t {
      assert Carries(vs, NameOf, value);
    }
  }

  lemma NumberUsedExactly(vs: seq<EnumVal>, t: Table, number: i64)
    requires Lists(vs, NameOf, RowOf, t)
    ensures (exists i :: 0 <= i < |vs| && vs[i].value == Some(number)) <==>
            exists n :: n in t && t[n].number == Some(number)
  {
    if n :| n in t && t[n].number == Some(number) {
      var i := ItemOfRow(vs, NameOf, RowOf, t, n);
    }
    if i :| 0 <= i < |vs| && vs[i].value == Some(number) {
      assert t[vs[i].name.value] == RowOf(vs[i]);
    }
  }

  lemma {:induction false} WithoutAbsent(vs: seq<EnumVal>, value: string)
    requires forall i :: 0 <= i < |vs| ==> vs[i].name != Some(value)
    ensures WithoutValue(vs, value) == vs
  {
    if vs != [] {
      WithoutAbsent(vs[1..], value);
    }
  }

  lemma {:induction false} WithoutOne(vs: seq<EnumVal>, value: string, i: nat)
    requires i < |vs| && vs[i].name == Some(value)
    requires forall j :: 0 <= j < |vs| && j != i ==> vs[j].name != Some(value)
    ensures WithoutValue(vs, value) == vs[..i] + vs[i + 1..]
  {
    if i == 0 {
      WithoutAbsent(vs[1..], value);
    } else {
      WithoutOne(vs[1..], value, i - 1);
    }
  }

  lemma AppendAgrees(d: Doc, t: Table, op: FlatOp, e: Enum)
    requires op.AddEnumValue? && Shows(d, op.name, t) && op.value !in t && e == d.decls[op.name].enumeration
    ensures var added := e.(values := e.values + [EnumVal(Some(op.value), Some(op.number), None, None)]);
            OneEnumChanges(d, Put(d, op.name, EnumDecl(added)), t, op)
  {
    Appended(e.values, NameOf, RowOf, t, EnumVal(Some(op.value), Some(op.number), None, None));
  }

  lemma AddAgrees(d: Doc, t: Table, op: FlatOp)
    requires op.AddEnumValue? && Shows(d, op.name, t)
    ensures AddEnumValueIn(d, op).Success? <==> Accepts(t, op)
    ensures AddEnumValueIn(d, op).Success? ==> OneEnumChanges(d, AddEnumValueIn(d, op).value, t, op)
  {
    var e := d.decls[op.name].enumeration;
    FoundExactly(e.values, t, op.value);
    NumberUsedExactly(e.values, t, op.number);
    if op.value !in t {
      AppendAgrees(d, t, op, e);
    }
  }

  lemma DropAgrees(d: Doc, t: Table, op: FlatOp, e: Enum)
    requires op.RemoveEnumValue? && Shows(d, op.name, t) && op.value in t && e == d.decls[op.name].enumeration
    ensures |WithoutValue(e.values, op.value)| < |e.values|
    ensures OneEnumChanges(d, Put(d, op.name, EnumDecl(e.(values := WithoutValue(e.values, op.value)))), t, op)
  {
    var i := ItemOfRow(e.values, NameOf, RowOf, t, op.value);
    WithoutOne(e.values, op.value, i);
    Dropped(e.values, NameOf, RowOf, t, i);
  }

  lemma RemoveAgrees(d: Doc, t: Table, op: FlatOp, defer: bool)
    requires op.RemoveEnumValue? && Shows(d, op.name, t)
    ensures RemoveEnumValueIn(d, op, defer).Success? <==>
            op.value in t && (defer || !ValueUsed(d, op.name, op.value))
    ensures RemoveEnumValueIn(d, op, defer).Success? ==>
              OneEnumChanges(d, RemoveEnumValueIn(d, op, defer).value, t, op)
  {
    var e := d.decls[op.name].enumeration;
    if op.value in t {
      DropAgrees(d, t, op, e);
    } else {
      WithoutAbsent(e.values, op.value);
    }
  }

  lemma RenameAgrees(d: Doc, t: Table, op: FlatOp)
    requires op.RenameEnumValue? && Shows(d, op.name, t)
    ensures RenameEnumValueIn(d, op).Success? <==> Accepts(t, op)
    ensures RenameEnumValueIn(d, op).Success? ==> OneEnumChanges(d, RenameEnumValueIn(d, op).value, t, op)
  {
    var vs := d.decls[op.name].enumeration.values;
    FoundExactly(vs, t, op.value);
    FoundExactly(vs, t, op.newName);
    if Accepts(t, op) {
      var i := FindValue(vs, op.value).value;
      Rekeyed(vs, NameOf, RowOf, t, i, vs[i].(name := Some(op.newName)));
    }
  }

  /** One value operation on a file: accepted on the table's condition, and unless deferred on unused values only. */
  lemma EditAgrees(d: Doc, t: Table, op: FlatOp, defer: bool)
    requires EditsEnum(op) && Shows(d, op.name, t)
    ensures ApplyOp(d, op, defer) == EditEnumIn(d, op, defer)
    ensures EditEnumIn(d, op, defer).Success? <==>
            Accepts(t, op) && (op.RemoveEnumValue? && !defer ==> !ValueUsed(d, op.name, op.value))
    ensures EditEnumIn(d, op, defer).Success? ==> OneEnumChanges(d, EditEnumIn(d, op, defer).value, t, op)
  {
    match op
    case AddEnumValue(_, _, _) => AddAgrees(d, t, op);
    case RemoveEnumValue(_, _) => RemoveAgrees(d, t, op, defer);
    case RenameEnumValue(_, _, _) => RenameAgrees(d, t, op);
  }

  /** A new enum has an empty table, and the underlying type it was given. */
  lemma CreatedEmpty(d: Doc, name: string, underlying: string, doc: Option<string>, defer: bool)
    ensures ApplyOp(d, CreateEnum(name, underlying, doc), defer).Success? <==> name !in d.decls
    ensures name !in d.decls ==>
              var next := ApplyOp(d, CreateEnum(name, underlying, doc), defer).value;
              && next.decls - {name} == d.decls && Shows(next, name, map[])
              && next.decls[name].enumeration.underlying == Some(ParseTypeSpec(underlying))
  {
    if name !in d.decls {
      assert CreateIn(d, name, NewEnum(name, underlying, doc)).value.decls - {name} == d.decls;
    }
  }

  predicate OnEnum(op: FlatOp, name: string) { EditsEnum(op) && op.name == name }

  function EditedAll(t: Table, ops: seq<FlatOp>, name: string): Option<Table>
    decreases |ops|
  {
    if ops == [] then Some(t)
    else if OnEnum(ops[0], name) && Accepts(t, ops[0]) then EditedAll(Edited(t, ops[0]), ops[1..], name)
    else None
  }

  /** A deferred run of value operations on one enum succeeds exactly when it does on the table, with its result. */
  lemma {:induction false} RunAgrees(d: Doc, t: Table, ops: seq<FlatOp>, name: string)
    requires Shows(d, name, t) && forall i :: 0 <= i < |ops| ==> OnEnum(ops[i], name)
    ensures Run(d, ops, true).Success? <==> EditedAll(t, ops, name).Some?
    ensures Run(d, ops, true).Success? ==> Shows(Run(d, ops, true).value, name, EditedAll(t, ops, name).value)
    decreases |ops|
  {
    if ops != [] {
      EditAgrees(d, t, ops[0], true);
      if Accepts(t, ops[0]) {
        RunAgrees(EditEnumIn(d, ops[0], true).value, Edited(t, ops[0]), ops[1..], name);
      }
    }
  }

  // ----- defaults follow a renamed value -----

  /** A default that is `from` on a field of the enum becomes `to`; nothing else of a field changes. */
  ghost predicate FieldFollows(f: Field, g: Field, enumName: string, from: string, to: string) {
    && g == f.(defaultString := g.defaultString)
    && g.defaultString == if f.defaultString == Some(from) && FieldRefers(f, enumName) then Some(to)
                          else f.defaultString
  }

  /** Renaming a value rewrites the defaults that use it, in every table, and nothing else there. */
  lemma RenameRewritesDefaults(d: Doc, op: FlatOp, name: string)
    requires op.RenameEnumValue? && RenameEnumValueIn(d, op).Success? && name in d.decls && d.decls[name].ObjectDecl?
    ensures var next := RenameEnumValueIn(d, op).value;
            && name in next.decls && next.decls[name].ObjectDecl?
            && var o, p := d.decls[name].obj, next.decls[name].obj;
            && p == o.(fields := p.fields) && |p.fields| == |o.fields|
            && forall i :: 0 <= i < |o.fields| ==>
                 FieldFollows(o.fields[i], p.fields[i], op.name, op.value, op.newName)
  {}

  lemma PayloadMoved(p: Payload, enumName: string, from: string, to: string, v: string)
    requires from != to
    ensures UseMoved(PayloadDefaultsTo(p, enumName, v), PayloadDefaultsTo(p, enumName, from),
                     PayloadDefaultsTo(RenamedDefaults(p, enumName, from, to), enumName, v), v, from, to)
  {
    if p.ObjectDecl? {
      var fs, gs := p.obj.fields, RenamedDefaults(p, enumName, from, to).obj.fields;
      forall i | 0 <= i < |fs|
        ensures UseMoved(FieldDefaultsTo(fs[i], enumName, v), FieldDefaultsTo(fs[i], enumName, from),
                         FieldDefaultsTo(gs[i], enumName, v), v, from, to)
      {
        assert gs[i] == RenamedDefault(fs[i], enumName, from, to);
      }
    }
  }

  /** A renamed value takes along every default that uses it, and nothing uses the old name. */
  lemma RenameMovesDefaults(d: Doc, op: FlatOp, v: string)
    requires op.RenameEnumValue? && op.value != op.newName && RenameEnumValueIn(d, op).Success?
    ensures UseMoved(ValueUsed(d, op.name, v), ValueUsed(d, op.name, op.value),
                     ValueUsed(RenameEnumValueIn(d, op).value, op.name, v), v, op.value, op.newName)
  {
    var next := RenameEnumValueIn(d, op).value;
    forall n | n in d.decls
      ensures UseMoved(PayloadDefaultsTo(d.decls[n], op.name, v), PayloadDefaultsTo(d.decls[n], op.name, op.value),
                       PayloadDefaultsTo(next.decls[n], op.name, v), v, op.value, op.newName)
    {
      PayloadMoved(d.decls[n], op.name, op.value, op.newName, v);
    }
  }
}
