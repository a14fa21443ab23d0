/** What one FlatBuffers operation does another undoes. */
module FlatUndo {
  import opened Wrappers
  import opened NameLists
  import opened FlatOps

  lemma DeleteUndoesCreate(d: Doc, kind: Kind, name: string, p: Payload)
    requires CreateIn(d, name, p).Success? && KindIs(p, kind) && name !in d.meta.declOrder
    ensures DeleteIn(CreateIn(d, name, p).value, kind, name, true) == Success(d)
    ensures DeleteIn(CreateIn(d, name, p).value, kind, name, false).Success? <==> !Referenced(d, name, None)
  {
    WithoutAppended(d.meta.declOrder, name);
    var next := CreateIn(d, name, p).value;
    assert next.decls - {name} == d.decls;
    if n :| n in d.decls && PayloadReferences(d.decls[n], name) {
      assert n in next.decls && PayloadReferences(next.decls[n], name);
    }
  }

  lemma {:induction false} FirstMember(vs: seq<EnumVal>, member: string, at: nat)
    requires at < |vs| && IsMember(vs[at], member) && forall i :: 0 <= i < at ==> !IsMember(vs[i], member)
    ensures FindMember(vs, member) == Some(at)
  {
    if at > 0 {
      FirstMember(vs[1..], member, at - 1);
    }
  }

  lemma RemoveUndoesAddMember(d: Doc, name: string, member: string)
    requires AddMemberIn(d, name, member).Success? && member != "NONE"
    ensures RemoveMemberIn(AddMemberIn(d, name, member).value, name, member) == Success(d)
  {
    var e := d.decls[name].enumeration;
    var next := AddMemberIn(d, name, member).value;
    var vs := next.decls[name].enumeration.values;
    assert IsMember(vs[|e.values|], member);
    FirstMember(vs, member, |e.values|);
    assert vs[..|e.values|] + vs[|e.values| + 1..] == e.values;
    assert next.decls[name := d.decls[name]] == d.decls;
  }

  lemma {:induction false} WithoutAddedValue(vs: seq<EnumVal>, v: EnumVal, name: string)
    requires v.name == Some(name) && FindValue(vs, name).None?
    ensures WithoutValue(vs + [v], name) == vs
  {
    if vs == [] {
      assert (vs + [v])[1..] == [];
    } else {
      assert (vs + [v])[0] == vs[0] && (vs + [v])[1..] == vs[1..] + [v];
      WithoutAddedValue(vs[1..], v, name);
    }
  }

  /** An added enum value is removed without a trace, and may be added again. */
  lemma RemoveUndoesAddValue(d: Doc, add: FlatOp, remove: FlatOp)
    requires add.AddEnumValue? && remove == RemoveEnumValue(add.name, add.value) && AddEnumValueIn(d, add).Success?
    ensures RemoveEnumValueIn(AddEnumValueIn(d, add).value, remove, true) == Success(d)
    ensures RemoveEnumValueIn(AddEnumValueIn(d, add).value, remove, false).Success? <==>
            !ValueUsed(d, add.name, add.value)
  {
    var e, next := d.decls[add.name].enumeration, AddEnumValueIn(d, add).value;
    WithoutAddedValue(e.values, EnumVal(Some(add.value), Some(add.number), None, None), add.value);
    assert next.decls[add.name := d.decls[add.name]] == d.decls;
    if n :| n in d.decls && PayloadDefaultsTo(d.decls[n], add.name, add.value) {
      assert n in next.decls && PayloadDefaultsTo(next.decls[n], add.name, add.value);
    }
  }

  lemma {:induction false} FirstField(fs: seq<Field>, name: string, at: nat)
    requires at < |fs| && fs[at].name == Some(name) && forall i :: 0 <= i < at ==> fs[i].name != Some(name)
    ensures FindField(fs, name) == Some(at)
  {
    if at > 0 {
      assert fs[0].name != Some(name);
      FirstField(fs[1..], name, at - 1);
    }
  }

  /** Renaming a field and back restores a table whose field names are distinct. */
  lemma RenameFieldBack(o: Object, there: FlatOp, back: FlatOp)
    requires there.RenameField? && back == RenameField(there.table, there.newName, there.field)
    requires EditObject(o, there).Success?
    requires forall i, j :: 0 <= i < j < |o.fields| ==> o.fields[i].name != o.fields[j].name
    ensures EditObject(EditObject(o, there).value, back) == Success(o)
  {
    var n, at := EditObject(o, there).value, FindField(o.fields, there.field).value;
    assert n.fields[at].name == Some(there.newName);
    FirstField(n.fields, there.newName, at);
    forall i | 0 <= i < |n.fields| ensures n.fields[i].name != Some(there.field) {
      assert o.fields[at].name == Some(there.field);
    }
    assert n.fields[at := o.fields[at]] == o.fields;
  }

  /** Deprecating a field twice is deprecating it once. */
  lemma DeprecateTwice(o: Object, op: FlatOp)
    requires op.DeprecateField? && EditObject(o, op).Success?
    requires forall i, j :: 0 <= i < j < |o.fields| ==> o.fields[i].name != o.fields[j].name
    ensures EditObject(EditObject(o, op).value, op) == EditObject(o, op)
  {
    var n, at := EditObject(o, op).value, FindField(o.fields, op.field).value;
    assert n.fields[at].name == Some(op.field);
    forall i | 0 <= i < at ensures n.fields[i].name != Some(op.field) {
      assert o.fields[at].name == Some(op.field);
    }
    FirstField(n.fields, op.field, at);
    FlaggedTwice(o.fields[at].attributes, "deprecated");
    assert n.fields[at := n.fields[at]] == n.fields;
  }

  lemma FlaggedTwice(attributes: Option<seq<Attribute>>, key: string)
    ensures Flagged(Flagged(attributes, key), key) == Flagged(attributes, key)
  {
    var entries := attributes.GetOr([]);
    if !(exists i :: 0 <= i < |entries| && entries[i].key == Some(key)) {
      var more := entries + [Attribute(Some(key), None)];
      assert more[|entries|].key == Some(key);
    }
  }
}
