/** What one Protobuf operation does another undoes: creation and deletion, additions and removals, renames and back. */
module ProtoUndo {
  import opened Wrappers
  import opened NameLists
  import opened Descriptors
  import opened ProtoOps

  // ----- declarations -----

  lemma DeleteUndoesCreateMessage(d: Doc, name: string)
    requires CreateMessageIn(d, name).Success? && name !in d.meta.messageOrder
    ensures DeleteMessageIn(CreateMessageIn(d, name).value, name, true) == Success(d)
    ensures DeleteMessageIn(CreateMessageIn(d, name).value, name, false).Success? <==> !Referenced(d, name, None)
  {
    var next := CreateMessageIn(d, name).value;
    WithoutAppended(d.meta.messageOrder, name);
    assert next.messages - {name} == d.messages;
    SameReferences(d, next, name);
  }

  /** A new message refers to nothing and is skipped. */
  lemma SameReferences(d: Doc, next: Doc, name: string)
    requires name !in d.messages && next.messages.Keys == d.messages.Keys + {name}
    requires forall n :: n in d.messages ==> next.messages[n] == d.messages[n]
    requires next.services == d.services && next.meta.extension == d.meta.extension
    ensures Referenced(next, name, Some(name)) <==> Referenced(d, name, None)
  {
    if n :| n in d.messages && MessageReferences(d.messages[n], name) {
      assert n in next.messages && MessageReferences(next.messages[n], name);
    }
    if n :| n in next.messages && n != name && MessageReferences(next.messages[n], name) {
      assert n in d.messages && MessageReferences(d.messages[n], name);
    }
  }

  lemma DeleteUndoesCreateEnum(d: Doc, name: string)
    requires CreateEnumIn(d, name).Success? && name !in d.meta.enumOrder
    ensures DeleteEnumIn(CreateEnumIn(d, name).value, name, true) == Success(d)
    ensures DeleteEnumIn(CreateEnumIn(d, name).value, name, false).Success? <==> !Referenced(d, name, None)
  {
    WithoutAppended(d.meta.enumOrder, name);
    assert CreateEnumIn(d, name).value.enums - {name} == d.enums;
  }

  lemma RemoveUndoesAddService(d: Doc, name: string)
    requires AddServiceIn(d, name).Success? && name !in d.meta.serviceOrder
    ensures RemoveServiceIn(AddServiceIn(d, name).value, name) == Success(d)
  {
    WithoutAppended(d.meta.serviceOrder, name);
    assert AddServiceIn(d, name).value.services - {name} == d.services;
  }

  lemma RenameServiceBack(d: Doc, from: string, to: string)
    requires RenameServiceIn(d, from, to).Success? && from != to && !Exists(d.(services := d.services - {from}), from)
    requires d.services[from].name == Some(from) && to !in d.meta.serviceOrder
    ensures RenameServiceIn(RenameServiceIn(d, from, to).value, to, from) == Success(d)
  {
    OrderRestored(d.meta.serviceOrder, from, to);
    var next := RenameServiceIn(d, from, to).value;
    assert (next.services - {to})[from := d.services[from]] == d.services;
  }

  // ----- fields -----

  lemma {:induction false} FindAppended(fs: seq<Field>, f: Field, name: string)
    requires f.name == Some(name) && FindField(fs, name).None?
    ensures FindField(fs + [f], name) == Some(|fs|)
  {
    var all := fs + [f];
    assert all[|fs|].name == Some(name);
    forall i | 0 <= i < |fs| ensures all[i].name != Some(name) {
      assert all[i] == fs[i];
    }
  }

  /** Removing the field just added leaves the fields as they were; the number and name stay reserved. */
  lemma RemoveUndoesAddField(m: Message, add: ProtoOp, remove: ProtoOp)
    requires add.AddField? && remove.RemoveField? && remove.field == add.field
    requires AddFieldTo(m, add).Success? && FindField(m.field, add.field).None?
    ensures RemoveFieldFrom(AddFieldTo(m, add).value, remove).Success?
    ensures var n := RemoveFieldFrom(AddFieldTo(m, add).value, remove).value;
            && n.field == m.field && n.reservedName == m.reservedName + [add.field]
            && n.(field := m.field, oneofDecl := m.oneofDecl, reservedRange := m.reservedRange,
                  reservedName := m.reservedName) == m
  {
    var added := AddFieldTo(m, add).value;
    FindAppended(m.field, added.field[|m.field|], add.field);
    assert added.field[..|m.field|] == m.field && added.field[|m.field| + 1..] == [];
  }

  /** Renaming a field to an unused name and back restores the message, given the JSON name it had. */
  lemma RenameFieldBack(m: Message, there: ProtoOp, back: ProtoOp)
    requires there.RenameField? && back.RenameField? && back.field == there.newName && back.newName == there.field
    requires RenameFieldIn(m, there).Success? && FindField(m.field, there.newName).None?
    requires m.field[FindField(m.field, there.field).value].jsonName == Some(back.jsonName)
    ensures RenameFieldIn(RenameFieldIn(m, there).value, back) == Success(m)
  {
    var n, at := RenameFieldIn(m, there).value, FindField(m.field, there.field).value;
    assert n.field[at].name == Some(back.field);
    forall i | 0 <= i < |n.field| && i != at ensures n.field[i].name != Some(back.field) {
      assert n.field[i] == m.field[i];
    }
    assert FindField(n.field, back.field) == Some(at);
    assert n.field[at := m.field[at]] == m.field;
  }

  // ----- RPCs -----

  lemma {:induction false} FindRpcMeans(rpcs: seq<RpcMethod>, name: string, at: nat)
    requires at < |rpcs| && rpcs[at].name == Some(name) && forall i :: 0 <= i < at ==> rpcs[i].name != Some(name)
    ensures FindRpc(rpcs, name) == Some(at)
  {
    if at > 0 {
      assert rpcs[0].name != Some(name);
      FindRpcMeans(rpcs[1..], name, at - 1);
    }
  }

  lemma {:induction false} NoRpc(rpcs: seq<RpcMethod>, name: string)
    requires FindRpc(rpcs, name).None?
    ensures forall i :: 0 <= i < |rpcs| ==> rpcs[i].name != Some(name)
  {
    if rpcs != [] {
      NoRpc(rpcs[1..], name);
      forall i | 0 <= i < |rpcs| ensures rpcs[i].name != Some(name) {
        if i > 0 {
          assert rpcs[i] == rpcs[1..][i - 1];
        }
      }
    }
  }

  lemma RemoveUndoesAddRpc(s: Service, add: ProtoOp, remove: ProtoOp)
    requires add.AddRpc? && remove.RemoveRpc? && remove.rpc == add.rpc && EditService(s, add).Success?
    ensures EditService(EditService(s, add).value, remove) == Success(s)
  {
    var added := EditService(s, add).value;
    NoRpc(s.rpcs, add.rpc);
    FindRpcMeans(added.rpcs, add.rpc, |s.rpcs|);
    assert added.rpcs[..|s.rpcs|] + added.rpcs[|s.rpcs| + 1..] == s.rpcs;
  }

  lemma RenameRpcBack(s: Service, there: ProtoOp, back: ProtoOp)
    requires there.RenameRpc? && back.RenameRpc? && back.rpc == there.newName && back.newName == there.rpc
    requires EditService(s, there).Success? && forall i, j :: 0 <= i < j < |s.rpcs| ==> s.rpcs[i].name != s.rpcs[j].name
    ensures EditService(EditService(s, there).value, back) == Success(s)
  {
    var n, at := EditService(s, there).value, FindRpc(s.rpcs, there.rpc).value;
    NoRpc(s.rpcs, there.newName);
    assert n.rpcs[at].name == Some(back.rpc);
    FindRpcMeans(n.rpcs, back.rpc, at);
    forall i | 0 <= i < |n.rpcs| ensures n.rpcs[i].name != Some(there.rpc) {
      assert s.rpcs[at].name == Some(there.rpc);
    }
    assert n.rpcs[at := s.rpcs[at]] == s.rpcs;
  }

  // ----- enum values -----

  lemma {:induction false} FindValueMeans(vs: seq<EnumValue>, name: string, at: nat)
    requires at < |vs| && vs[at].name == Some(name) && forall i :: 0 <= i < at ==> vs[i].name != Some(name)
    ensures FindValue(vs, name) == Some(at)
  {
    if at > 0 {
      assert vs[0].name != Some(name);
      FindValueMeans(vs[1..], name, at - 1);
    }
  }

  lemma {:induction false} NoValue(vs: seq<EnumValue>, name: string)
    requires FindValue(vs, name).None?
    ensures forall i :: 0 <= i < |vs| ==> vs[i].name != Some(name)
  {
    if vs != [] {
      NoValue(vs[1..], name);
      forall i | 0 <= i < |vs| ensures vs[i].name != Some(name) {
        if i > 0 {
          assert vs[i] == vs[1..][i - 1];
        }
      }
    }
  }

  /**
   Removing the value just added leaves the values as they were; its name and number stay reserved, so it cannot
   return.
   */
  lemma RemoveUndoesAddValue(e: Enum, add: ProtoOp, remove: ProtoOp, proto3: bool)
    requires add.AddEnumValue? && remove.RemoveEnumValue? && remove.value == add.value
    requires AddEnumValueTo(e, add, proto3).Success?
    ensures RemoveEnumValueFrom(AddEnumValueTo(e, add, proto3).value, remove).Success?
    ensures var n := RemoveEnumValueFrom(AddEnumValueTo(e, add, proto3).value, remove).value;
            && n.value == e.value && n.(reservedRange := e.reservedRange, reservedName := e.reservedName) == e
            && EnumNumberReserved(n, add.valueNumber) && AddEnumValueTo(n, add, proto3).Failure?
  {
    var added := AddEnumValueTo(e, add, proto3).value;
    NoValue(e.value, add.value);
    FindValueMeans(added.value, add.value, |e.value|);
    assert added.value[..|e.value|] == e.value && added.value[|e.value| + 1..] == [];
    var n := RemoveEnumValueFrom(added, remove).value;
    assert n.reservedRange[|e.reservedRange|] == ReservedRange(Some(add.valueNumber), Some(add.valueNumber));
  }

  lemma ValueFieldsBack(fs: seq<Field>, enumName: string, from: string, to: string)
    requires forall i :: 0 <= i < |fs| ==> !FieldUsesValue(fs[i], enumName, to)
    ensures RenamedValueFields(RenamedValueFields(fs, enumName, from, to), enumName, to, from) == fs
  {
    forall i | 0 <= i < |fs|
      ensures RenamedValueFields(RenamedValueFields(fs, enumName, from, to), enumName, to, from)[i] == fs[i]
    {
      assert !FieldUsesValue(fs[i], enumName, to);
    }
  }

  lemma {:induction false} ValueBack(m: Message, enumName: string, from: string, to: string)
    requires !MessageUsesValue(m, enumName, to)
    ensures RenamedValue(RenamedValue(m, enumName, from, to), enumName, to, from) == m
    decreases m, 1
  {
    ValueFieldsBack(m.field, enumName, from, to);
    ValueFieldsBack(m.extension, enumName, from, to);
    NestedValueBack(m.nestedType, enumName, from, to);
  }

  lemma {:induction false} NestedValueBack(ms: seq<Message>, enumName: string, from: string, to: string)
    requires !NestedUsesValue(ms, enumName, to)
    ensures RenamedValueNested(RenamedValueNested(ms, enumName, from, to), enumName, to, from) == ms
    decreases ms, 0
  {
    if ms != [] {
      ValueBack(ms[0], enumName, from, to);
      NestedValueBack(ms[1..], enumName, from, to);
      assert RenamedValueNested(ms, enumName, from, to)[1..] == RenamedValueNested(ms[1..], enumName, from, to);
    }
  }

  lemma ValueMessagesBack(d: Doc, enumName: string, from: string, to: string)
    requires !ValueUsed(d, enumName, to)
    ensures RenamedValueMessages(RenamedValueMessages(d.messages, enumName, from, to), enumName, to, from) == d.messages
  {
    forall n | n in d.messages
      ensures RenamedValue(RenamedValue(d.messages[n], enumName, from, to), enumName, to, from) == d.messages[n]
    {
      ValueBack(d.messages[n], enumName, from, to);
    }
  }

  /** Renaming an enum value to a name no default uses and back restores the enum and every default, at any nesting. */
  lemma RenameValueBack(d: Doc, there: ProtoOp, back: ProtoOp)
    requires there.RenameEnumValue? && back == RenameEnumValue(there.enumName, there.newName, there.value)
    requires RenameEnumValueIn(d, there).Success? && !ValueUsed(d, there.enumName, there.newName)
    requires var vs := d.enums[there.enumName].value; forall i, j :: 0 <= i < j < |vs| ==> vs[i].name != vs[j].name
    ensures RenameEnumValueIn(RenameEnumValueIn(d, there).value, back) == Success(d)
  {
    var next := RenameEnumValueIn(d, there).value;
    var vs := d.enums[there.enumName].value;
    var ws := next.enums[there.enumName].value;
    var at := FindValue(vs, there.value).value;
    NoValue(vs, there.newName);
    assert ws[at].name == Some(there.newName);
    FindValueMeans(ws, there.newName, at);
    forall i | 0 <= i < |ws| ensures ws[i].name != Some(there.value) {
      assert vs[at].name == Some(there.value);
    }
    assert ws[at := vs[at]] == vs;
    ValueMessagesBack(d, there.enumName, there.value, there.newName);
    ValueFieldsBack(d.meta.extension, there.enumName, there.value, there.newName);
    assert next.enums[there.enumName := d.enums[there.enumName]] == d.enums;
  }
}
