/**
 What every FlatBuffers operation keeps of a file's names: each declaration is stored under its own name, and the order
 list names every declaration once and nothing else.
 */
module FlatNames {
  import opened Wrappers
  import opened NameLists
  import opened FlatOps

  ghost predicate WellNamed(d: Doc) { Catalogued(d.decls, OwnName, d.meta.declOrder) }

  lemma PutKeeps(d: Doc, name: string, p: Payload)
    requires WellNamed(d) && name in d.decls && OwnName(p) == OwnName(d.decls[name])
    ensures WellNamed(Put(d, name, p))
  {
    EditCatalogued(d.decls, Put(d, name, p).decls, OwnName, d.meta.declOrder);
  }

  lemma CreateKeeps(d: Doc, name: string, p: Payload)
    requires WellNamed(d) && OwnName(p) == Some(name) && CreateIn(d, name, p).Success?
    ensures WellNamed(CreateIn(d, name, p).value)
  {
    AddCatalogued(d.decls, OwnName, d.meta.declOrder, name, p);
  }

  lemma AddMemberKeeps(d: Doc, name: string, member: string)
    requires WellNamed(d) && AddMemberIn(d, name, member).Success?
    ensures WellNamed(AddMemberIn(d, name, member).value)
  {
    PutKeeps(d, name, AddMemberIn(d, name, member).value.decls[name]);
  }

  lemma {:induction false} AddMembersKeep(d: Doc, name: string, members: seq<string>)
    requires WellNamed(d) && AddMembersIn(d, name, members).Success?
    ensures WellNamed(AddMembersIn(d, name, members).value)
    decreases |members|
  {
    if members != [] {
      AddMemberKeeps(d, name, members[0]);
      AddMembersKeep(AddMemberIn(d, name, members[0]).value, name, members[1..]);
    }
  }

  lemma RemoveMemberKeeps(d: Doc, name: string, member: string)
    requires WellNamed(d) && RemoveMemberIn(d, name, member).Success?
    ensures WellNamed(RemoveMemberIn(d, name, member).value)
  {
    PutKeeps(d, name, RemoveMemberIn(d, name, member).value.decls[name]);
  }

  lemma EditTableKeeps(d: Doc, op: FlatOp)
    requires EditsTable(op) && WellNamed(d) && EditTableIn(d, op).Success?
    ensures WellNamed(EditTableIn(d, op).value)
  {
    PutKeeps(d, op.table, EditTableIn(d, op).value.decls[op.table]);
  }

  lemma AddValueKeeps(d: Doc, op: FlatOp)
    requires op.AddEnumValue? && WellNamed(d) && AddEnumValueIn(d, op).Success?
    ensures WellNamed(AddEnumValueIn(d, op).value)
  {
    PutKeeps(d, op.name, AddEnumValueIn(d, op).value.decls[op.name]);
  }

  lemma RemoveValueKeeps(d: Doc, op: FlatOp, defer: bool)
    requires op.RemoveEnumValue? && WellNamed(d) && RemoveEnumValueIn(d, op, defer).Success?
    ensures WellNamed(RemoveEnumValueIn(d, op, defer).value)
  {
    PutKeeps(d, op.name, RemoveEnumValueIn(d, op, defer).value.decls[op.name]);
  }

  lemma RenameValueKeeps(d: Doc, op: FlatOp)
    requires op.RenameEnumValue? && WellNamed(d) && RenameEnumValueIn(d, op).Success?
    ensures WellNamed(RenameEnumValueIn(d, op).value)
  {
    EditCatalogued(d.decls, RenameEnumValueIn(d, op).value.decls, OwnName, d.meta.declOrder);
  }

  lemma RenamedPayloadKeepsName(p: Payload, from: string, to: string)
    ensures OwnName(RenamedPayload(p, from, to)) == OwnName(p)
  {}

  lemma RenamedDeclsKeep(decls: map<string, Payload>, order: seq<string>, from: string, to: string)
    requires Catalogued(decls, OwnName, order)
    ensures Catalogued(RenamedDecls(decls, from, to), OwnName, order)
  {
    var renamed := RenamedDecls(decls, from, to);
    forall n | n in decls ensures OwnName(renamed[n]) == OwnName(decls[n]) {
      RenamedPayloadKeepsName(decls[n], from, to);
    }
    EditCatalogued(decls, renamed, OwnName, order);
  }

  lemma RenameKeeps(d: Doc, kind: Kind, from: string, to: string)
    requires WellNamed(d) && RenameIn(d, kind, from, to).Success?
    ensures WellNamed(RenameIn(d, kind, from, to).value)
  {
    if from != to {
      MoveCatalogued(d.decls, OwnName, d.meta.declOrder, from, to, Named(d.decls[from], to));
      RenamedDeclsKeep(Moved(d.decls, from, to), RenamedOrder(d.meta.declOrder, from, to), from, to);
    }
  }

  lemma DeleteKeeps(d: Doc, kind: Kind, name: string, defer: bool)
    requires WellNamed(d) && DeleteIn(d, kind, name, defer).Success?
    ensures WellNamed(DeleteIn(d, kind, name, defer).value)
  {
    DropCatalogued(d.decls, OwnName, d.meta.declOrder, name);
  }

  lemma StepKeepsNames(d: Doc, op: FlatOp, defer: bool)
    requires WellNamed(d) && ApplyOp(d, op, defer).Success?
    ensures WellNamed(ApplyOp(d, op, defer).value)
  {
    if EditsTable(op) {
      EditTableKeeps(d, op);
    } else {
      match op
      case CreateTable(name, doc) => CreateKeeps(d, name, NewTable(name, doc));
      case CreateEnum(name, underlying, doc) => CreateKeeps(d, name, NewEnum(name, underlying, doc));
      case CreateUnion(name, doc) => CreateKeeps(d, name, NewUnion(name, doc));
      case CreateUnionWithMembers(name, members, doc) =>
        CreateKeeps(d, name, NewUnion(name, doc));
        AddMembersKeep(CreateIn(d, name, NewUnion(name, doc)).value, name, members);
      case AddUnionMember(name, member) => AddMemberKeeps(d, name, member);
      case RemoveUnionMember(name, member) => RemoveMemberKeeps(d, name, member);
      case RenameDecl(kind, from, to) => RenameKeeps(d, kind, from, to);
      case DeleteDecl(kind, name) => DeleteKeeps(d, kind, name, defer);
      case AddEnumValue(_, _, _) => AddValueKeeps(d, op);
      case RemoveEnumValue(_, _) => RemoveValueKeeps(d, op, defer);
      case RenameEnumValue(_, _, _) => RenameValueKeeps(d, op);
      case _ =>
    }
  }

  /** Renaming and deleting by kind reach a declaration by at most one kind. */
  lemma OneKind(d: Doc, name: string, k: Kind, l: Kind)
    requires DeleteIn(d, k, name, true).Success? && DeleteIn(d, l, name, true).Success?
    ensures k == l
  {}

  /** Every state a run reaches is well named. */
  lemma {:induction false} RunsStayNamed(d: Doc, ops: seq<FlatOp>, defer: bool)
    requires WellNamed(d)
    ensures Run(d, ops, defer).Success? ==> WellNamed(Run(d, ops, defer).value)
    decreases |ops|
  {
    if ops != [] && ApplyOp(d, ops[0], defer).Success? {
      StepKeepsNames(d, ops[0], defer);
      RunsStayNamed(ApplyOp(d, ops[0], defer).value, ops[1..], defer);
    }
  }
}
