/**
 What every Protobuf operation keeps of a file's names: each declaration is stored under its own name, no name is used
 by two kinds, and the order lists name every declaration of their kind once and nothing else.
 */
module ProtoNames {
  import opened Wrappers
  import opened NameLists
  import opened Descriptors
  import opened Reassembly
  import opened ProtoOps

  ghost predicate InOrder(d: Doc) {
    && Catalogued(d.messages, MessageOptionName, d.meta.messageOrder)
    && Catalogued(d.enums, EnumOptionName, d.meta.enumOrder)
    && Catalogued(d.services, ServiceOptionName, d.meta.serviceOrder)
  }

  ghost predicate WellNamed(d: Doc) { InOrder(d) && KindsApart(d) }

  lemma EditKeepsName(m: Message, op: ProtoOp)
    requires EditsMessage(op)
    ensures EditMessage(m, op).Success? ==> EditMessage(m, op).value.name == m.name
  {}

  lemma EditMessageKeeps(d: Doc, op: ProtoOp)
    requires EditsMessage(op) && InOrder(d) && EditMessageIn(d, op).Success?
    ensures InOrder(EditMessageIn(d, op).value)
  {
    EditKeepsName(d.messages[op.message], op);
    EditCatalogued(d.messages, EditMessageIn(d, op).value.messages, MessageOptionName, d.meta.messageOrder);
  }

  lemma EditServiceKeeps(d: Doc, op: ProtoOp)
    requires EditsService(op) && InOrder(d) && EditServiceIn(d, op).Success?
    ensures InOrder(EditServiceIn(d, op).value)
  {
    EditCatalogued(d.services, EditServiceIn(d, op).value.services, ServiceOptionName, d.meta.serviceOrder);
  }

  lemma EditEnumKeeps(d: Doc, op: ProtoOp, defer: bool)
    requires EditsEnum(op) && InOrder(d) && EditEnumIn(d, op, defer).Success?
    ensures InOrder(EditEnumIn(d, op, defer).value)
  {
    var next := EditEnumIn(d, op, defer).value;
    EditCatalogued(d.enums, next.enums, EnumOptionName, d.meta.enumOrder);
    EditCatalogued(d.messages, next.messages, MessageOptionName, d.meta.messageOrder);
  }

  lemma CreateMessageKeeps(d: Doc, name: string)
    requires InOrder(d) && CreateMessageIn(d, name).Success?
    ensures InOrder(CreateMessageIn(d, name).value)
  {
    AddCatalogued(d.messages, MessageOptionName, d.meta.messageOrder, name, EmptyMessage.(name := Some(name)));
  }

  lemma DeleteMessageKeeps(d: Doc, name: string, defer: bool)
    requires InOrder(d) && DeleteMessageIn(d, name, defer).Success?
    ensures InOrder(DeleteMessageIn(d, name, defer).value)
  {
    DropCatalogued(d.messages, MessageOptionName, d.meta.messageOrder, name);
  }

  lemma RenameMessageKeeps(d: Doc, from: string, to: string)
    requires InOrder(d) && RenameMessageIn(d, from, to).Success?
    ensures InOrder(RenameMessageIn(d, from, to).value)
  {
    var next := RenameMessageIn(d, from, to).value;
    var moved := d.messages[from].(name := Some(to));
    MoveCatalogued(d.messages, MessageOptionName, d.meta.messageOrder, from, to, moved);
    EditCatalogued((d.messages - {from})[to := moved], next.messages, MessageOptionName, next.meta.messageOrder);
    EditCatalogued(d.services, next.services, ServiceOptionName, d.meta.serviceOrder);
  }

  lemma CreateEnumKeeps(d: Doc, name: string)
    requires InOrder(d) && CreateEnumIn(d, name).Success?
    ensures InOrder(CreateEnumIn(d, name).value)
  {
    AddCatalogued(d.enums, EnumOptionName, d.meta.enumOrder, name, EmptyEnum.(name := Some(name)));
  }

  lemma DeleteEnumKeeps(d: Doc, name: string, defer: bool)
    requires InOrder(d) && DeleteEnumIn(d, name, defer).Success?
    ensures InOrder(DeleteEnumIn(d, name, defer).value)
  {
    DropCatalogued(d.enums, EnumOptionName, d.meta.enumOrder, name);
  }

  lemma AddServiceKeeps(d: Doc, name: string)
    requires InOrder(d) && AddServiceIn(d, name).Success?
    ensures InOrder(AddServiceIn(d, name).value)
  {
    AddCatalogued(d.services, ServiceOptionName, d.meta.serviceOrder, name, EmptyService.(name := Some(name)));
  }

  lemma RemoveServiceKeeps(d: Doc, name: string)
    requires InOrder(d) && RemoveServiceIn(d, name).Success?
    ensures InOrder(RemoveServiceIn(d, name).value)
  {
    DropCatalogued(d.services, ServiceOptionName, d.meta.serviceOrder, name);
  }

  lemma RenameServiceKeeps(d: Doc, from: string, to: string)
    requires InOrder(d) && RenameServiceIn(d, from, to).Success?
    ensures InOrder(RenameServiceIn(d, from, to).value)
  {
    MoveCatalogued(d.services, ServiceOptionName, d.meta.serviceOrder, from, to, d.services[from].(name := Some(to)));
  }

  lemma StepKeepsOrder(d: Doc, op: ProtoOp, defer: bool)
    requires InOrder(d) && ApplyOp(d, op, defer).Success?
    ensures InOrder(ApplyOp(d, op, defer).value)
  {
    if EditsMessage(op) {
      EditMessageKeeps(d, op);
    } else if EditsService(op) {
      EditServiceKeeps(d, op);
    } else if EditsEnum(op) {
      EditEnumKeeps(d, op, defer);
    } else {
      match op
      case CreateMessage(name) => CreateMessageKeeps(d, name);
      case RenameMessage(from, to) => RenameMessageKeeps(d, from, to);
      case DeleteMessage(name) => DeleteMessageKeeps(d, name, defer);
      case CreateEnum(name) => CreateEnumKeeps(d, name);
      case DeleteEnum(name) => DeleteEnumKeeps(d, name, defer);
      case AddService(name) => AddServiceKeeps(d, name);
      case RemoveService(name) => RemoveServiceKeeps(d, name);
      case RenameService(from, to) => RenameServiceKeeps(d, from, to);
      case UpdateImport(_, _, _) =>
    }
  }

  /** Every state a run reaches is well named. */
  lemma {:induction false} RunsStayNamed(d: Doc, ops: seq<ProtoOp>, defer: bool)
    requires WellNamed(d)
    ensures Run(d, ops, defer).Success? ==> WellNamed(Run(d, ops, defer).value)
    decreases |ops|
  {
    if ops != [] && ApplyOp(d, ops[0], defer).Success? {
      StepKeepsOrder(d, ops[0], defer);
      ApplyKeepsKindsApart(d, ops[0], defer);
      RunsStayNamed(ApplyOp(d, ops[0], defer).value, ops[1..], defer);
    }
  }
}
