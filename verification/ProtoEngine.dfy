/**
 The Protobuf mutation engine: a working copy that is edited in place while `touched`, `removed` and a dirty flag
 record what to write back. Every operation is proved to take the copy where the document operation says, and the
 bookkeeping to stay complete, so that the emitted patch turns the stored schema into the working copy.
 */
module ProtoEngine {
  import opened Wrappers
  import opened NameLists
  import opened Descriptors
  import opened Effects
  import opened ProtoOps
  import ProtoImports

  // ----- rewriting reports a change exactly when there was a reference -----

  lemma FieldsUnchanged(fs: seq<Field>, from: string, to: string)
    requires forall i :: 0 <= i < |fs| ==> !FieldReferences(fs[i], from)
    ensures RenamedFields(fs, from, to) == fs
  {}

  lemma {:induction false} MessageUnchanged(m: Message, from: string, to: string)
    requires !MessageReferences(m, from)
    ensures RenamedRefs(m, from, to) == m
    decreases m, 1
  {
    FieldsUnchanged(m.field, from, to);
    FieldsUnchanged(m.extension, from, to);
    NestedUnchanged(m.nestedType, from, to);
  }

  lemma {:induction false} NestedUnchanged(ms: seq<Message>, from: string, to: string)
    requires !NestedReferences(ms, from)
    ensures RenamedNested(ms, from, to) == ms
    decreases ms, 0
  {
    if ms != [] {
      MessageUnchanged(ms[0], from, to);
      NestedUnchanged(ms[1..], from, to);
      assert ms == [ms[0]] + ms[1..];
    }
  }

  lemma ServiceUnchanged(s: Service, from: string, to: string)
    requires !ServiceReferences(s, from)
    ensures RenamedService(s, from, to) == s
  {
    forall i | 0 <= i < |s.rpcs| ensures RenamedService(s, from, to).rpcs[i] == s.rpcs[i] {
      assert !MethodReferences(s.rpcs[i], from);
    }
    assert RenamedService(s, from, to).rpcs == s.rpcs;
  }

  lemma ValueFieldsUnchanged(fs: seq<Field>, enumName: string, from: string, to: string)
    requires forall i :: 0 <= i < |fs| ==> !FieldUsesValue(fs[i], enumName, from)
    ensures RenamedValueFields(fs, enumName, from, to) == fs
  {
    forall i | 0 <= i < |fs| ensures RenamedValueFields(fs, enumName, from, to)[i] == fs[i] {
      assert !FieldUsesValue(fs[i], enumName, from);
    }
  }

  lemma {:induction false} ValueUnchanged(m: Message, enumName: string, from: string, to: string)
    requires !MessageUsesValue(m, enumName, from)
    ensures RenamedValue(m, enumName, from, to) == m
    decreases m, 1
  {
    ValueFieldsUnchanged(m.field, enumName, from, to);
    ValueFieldsUnchanged(m.extension, enumName, from, to);
    ValueNestedUnchanged(m.nestedType, enumName, from, to);
  }

  lemma {:induction false} ValueNestedUnchanged(ms: seq<Message>, enumName: string, from: string, to: string)
    requires !NestedUsesValue(ms, enumName, from)
    ensures RenamedValueNested(ms, enumName, from, to) == ms
    decreases ms, 0
  {
    if ms != [] {
      ValueUnchanged(ms[0], enumName, from, to);
      ValueNestedUnchanged(ms[1..], enumName, from, to);
      assert ms == [ms[0]] + ms[1..];
    }
  }

  // ----- bookkeeping -----

  /** The declarations an operation writes, and the ones it drops, when it succeeds. */
  function Writes(d: Doc, op: ProtoOp): set<string> {
    if EditsMessage(op) then {op.message}
    else if EditsService(op) then {op.service}
    else
      match op
      case CreateMessage(name) => {name}
      case RenameMessage(from, to) =>
        {to} + RewrittenMessages(d.messages, from, from) + RewrittenServices(d.services, from)
      case CreateEnum(name) => {name}
      case AddEnumValue(name, _, _) => {name}
      case RemoveEnumValue(name, _) => {name}
      case RenameEnumValue(name, value, _) => {name} + UsersOf(d.messages, name, value)
      case AddService(name) => {name}
      case RenameService(_, to) => {to}
      case _ => {}
  }

  function RewrittenMessages(messages: map<string, Message>, target: string, skip: string): set<string> {
    set n | n in messages && n != skip && MessageReferences(messages[n], target)
  }

  /** All messages but `skip` rewritten. */
  function OthersRenamed(messages: map<string, Message>, from: string, to: string, skip: string): map<string, Message> {
    map n | n in messages :: if n == skip then messages[n] else RenamedRefs(messages[n], from, to)
  }

  /** Rewriting the renamed message first and the others after is rewriting them all. */
  lemma RenamedInTwoSteps(messages: map<string, Message>, from: string, to: string)
    requires from in messages && (from == to || to !in messages)
    ensures var rest, m := messages - {from}, messages[from].(name := Some(to));
            var first := rest[to := RenamedRefs(m, from, to)];
            && OthersRenamed(first, from, to, to) == RenamedMessages(rest[to := m], from, to)
            && RewrittenMessages(first, from, to) == RewrittenMessages(messages, from, from)
  {}

  function RewrittenServices(services: map<string, Service>, target: string): set<string> {
    set n | n in services && ServiceReferences(services[n], target)
  }

  function UsersOf(messages: map<string, Message>, enumName: string, value: string): set<string> {
    set n | n in messages && MessageUsesValue(messages[n], enumName, value)
  }

  function Drops(op: ProtoOp): set<string> {
    match op
    case RenameMessage(from, to) => {from} - {to}
    case DeleteMessage(name) => {name}
    case DeleteEnum(name) => {name}
    case RemoveService(name) => {name}
    case RenameService(from, to) => {from} - {to}
    case _ => {}
  }

  /** The order in which a rename updates the two sets does not matter. */
  lemma MovedSets(touched: set<string>, removed: set<string>, from: string, to: string, a: set<string>, b: set<string>)
    ensures touched - {from} + {to} + a + b == (touched - ({from} - {to})) + ({to} + a + b)
    ensures removed + {from} - {to} - a - b == (removed + ({from} - {to})) - ({to} + a + b)
  {}

  /** A working copy with its change tracking; `ever` is every name declared since loading. */
  datatype Books = Books(doc: Doc, touched: set<string>, removed: set<string>, dirty: bool, ever: set<string>)

  /** Removed means declared at some point and not now. */
  ghost predicate Tracked(b: Books) {
    && NamesOf(b.doc) <= b.ever
    && b.touched <= NamesOf(b.doc)
    && b.removed == b.ever - NamesOf(b.doc)
  }

  ghost predicate Complete(base: Schema<Decl, Meta>, b: Books) {
    && KindsApart(b.doc)
    && base.decls.Keys <= b.ever
    && Tracked(b)
    && Accounts(base, Stored(b.doc), b.touched, b.removed, b.dirty)
  }

  /** What an operation neither writes nor drops it leaves alone. */
  ghost predicate Covered(d: Doc, next: Doc, writes: set<string>, drops: set<string>) {
    && writes !! drops
    && (forall n :: Exists(next, n) <==> (Exists(d, n) && n !in drops) || n in writes)
    && (forall n :: n in drops ==> Exists(d, n))
    && (forall n :: n in next.messages && n !in writes ==> n in d.messages && next.messages[n] == d.messages[n])
    && (forall n :: n in next.enums && n !in writes ==> n in d.enums && next.enums[n] == d.enums[n])
    && (forall n :: n in next.services && n !in writes ==> n in d.services && next.services[n] == d.services[n])
  }

  lemma RenameCovered(d: Doc, from: string, to: string)
    requires KindsApart(d) && RenameMessageIn(d, from, to).Success?
    ensures Covered(d, RenameMessageIn(d, from, to).value, Writes(d, RenameMessage(from, to)),
                    Drops(RenameMessage(from, to)))
  {
    var next := RenameMessageIn(d, from, to).value;
    var writes := Writes(d, RenameMessage(from, to));
    forall n | n in next.messages && n !in writes ensures n in d.messages && next.messages[n] == d.messages[n] {
      MessageUnchanged(d.messages[n], from, to);
    }
    forall n | n in next.services && n !in writes ensures n in d.services && next.services[n] == d.services[n] {
      ServiceUnchanged(d.services[n], from, to);
    }
  }

  lemma RenameValueCovered(d: Doc, op: ProtoOp)
    requires op.RenameEnumValue? && KindsApart(d) && RenameEnumValueIn(d, op).Success?
    ensures Covered(d, RenameEnumValueIn(d, op).value, Writes(d, op), Drops(op))
  {
    var next := RenameEnumValueIn(d, op).value;
    forall n | n in next.messages && n !in Writes(d, op) ensures n in d.messages && next.messages[n] == d.messages[n] {
      ValueUnchanged(d.messages[n], op.enumName, op.value, op.newName);
    }
  }

  predicate Reshapes(op: ProtoOp) {
    op.CreateMessage? || op.DeleteMessage? || op.CreateEnum? || op.DeleteEnum?
  }

  predicate ReshapesServices(op: ProtoOp) { op.AddService? || op.RemoveService? || op.RenameService? }

  predicate EditsValue(op: ProtoOp) {
    op.AddEnumValue? || op.RemoveEnumValue? || op.RenameEnumValue?
  }

  lemma ReshapeCovered(d: Doc, op: ProtoOp, defer: bool)
    requires KindsApart(d) && Reshapes(op) && ApplyOp(d, op, defer).Success?
    ensures Covered(d, ApplyOp(d, op, defer).value, Writes(d, op), Drops(op))
  {}

  lemma ServicesCovered(d: Doc, op: ProtoOp, defer: bool)
    requires KindsApart(d) && ReshapesServices(op) && ApplyOp(d, op, defer).Success?
    ensures Covered(d, ApplyOp(d, op, defer).value, Writes(d, op), Drops(op))
  {}

  lemma EditCovered(d: Doc, op: ProtoOp, defer: bool)
    requires KindsApart(d) && !Reshapes(op) && !ReshapesServices(op) && !op.RenameMessage? && !op.RenameEnumValue?
    requires ApplyOp(d, op, defer).Success?
    ensures Covered(d, ApplyOp(d, op, defer).value, Writes(d, op), Drops(op))
  {}

  lemma OpCovered(d: Doc, op: ProtoOp, defer: bool)
    requires KindsApart(d) && ApplyOp(d, op, defer).Success?
    ensures Covered(d, ApplyOp(d, op, defer).value, Writes(d, op), Drops(op))
  {
    if op.RenameMessage? {
      RenameCovered(d, op.message, op.newName);
    } else if op.RenameEnumValue? {
      RenameValueCovered(d, op);
    } else if Reshapes(op) {
      ReshapeCovered(d, op, defer);
    } else if ReshapesServices(op) {
      ServicesCovered(d, op, defer);
    } else {
      EditCovered(d, op, defer);
    }
  }

  function Recorded(b: Books, next: Doc, writes: set<string>, drops: set<string>, dirty: bool): Books {
    Books(next, (b.touched - drops) + writes, (b.removed + drops) - writes, dirty, b.ever + NamesOf(next))
  }

  lemma TrackedStep(b: Books, next: Doc, writes: set<string>, drops: set<string>, dirty: bool)
    requires Tracked(b) && Covered(b.doc, next, writes, drops)
    ensures Tracked(Recorded(b, next, writes, drops, dirty))
  {
    assert NamesOf(next) == (NamesOf(b.doc) - drops) + writes by {
      forall n ensures n in NamesOf(next) <==> n in (NamesOf(b.doc) - drops) + writes {
        assert Exists(next, n) <==> (Exists(b.doc, n) && n !in drops) || n in writes;
      }
    }
    assert drops <= NamesOf(b.doc);
  }

  lemma UnwrittenKept(d: Doc, next: Doc, writes: set<string>, drops: set<string>, n: string)
    requires KindsApart(next) && KindsApart(d) && Covered(d, next, writes, drops) && Exists(next, n) && n !in writes
    ensures Exists(d, n) && DeclAt(next, n) == DeclAt(d, n)
  {}

  /** Recording an operation's writes and drops keeps the books complete. */
  lemma CompleteStep(base: Schema<Decl, Meta>, b: Books, next: Doc, writes: set<string>, drops: set<string>,
                     dirty: bool)
    requires Complete(base, b) && KindsApart(next) && Covered(b.doc, next, writes, drops)
    requires dirty || (!b.dirty && next.meta == b.doc.meta)
    ensures Complete(base, Recorded(b, next, writes, drops, dirty))
  {
    TrackedStep(b, next, writes, drops, dirty);
    var b' := Recorded(b, next, writes, drops, dirty);
    forall n | n in NamesOf(next) && n !in b'.touched
      ensures n !in b.touched && n in NamesOf(b.doc) && DeclAt(next, n) == DeclAt(b.doc, n)
    {
      UnwrittenKept(b.doc, next, writes, drops, n);
    }
    AccountsStep(base, Stored(b.doc), Stored(next), b.touched, b'.touched, b.removed, b'.removed, b.dirty, dirty);
  }

  lemma CompleteOp(base: Schema<Decl, Meta>, b: Books, op: ProtoOp, defer: bool, dirty: bool)
    requires Complete(base, b) && ApplyOp(b.doc, op, defer).Success?
    requires dirty || (!b.dirty && ApplyOp(b.doc, op, defer).value.meta == b.doc.meta)
    ensures Complete(base, Recorded(b, ApplyOp(b.doc, op, defer).value, Writes(b.doc, op), Drops(op), dirty))
  {
    OpCovered(b.doc, op, defer);
    ApplyKeepsKindsApart(b.doc, op, defer);
    CompleteStep(base, b, ApplyOp(b.doc, op, defer).value, Writes(b.doc, op), Drops(op), dirty);
  }

  /** A batch so far: the document, every name declared since loading, every enum value removed. */
  datatype Progress = Progress(doc: Doc, ever: set<string>, values: set<(string, string)>)

  function ValuesRemovedBy(op: ProtoOp): set<(string, string)> {
    if op.RemoveEnumValue? then {(op.enumName, op.value)} else {}
  }

  function Advance(p: Progress, op: ProtoOp, defer: bool): Result<Progress, MutationError> {
    var next :- ApplyOp(p.doc, op, defer);
    Success(Progress(next, p.ever + NamesOf(next), p.values + ValuesRemovedBy(op)))
  }

  function RunFrom(p: Progress, ops: seq<ProtoOp>, defer: bool): Result<Progress, MutationError>
    decreases |ops|
  {
    if ops == [] then Success(p)
    else
      var next :- Advance(p, ops[0], defer);
      RunFrom(next, ops[1..], defer)
  }

  lemma RemovedValuesStep(ops: seq<ProtoOp>)
    requires ops != []
    ensures RemovedValues(ops) == ValuesRemovedBy(ops[0]) + RemovedValues(ops[1..])
  {
    forall v | v in RemovedValues(ops[1..]) ensures v in RemovedValues(ops) {
      var i :| 0 <= i < |ops| - 1 && ops[1..][i].RemoveEnumValue? && (ops[1..][i].enumName, ops[1..][i].value) == v;
      assert ops[i + 1] == ops[1..][i];
    }
    forall v | v in RemovedValues(ops) ensures v in ValuesRemovedBy(ops[0]) + RemovedValues(ops[1..]) {
      var i :| 0 <= i < |ops| && ops[i].RemoveEnumValue? && (ops[i].enumName, ops[i].value) == v;
      assert i > 0 ==> ops[1..][i - 1] == ops[i];
    }
  }

  /** What a run accumulates, step by step, is what its specification collects. */
  lemma {:induction false} RunFromSpec(p: Progress, ops: seq<ProtoOp>, defer: bool)
    requires NamesOf(p.doc) <= p.ever
    ensures Run(p.doc, ops, defer).Failure? ==> RunFrom(p, ops, defer) == Failure(Run(p.doc, ops, defer).error)
    ensures Run(p.doc, ops, defer).Success? ==>
              RunFrom(p, ops, defer)
              == Success(Progress(Run(p.doc, ops, defer).value, p.ever + Ever(p.doc, ops, defer),
                                  p.values + RemovedValues(ops)))
    decreases |ops|
  {
    if ops == [] {
      assert p.ever + Ever(p.doc, ops, defer) == p.ever && p.values + RemovedValues(ops) == p.values;
    } else if ApplyOp(p.doc, ops[0], defer).Success? {
      var next := Advance(p, ops[0], defer).value;
      RunFromSpec(next, ops[1..], defer);
      RemovedValuesStep(ops);
      assert p.ever + Ever(p.doc, ops, defer) == next.ever + Ever(next.doc, ops[1..], defer);
      assert p.values + RemovedValues(ops) == next.values + RemovedValues(ops[1..]);
    }
  }

  /** Rewrite the references of a field list in place, reporting whether any changed. */
  method RenameFields(before: seq<Field>, from: string, to: string) returns (fields: seq<Field>, changed: bool)
    ensures fields == RenamedFields(before, from, to) && (changed || fields == before)
  {
    fields, changed := before, false;
    for i := 0 to |before|
      invariant |fields| == |before|
      invariant forall j :: 0 <= j < i ==> fields[j] == RenamedField(before[j], from, to)
      invariant forall j :: i <= j < |fields| ==> fields[j] == before[j]
      invariant changed || fields == before
    {
      if FieldReferences(fields[i], from) {
        changed := true;
      }
      fields := fields[i := RenamedField(fields[i], from, to)];
    }
  }

  method RenameOrder(before: seq<string>, from: string, to: string) returns (order: seq<string>, changed: bool)
    ensures order == RenamedOrder(before, from, to) && (changed || order == before)
  {
    order, changed := before, false;
    for i := 0 to |before|
      invariant |order| == |before|
      invariant forall j :: 0 <= j < i ==> order[j] == if before[j] == from then to else before[j]
      invariant forall j :: i <= j < |order| ==> order[j] == before[j]
      invariant changed || order == before
    {
      if order[i] == from {
        order := order[i := to];
        changed := true;
      }
    }
  }

  method RenameValueFields(before: seq<Field>, enumName: string, from: string, to: string)
    returns (fields: seq<Field>, changed: bool)
    ensures fields == RenamedValueFields(before, enumName, from, to) && (changed || fields == before)
  {
    fields, changed := before, false;
    for i := 0 to |before|
      invariant |fields| == |before|
      invariant forall j :: 0 <= j < i ==> fields[j] == RenamedValueField(before[j], enumName, from, to)
      invariant forall j :: i <= j < |fields| ==> fields[j] == before[j]
      invariant changed || fields == before
    {
      if FieldUsesValue(fields[i], enumName, from) {
        fields := fields[i := fields[i].(defaultValue := Some(to))];
        changed := true;
      }
    }
  }

  class WorkingState {
    var messages: map<string, Message>
    var enums: map<string, Enum>
    var services: map<string, Service>
    var meta: Meta
    var metaDirty: bool
    var touched: set<string>
    var removed: set<string>
    var removedEnumValues: set<(string, string)>
    const deferReferenceIntegrity: bool

    /** The stored schema the copy was loaded from. */
    ghost const base: Schema<Decl, Meta>
    /** Every name declared since loading. */
    ghost var ever: set<string>

    ghost function Now(): Doc
      reads this
    {
      Doc(messages, enums, services, meta)
    }

    ghost function Tracking(): Books
      reads this
    {
      Books(Now(), touched, removed, metaDirty, ever)
    }

    ghost function SoFar(): Progress
      reads this
    {
      Progress(Now(), ever, removedEnumValues)
    }

    ghost predicate Valid()
      reads this
    {
      Complete(base, Tracking())
    }

    /**
     The outcome of one operation: the prescribed document, its writes and drops recorded; a failure changes nothing.
     */
    ghost predicate Steps(before: Books, next: Result<Doc, MutationError>, writes: set<string>, drops: set<string>,
                          r: Result<(), MutationError>)
      reads this
    {
      match next
      case Success(d) =>
        && r == Success(()) && Now() == d
        && touched == (before.touched - drops) + writes
        && removed == (before.removed + drops) - writes
        && (metaDirty || (!before.dirty && meta == before.doc.meta))
        && ever == before.ever + NamesOf(d)
      case Failure(e) => r == Failure(e) && Tracking() == before
    }

    constructor Load(schema: Schema<Decl, Meta>, defer: bool)
      ensures Valid() && base == schema && Now() == ProtoOps.Load(schema) && deferReferenceIntegrity == defer
      ensures ever == NamesOf(Now()) && removedEnumValues == {}
    {
      var doc := ProtoOps.Load(schema);
      messages, enums, services, meta := doc.messages, doc.enums, doc.services, doc.meta;
      metaDirty := false;
      touched, removed, removedEnumValues := {}, {}, {};
      deferReferenceIntegrity := defer;
      base := schema;
      ever := NamesOf(doc);
      new;
      StoredLoad(schema);
    }

    /** The net patch. Applied to the stored schema it gives exactly the working copy. */
    method IntoEffect(original: Schema<Decl, Meta>) returns (e: Effect<Decl, Meta>)
      requires Valid() && original == base
      ensures Patch(original, e) == Stored(Now())
      ensures e.upserts.Keys !! e.removes && e.removes <= original.decls.Keys
    {
      var upserts: map<string, Decl> := map[];
      var todo := touched;
      while todo != {}
        invariant todo <= touched
        invariant upserts == map n | n in touched - todo && n !in removed && Exists(Now(), n) :: DeclAt(Now(), n)
        decreases todo
      {
        var name :| name in todo;
        if name !in removed {
          if name in messages {
            upserts := upserts[name := MessageDecl(messages[name])];
          } else if name in enums {
            upserts := upserts[name := EnumDecl(enums[name])];
          } else if name in services {
            upserts := upserts[name := ServiceDecl(services[name])];
          }
        }
        todo := todo - {name};
      }
      var removes := set n | n in removed && n in original.decls;
      e := Effect(if metaDirty then Some(meta) else None, upserts, removes);
      AccountedPatch(base, Stored(Now()), touched, removed, metaDirty, e);
    }

    /** `touch`: a written name is no longer a removed one. */
    method Touch(name: string)
      modifies this`touched, this`removed
      ensures touched == old(touched) + {name} && removed == old(removed) - {name}
    {
      touched := touched + {name};
      removed := removed - {name};
    }

    /** The field operations: find the message, edit it, touch it. */
    method EditMessage(op: ProtoOp) returns (r: Result<(), MutationError>)
      requires EditsMessage(op)
      modifies this`messages, this`touched, this`removed, this`ever
      ensures Steps(old(Tracking()), EditMessageIn(old(Now()), op), {op.message}, {}, r)
    {
      if op.ChangeCardinality? && CardinalityToLabel(op.cardinality).Failure? {
        return Failure(InvalidOperation);
      }
      if op.message !in messages {
        return Failure(DeclarationNotFound(op.message));
      }
      var edited := ProtoOps.EditMessage(messages[op.message], op);
      if edited.Failure? {
        return Failure(edited.error);
      }
      messages := messages[op.message := edited.value];
      Touch(op.message);
      ever := ever + NamesOf(Now());
      return Success(());
    }

    method CreateMessage(name: string) returns (r: Result<(), MutationError>)
      modifies this`messages, this`meta, this`metaDirty, this`touched, this`removed, this`ever
      ensures Steps(old(Tracking()), CreateMessageIn(old(Now()), name), {name}, {}, r)
    {
      if name in messages || name in enums || name in services {
        return Failure(InvalidOperation);
      }
      messages := messages[name := EmptyMessage.(name := Some(name))];
      meta := meta.(messageOrder := meta.messageOrder + [name]);
      metaDirty := true;
      Touch(name);
      ever := ever + NamesOf(Now());
      return Success(());
    }

    method DeleteMessage(name: string) returns (r: Result<(), MutationError>)
      modifies this`messages, this`meta, this`metaDirty, this`touched, this`removed, this`ever
      ensures Steps(old(Tracking()), DeleteMessageIn(old(Now()), name, deferReferenceIntegrity), {}, {name}, r)
    {
      if name !in messages {
        return Failure(DeclarationNotFound(name));
      }
      var referenced := Referenced(Doc(messages, enums, services, meta), name, Some(name));
      if !deferReferenceIntegrity && referenced {
        return Failure(InvalidOperation);
      }
      messages := messages - {name};
      meta := meta.(messageOrder := Without(meta.messageOrder, name));
      metaDirty := true;
      removed := removed + {name};
      touched := touched - {name};
      ever := ever + NamesOf(Now());
      return Success(());
    }

    method CreateEnum(name: string) returns (r: Result<(), MutationError>)
      modifies this`enums, this`meta, this`metaDirty, this`touched, this`removed, this`ever
      ensures Steps(old(Tracking()), CreateEnumIn(old(Now()), name), {name}, {}, r)
    {
      if name in messages || name in enums || name in services {
        return Failure(InvalidOperation);
      }
      enums := enums[name := EmptyEnum.(name := Some(name))];
      meta := meta.(enumOrder := meta.enumOrder + [name]);
      metaDirty := true;
      Touch(name);
      ever := ever + NamesOf(Now());
      return Success(());
    }

    method DeleteEnum(name: string) returns (r: Result<(), MutationError>)
      modifies this`enums, this`meta, this`metaDirty, this`touched, this`removed, this`ever
      ensures Steps(old(Tracking()), DeleteEnumIn(old(Now()), name, deferReferenceIntegrity), {}, {name}, r)
    {
      if name !in enums {
        return Failure(DeclarationNotFound(name));
      }
      var referenced := Referenced(Doc(messages, enums, services, meta), name, None);
      if !deferReferenceIntegrity && referenced {
        return Failure(InvalidOperation);
      }
      enums := enums - {name};
      meta := meta.(enumOrder := Without(meta.enumOrder, name));
      metaDirty := true;
      removed := removed + {name};
      touched := touched - {name};
      ever := ever + NamesOf(Now());
      return Success(());
    }

    method AddEnumValue(op: ProtoOp) returns (r: Result<(), MutationError>)
      requires op.AddEnumValue?
      modifies this`enums, this`touched, this`removed, this`ever
      ensures Steps(old(Tracking()), AddEnumValueIn(old(Now()), op), {op.enumName}, {}, r)
    {
      if op.enumName !in enums {
        return Failure(DeclarationNotFound(op.enumName));
      }
      var edited := AddEnumValueTo(enums[op.enumName], op, meta.syntax == Some("proto3"));
      if edited.Failure? {
        return Failure(edited.error);
      }
      enums := enums[op.enumName := edited.value];
      Touch(op.enumName);
      ever := ever + NamesOf(Now());
      return Success(());
    }

    method RemoveEnumValue(op: ProtoOp) returns (r: Result<(), MutationError>)
      requires op.RemoveEnumValue?
      modifies this`enums, this`removedEnumValues, this`touched, this`removed, this`ever
      ensures Steps(old(Tracking()), RemoveEnumValueIn(old(Now()), op, deferReferenceIntegrity), {op.enumName}, {}, r)
      ensures removedEnumValues == old(removedEnumValues) + (if r.Success? then {(op.enumName, op.value)} else {})
    {
      var used := ValueUsed(Doc(messages, enums, services, meta), op.enumName, op.value);
      if !deferReferenceIntegrity && used {
        return Failure(InvalidOperation);
      }
      if op.enumName !in enums {
        return Failure(DeclarationNotFound(op.enumName));
      }
      var edited := RemoveEnumValueFrom(enums[op.enumName], op);
      if edited.Failure? {
        return Failure(edited.error);
      }
      enums := enums[op.enumName := edited.value];
      removedEnumValues := removedEnumValues + {(op.enumName, op.value)};
      Touch(op.enumName);
      ever := ever + NamesOf(Now());
      return Success(());
    }

    method AddService(name: string) returns (r: Result<(), MutationError>)
      modifies this`services, this`meta, this`metaDirty, this`touched, this`removed, this`ever
      ensures Steps(old(Tracking()), AddServiceIn(old(Now()), name), {name}, {}, r)
    {
      if name in messages || name in enums || name in services {
        return Failure(InvalidOperation);
      }
      services := services[name := EmptyService.(name := Some(name))];
      meta := meta.(serviceOrder := meta.serviceOrder + [name]);
      metaDirty := true;
      Touch(name);
      ever := ever + NamesOf(Now());
      return Success(());
    }

    method RemoveService(name: string) returns (r: Result<(), MutationError>)
      modifies this`services, this`meta, this`metaDirty, this`touched, this`removed, this`ever
      ensures Steps(old(Tracking()), RemoveServiceIn(old(Now()), name), {}, {name}, r)
    {
      if name !in services {
        return Failure(DeclarationNotFound(name));
      }
      services := services - {name};
      meta := meta.(serviceOrder := Without(meta.serviceOrder, name));
      metaDirty := true;
      removed := removed + {name};
      touched := touched - {name};
      ever := ever + NamesOf(Now());
      return Success(());
    }

    method RenameService(from: string, to: string) returns (r: Result<(), MutationError>)
      modifies this`services, this`meta, this`metaDirty, this`touched, this`removed, this`ever
      ensures Steps(old(Tracking()), RenameServiceIn(old(Now()), from, to), {to}, {from} - {to}, r)
    {
      if from != to && (to in messages || to in enums || to in services) {
        return Failure(InvalidOperation);
      }
      if from !in services {
        return Failure(DeclarationNotFound(from));
      }
      var s := services[from].(name := Some(to));
      services := (services - {from})[to := s];
      meta := meta.(serviceOrder := RenamedOrder(meta.serviceOrder, from, to));
      metaDirty := true;
      removed := removed + {from};
      touched := touched - {from};
      Touch(to);
      MovedSets(old(touched), old(removed), from, to, {}, {});
      ever := ever + NamesOf(Now());
      return Success(());
    }

    /** The RPC operations: find the service, edit it, touch it. */
    method EditService(op: ProtoOp) returns (r: Result<(), MutationError>)
      requires EditsService(op)
      modifies this`services, this`touched, this`removed, this`ever
      ensures Steps(old(Tracking()), EditServiceIn(old(Now()), op), {op.service}, {}, r)
    {
      if op.service !in services {
        return Failure(DeclarationNotFound(op.service));
      }
      var edited := ProtoOps.EditService(services[op.service], op);
      if edited.Failure? {
        return Failure(edited.error);
      }
      services := services[op.service := edited.value];
      Touch(op.service);
      ever := ever + NamesOf(Now());
      return Success(());
    }

    /** Touch every name of a list. */
    method TouchAll(names: set<string>)
      modifies this`touched, this`removed
      ensures touched == old(touched) + names && removed == old(removed) - names
    {
      var todo := names;
      while todo != {}
        invariant todo <= names
        invariant touched == old(touched) + (names - todo) && removed == old(removed) - (names - todo)
        decreases todo
      {
        var name :| name in todo;
        todo := todo - {name};
        Touch(name);
      }
    }

    /** Rewrite the references in every message but `skip`, which has been rewritten already. */
    method RenameInMessages(from: string, to: string, skip: string)
      modifies this`messages, this`touched, this`removed
      ensures messages == OthersRenamed(old(messages), from, to, skip)
      ensures touched == old(touched) + RewrittenMessages(old(messages), from, skip)
      ensures removed == old(removed) - RewrittenMessages(old(messages), from, skip)
    {
      var names;
      messages, names := RewriteAll(messages, (n, x) => n != skip && MessageReferences(x, from),
                                    (n, x) => if n == skip then x else RenamedRefs(x, from, to));
      TouchAll(names);
    }

    method RenameInServices(from: string, to: string)
      modifies this`services, this`touched, this`removed
      ensures services == RenamedServices(old(services), from, to)
      ensures touched == old(touched) + RewrittenServices(old(services), from)
      ensures removed == old(removed) - RewrittenServices(old(services), from)
    {
      var names;
      services, names := RewriteAll(services, (n, x) => ServiceReferences(x, from),
                                    (n, x) => RenamedService(x, from, to));
      TouchAll(names);
    }

    method RenameInMeta(from: string, to: string)
      modifies this`meta, this`metaDirty
      ensures meta == RenamedMeta(old(meta), from, to)
      ensures metaDirty || (!old(metaDirty) && meta == old(meta))
    {
      var fields, fieldsChanged := RenameFields(meta.extension, from, to);
      var order, orderChanged := RenameOrder(meta.messageOrder, from, to);
      meta := meta.(extension := fields, messageOrder := order);
      if fieldsChanged || orderChanged {
        metaDirty := true;
      }
    }

    /** Re-key a message, rewriting its references to itself. */
    method MoveMessage(from: string, to: string)
      requires from in messages
      modifies this`messages, this`touched, this`removed
      ensures messages == (old(messages) - {from})[to := RenamedRefs(old(messages)[from].(name := Some(to)), from, to)]
      ensures touched == old(touched) - {from} + {to} && removed == old(removed) + {from} - {to}
    {
      var m := RenamedRefs(messages[from].(name := Some(to)), from, to);
      messages := (messages - {from})[to := m];
      removed := removed + {from};
      touched := touched - {from};
      Touch(to);
    }

    /** Carry a rename to everything else that mentions the old name. */
    method PropagateRename(from: string, to: string)
      modifies this`messages, this`services, this`meta, this`metaDirty, this`touched, this`removed
      ensures messages == OthersRenamed(old(messages), from, to, to)
      ensures services == RenamedServices(old(services), from, to)
      ensures meta == RenamedMeta(old(meta), from, to)
      ensures metaDirty || (!old(metaDirty) && meta == old(meta))
      ensures touched == old(touched) + RewrittenMessages(old(messages), from, to)
                         + RewrittenServices(old(services), from)
      ensures removed == old(removed) - RewrittenMessages(old(messages), from, to)
                         - RewrittenServices(old(services), from)
    {
      RenameInMessages(from, to, to);
      RenameInServices(from, to);
      RenameInMeta(from, to);
    }

    method RenameMessage(from: string, to: string) returns (r: Result<(), MutationError>)
      modifies this`messages, this`services, this`meta, this`metaDirty, this`touched, this`removed, this`ever
      ensures Steps(old(Tracking()), RenameMessageIn(old(Now()), from, to),
                    {to} + RewrittenMessages(old(messages), from, from) + RewrittenServices(old(services), from),
                    {from} - {to}, r)
    {
      if from != to && (to in messages || to in enums || to in services) {
        return Failure(InvalidOperation);
      }
      if from !in messages {
        return Failure(DeclarationNotFound(from));
      }
      RenamedInTwoSteps(messages, from, to);
      MovedSets(touched, removed, from, to, RewrittenMessages(messages, from, from), RewrittenServices(services, from));
      MoveMessage(from, to);
      PropagateRename(from, to);
      ever := ever + NamesOf(Now());
      return Success(());
    }

    method RenameValueInMeta(enumName: string, from: string, to: string)
      modifies this`meta, this`metaDirty
      ensures meta == old(meta).(extension := RenamedValueFields(old(meta).extension, enumName, from, to))
      ensures metaDirty || (!old(metaDirty) && meta == old(meta))
    {
      var fields, changed := RenameValueFields(meta.extension, enumName, from, to);
      meta := meta.(extension := fields);
      if changed {
        metaDirty := true;
      }
    }

    method PropagateValueRename(enumName: string, from: string, to: string)
      modifies this`messages, this`meta, this`metaDirty, this`touched, this`removed
      ensures messages == RenamedValueMessages(old(messages), enumName, from, to)
      ensures meta == old(meta).(extension := RenamedValueFields(old(meta).extension, enumName, from, to))
      ensures metaDirty || (!old(metaDirty) && meta == old(meta))
      ensures touched == old(touched) + ({enumName} + UsersOf(old(messages), enumName, from))
      ensures removed == old(removed) - ({enumName} + UsersOf(old(messages), enumName, from))
    {
      var names;
      messages, names := RewriteAll(messages, (n, x) => MessageUsesValue(x, enumName, from),
                                    (n, x) => RenamedValue(x, enumName, from, to));
      TouchAll(names);
      RenameValueInMeta(enumName, from, to);
      Touch(enumName);
    }

    method RenameEnumValue(op: ProtoOp) returns (r: Result<(), MutationError>)
      requires op.RenameEnumValue?
      modifies this`messages, this`enums, this`meta, this`metaDirty, this`touched, this`removed, this`ever
      ensures Steps(old(Tracking()), RenameEnumValueIn(old(Now()), op),
                    {op.enumName} + UsersOf(old(messages), op.enumName, op.value), {}, r)
    {
      if op.enumName !in enums {
        return Failure(DeclarationNotFound(op.enumName));
      }
      var e := enums[op.enumName];
      if FindValue(e.value, op.newName).Some? {
        return Failure(InvalidOperation);
      }
      var at := FindValue(e.value, op.value);
      if at.None? {
        return Failure(FieldNotFound(op.enumName, op.value));
      }
      enums := enums[op.enumName := e.(value := e.value[at.value := e.value[at.value].(name := Some(op.newName))])];
      PropagateValueRename(op.enumName, op.value, op.newName);
      ever := ever + NamesOf(Now());
      return Success(());
    }

    method UpdateImport(path: string, commit: string, remove: bool)
      modifies this`meta, this`metaDirty, this`ever
      ensures meta == UpdateImportIn(old(meta), path, commit, remove) && metaDirty
      ensures ever == old(ever) + NamesOf(Now())
    {
      meta := meta.(dependencyCommit := Resized(meta.dependencyCommit, |meta.dependency|));
      var at := IndexOf(meta.dependency, path);
      if remove {
        if at.Some? {
          var pos := at.value;
          meta := meta.(dependency := meta.dependency[..pos] + meta.dependency[pos + 1..],
                        dependencyCommit := meta.dependencyCommit[..pos] + meta.dependencyCommit[pos + 1..]);
          var indices := ProtoImports.Reindex(meta.publicDependency, pos);
          meta := meta.(publicDependency := indices);
          indices := ProtoImports.Reindex(meta.weakDependency, pos);
          meta := meta.(weakDependency := indices);
        }
      } else if at.Some? {
        meta := meta.(dependencyCommit := meta.dependencyCommit[at.value := commit]);
      } else {
        meta := meta.(dependency := meta.dependency + [path], dependencyCommit := meta.dependencyCommit + [commit]);
      }
      metaDirty := true;
      ever := ever + NamesOf(Now());
    }

    method Dispatch(op: ProtoOp) returns (r: Result<(), MutationError>)
      modifies this
      ensures Steps(old(Tracking()), ApplyOp(old(Now()), op, deferReferenceIntegrity), Writes(old(Now()), op),
                    Drops(op), r)
      ensures removedEnumValues == old(removedEnumValues) + (if r.Success? then ValuesRemovedBy(op) else {})
    {
      if EditsMessage(op) {
        r := EditMessage(op);
      } else if EditsService(op) {
        r := EditService(op);
      } else if EditsValue(op) {
        r := DispatchValue(op);
      } else if ReshapesServices(op) {
        r := DispatchServices(op);
      } else {
        r := DispatchOther(op);
      }
    }

    method DispatchServices(op: ProtoOp) returns (r: Result<(), MutationError>)
      requires ReshapesServices(op)
      modifies this
      ensures Steps(old(Tracking()), ApplyOp(old(Now()), op, deferReferenceIntegrity), Writes(old(Now()), op),
                    Drops(op), r)
      ensures removedEnumValues == old(removedEnumValues) + (if r.Success? then ValuesRemovedBy(op) else {})
    {
      match op
      case AddService(name) => r := AddService(name);
      case RemoveService(name) => r := RemoveService(name);
      case RenameService(from, to) => r := RenameService(from, to);
    }

    method DispatchValue(op: ProtoOp) returns (r: Result<(), MutationError>)
      requires EditsValue(op)
      modifies this
      ensures Steps(old(Tracking()), ApplyOp(old(Now()), op, deferReferenceIntegrity), Writes(old(Now()), op),
                    Drops(op), r)
      ensures removedEnumValues == old(removedEnumValues) + (if r.Success? then ValuesRemovedBy(op) else {})
    {
      match op
      case AddEnumValue(_, _, _) => r := AddEnumValue(op);
      case RemoveEnumValue(_, _) => r := RemoveEnumValue(op);
      case RenameEnumValue(_, _, _) => r := RenameEnumValue(op);
    }

    method DispatchOther(op: ProtoOp) returns (r: Result<(), MutationError>)
      requires !EditsMessage(op) && !EditsService(op) && !EditsValue(op) && !ReshapesServices(op)
      modifies this
      ensures Steps(old(Tracking()), ApplyOp(old(Now()), op, deferReferenceIntegrity), Writes(old(Now()), op),
                    Drops(op), r)
      ensures removedEnumValues == old(removedEnumValues) + (if r.Success? then ValuesRemovedBy(op) else {})
    {
      match op
      case CreateMessage(name) => r := CreateMessage(name);
      case RenameMessage(from, to) => r := RenameMessage(from, to);
      case DeleteMessage(name) => r := DeleteMessage(name);
      case CreateEnum(name) => r := CreateEnum(name);
      case DeleteEnum(name) => r := DeleteEnum(name);
      case UpdateImport(path, commit, remove) => UpdateImport(path, commit, remove); r := Success(());
      case ChangeFieldNumber(_, _, _) => r := Failure(InvalidOperation);
    }

    /** One operation: the working copy goes where the document operation says, and the books stay complete. */
    method Apply(op: ProtoOp) returns (r: Result<(), MutationError>)
      requires Valid()
      modifies this
      ensures Valid()
      ensures match Advance(old(SoFar()), op, deferReferenceIntegrity)
              case Success(p) => r.Success? && SoFar() == p
              case Failure(e) => r == Failure(e) && Tracking() == old(Tracking()) && SoFar() == old(SoFar())
    {
      ghost var before, defer := Tracking(), deferReferenceIntegrity;
      r := Dispatch(op);
      if r.Success? {
        CompleteOp(base, before, op, defer, metaDirty);
        assert Tracking() == Recorded(before, Now(), Writes(before.doc, op), Drops(op), metaDirty);
      }
    }

    /** The operations of a batch in order, up to the first failure. */
    method ApplyAll(ops: seq<ProtoOp>) returns (r: Result<(), MutationError>)
      requires Valid()
      modifies this
      ensures Valid()
      ensures match RunFrom(old(SoFar()), ops, deferReferenceIntegrity)
              case Failure(e) => r == Failure(e)
              case Success(p) => r.Success? && SoFar() == p
    {
      var i := 0;
      while i < |ops|
        invariant 0 <= i <= |ops| && Valid()
        invariant RunFrom(old(SoFar()), ops, deferReferenceIntegrity)
                  == RunFrom(SoFar(), ops[i..], deferReferenceIntegrity)
      {
        assert ops[i..][1..] == ops[i + 1..];
        r := Apply(ops[i]);
        if r.Failure? {
          return;
        }
        i := i + 1;
      }
      r := Success(());
    }

    /** The check at the end of a batch: nothing refers to a removed declaration or enum value. */
    method ValidateRemovedReferences() returns (r: Result<(), MutationError>)
      ensures r.Success? <==> NothingDangling(Now(), removed, removedEnumValues)
      ensures r.Failure? ==> r.error == InvalidOperation
    {
      var names := removed;
      while names != {}
        invariant names <= removed
        invariant forall n :: n in removed && n !in names ==> !Referenced(Now(), n, Some(n))
        decreases names
      {
        var name :| name in names;
        var referenced := Referenced(Doc(messages, enums, services, meta), name, Some(name));
        if referenced {
          return Failure(InvalidOperation);
        }
        names := names - {name};
      }
      var values := removedEnumValues;
      while values != {}
        invariant values <= removedEnumValues
        invariant forall p :: p in removedEnumValues && p !in values ==> !ValueUsed(Now(), p.0, p.1)
        decreases values
      {
        var value :| value in values;
        var used := ValueUsed(Doc(messages, enums, services, meta), value.0, value.1);
        if used {
          return Failure(InvalidOperation);
        }
        values := values - {value};
      }
      return Success(());
    }
  }

  // ----- entry points -----

  /** No declaration or file extension refers to a name in `gone`, and no default uses a value in `values`. */
  ghost predicate NothingDangling(d: Doc, gone: set<string>, values: set<(string, string)>) {
    && (forall n :: n in gone ==> !Referenced(d, n, Some(n)))
    && (forall p :: p in values ==> !ValueUsed(d, p.0, p.1))
  }

  /**
   `apply_one`: accepted exactly when the document operation is; the effect patches the stored schema to its result.
   */
  method ApplyOne(schema: Schema<Decl, Meta>, op: ProtoOp) returns (r: Result<Effect<Decl, Meta>, MutationError>)
    ensures match ApplyOp(Load(schema), op, false)
            case Failure(e) => r == Failure(e)
            case Success(d) => r.Success? && Patches(schema, r.value, Stored(d))
  {
    var state := new WorkingState.Load(schema, false);
    var applied := state.Apply(op);
    if applied.Failure? {
      return Failure(applied.error);
    }
    var e := state.IntoEffect(schema);
    return Success(e);
  }

  /** The effect turns `base` into `goal`, never both writes and drops a name, and drops only stored ones. */
  ghost predicate Patches(base: Schema<Decl, Meta>, e: Effect<Decl, Meta>, goal: Schema<Decl, Meta>) {
    Patch(base, e) == goal && e.upserts.Keys !! e.removes && e.removes <= base.decls.Keys
  }

  /**
   `apply_many`: accepted exactly when the deferred run succeeds and nothing in its result refers to a name that was
   declared at any point and is gone, or to an enum value the batch removed.
   */
  method ApplyMany(schema: Schema<Decl, Meta>, ops: seq<ProtoOp>) returns (r: Result<Effect<Decl, Meta>, MutationError>)
    ensures match Run(Load(schema), ops, true)
            case Failure(e) => r == Failure(e)
            case Success(d) =>
              if NothingDangling(d, Ever(Load(schema), ops, true) - NamesOf(d), RemovedValues(ops))
              then r.Success? && Patches(schema, r.value, Stored(d))
              else r == Failure(InvalidOperation)
  {
    var state := new WorkingState.Load(schema, true);
    RunFromSpec(state.SoFar(), ops, true);
    var applied := state.ApplyAll(ops);
    if applied.Failure? {
      return Failure(applied.error);
    }
    var checked := state.ValidateRemovedReferences();
    if checked.Failure? {
      return Failure(checked.error);
    }
    var e := state.IntoEffect(schema);
    return Success(e);
  }
}
