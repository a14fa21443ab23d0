/**
 The FlatBuffers mutation engine: a working copy edited in place with its change tracking, proved against the operations
 on the stored schema, and what an accepted batch guarantees.
 */
module FlatEngine {
  import opened Wrappers
  import opened Text
  import opened NameLists
  import opened Effects
  import opened FlatOps

  // ----- rewriting reports a change exactly when there was a reference -----

  lemma PayloadUnchanged(p: Payload, from: string, to: string)
    requires !PayloadReferences(p, from)
    ensures RenamedPayload(p, from, to) == p
  {}

  // ----- bookkeeping -----

  function RewrittenBy(decls: map<string, Payload>, from: string): set<string> {
    set n | n in decls && PayloadReferences(decls[n], from)
  }

  function DefaultUsers(decls: map<string, Payload>, enumName: string, value: string): set<string> {
    set n | n in decls && PayloadDefaultsTo(decls[n], enumName, value)
  }

  /** The declarations a successful operation writes. */
  function Writes(d: Doc, op: FlatOp): set<string> {
    match op
    case AddField(table, _, _, _, _) => {table}
    case DeprecateField(table, _) => {table}
    case RenameField(table, _, _) => {table}
    case ChangeFieldType(table, _, _) => {table}
    case RemoveField(_, _) => {}
    case CreateTable(name, _) => {name}
    case CreateEnum(name, _, _) => {name}
    case CreateUnion(name, _) => {name}
    case CreateUnionWithMembers(name, _, _) => {name}
    case AddUnionMember(name, _) => {name}
    case RemoveUnionMember(name, _) => {name}
    case RenameDecl(_, from, to) =>
      if from == to || from !in d.decls then {} else {to} + RewrittenBy(Moved(d.decls, from, to), from)
    case DeleteDecl(_, _) => {}
    case AddEnumValue(name, _, _) => {name}
    case RemoveEnumValue(name, _) => {name}
    case RenameEnumValue(name, value, _) => {name} + DefaultUsers(d.decls, name, value)
    case UpdateImport(_, _, _) => {}
  }

  /** The name a successful operation drops. */
  function Drops(op: FlatOp): set<string> {
    match op
    case RenameDecl(_, from, to) => {from} - {to}
    case DeleteDecl(_, name) => {name}
    case _ => {}
  }

  predicate EditsMembers(op: FlatOp) {
    op.AddUnionMember? || op.RemoveUnionMember? || op.AddEnumValue? || op.RemoveEnumValue? || op.RenameEnumValue?
  }

  /** What an operation neither writes nor drops it leaves alone. */
  ghost predicate Covered(d: Doc, next: Doc, writes: set<string>, drops: set<string>) {
    && (forall n :: n in next.decls && n !in writes ==> n in d.decls && next.decls[n] == d.decls[n])
    && (forall n :: n in d.decls && n !in next.decls ==> n in drops)
    && (forall n :: n in drops ==> n !in next.decls)
  }

  lemma MembersCovered(d: Doc, name: string, members: seq<string>)
    requires AddMembersIn(d, name, members).Success?
    ensures var next := AddMembersIn(d, name, members).value;
            && next.meta == d.meta && d.decls.Keys <= next.decls.Keys
            && (forall n :: n in next.decls && n != name ==> n in d.decls && next.decls[n] == d.decls[n])
    decreases |members|
  {
    if members != [] {
      MembersCovered(AddMemberIn(d, name, members[0]).value, name, members[1..]);
    }
  }

  lemma RenameCovered(d: Doc, op: FlatOp)
    requires op.RenameDecl? && RenameIn(d, op.kind, op.name, op.newName).Success?
    ensures Covered(d, RenameIn(d, op.kind, op.name, op.newName).value, Writes(d, op), Drops(op))
  {
    if op.name != op.newName {
      var moved := Moved(d.decls, op.name, op.newName);
      forall n | n in moved && n !in Writes(d, op) ensures RenamedPayload(moved[n], op.name, op.newName) == d.decls[n] {
        PayloadUnchanged(moved[n], op.name, op.newName);
      }
    }
  }

  lemma ValueRenameCovered(d: Doc, op: FlatOp)
    requires op.RenameEnumValue? && RenameEnumValueIn(d, op).Success?
    ensures Covered(d, RenameEnumValueIn(d, op).value, Writes(d, op), Drops(op))
  {}

  lemma OpCovered(d: Doc, op: FlatOp, defer: bool)
    requires ApplyOp(d, op, defer).Success?
    ensures Covered(d, ApplyOp(d, op, defer).value, Writes(d, op), Drops(op))
  {
    if op.RenameDecl? {
      RenameCovered(d, op);
    } else if op.RenameEnumValue? {
      ValueRenameCovered(d, op);
    } else if op.CreateUnionWithMembers? {
      MembersCovered(CreateIn(d, op.name, NewUnion(op.name, op.doc)).value, op.name, op.members);
    }
  }

  /** A batch so far: the schema, the names dropped, the enum values removed and not added back. */
  datatype Progress = Progress(doc: Doc, dropped: set<string>, values: set<(string, string)>)

  function ValuesAfter(values: set<(string, string)>, op: FlatOp): set<(string, string)> {
    if op.RemoveEnumValue? then values + {(op.name, op.value)}
    else if op.AddEnumValue? then values - {(op.name, op.value)}
    else values
  }

  function Advance(p: Progress, op: FlatOp, defer: bool): Result<Progress, MutationError> {
    var next :- ApplyOp(p.doc, op, defer);
    Success(Progress(next, p.dropped + Drops(op), ValuesAfter(p.values, op)))
  }

  function RunFrom(p: Progress, ops: seq<FlatOp>, defer: bool): Result<Progress, MutationError>
    decreases |ops|
  {
    if ops == [] then Success(p)
    else
      var next :- Advance(p, ops[0], defer);
      RunFrom(next, ops[1..], defer)
  }

  lemma RunFromStep(p: Progress, ops: seq<FlatOp>, i: nat, defer: bool)
    requires i < |ops|
    ensures Advance(p, ops[i], defer).Failure? ==>
              RunFrom(p, ops[i..], defer) == Failure(Advance(p, ops[i], defer).error)
    ensures Advance(p, ops[i], defer).Success? ==>
              RunFrom(p, ops[i..], defer) == RunFrom(Advance(p, ops[i], defer).value, ops[i + 1..], defer)
  {
    assert ops[i..][1..] == ops[i + 1..];
  }

  function Start(d: Doc): Progress { Progress(d, {}, {}) }

  /** The change tracking of a working copy. */
  datatype Books = Books(doc: Doc, touched: set<string>, removed: set<string>, dirty: bool)

  ghost predicate Balanced(base: Doc, b: Books) {
    Accounts(base, b.doc, b.touched, b.removed, b.dirty)
  }

  class WorkingState {
    var decls: map<string, Payload>
    var meta: FlatMeta
    var metaChanged: bool
    var touched: set<string>
    var removed: set<string>
    var removedEnumValues: set<(string, string)>
    const deferReferenceIntegrity: bool

    /** The stored schema the copy was loaded from. */
    ghost const base: Doc

    ghost function Now(): Doc
      reads this
    {
      Schema(decls, meta)
    }

    ghost function Tracking(): Books
      reads this
    {
      Books(Now(), touched, removed, metaChanged)
    }

    ghost function SoFar(): Progress
      reads this
    {
      Progress(Now(), removed, removedEnumValues)
    }

    ghost predicate Valid()
      reads this
    {
      Balanced(base, Tracking())
    }

    /** The outcome of one operation: the prescribed schema, with its writes and drops recorded. */
    ghost predicate Steps(before: Books, next: Result<Doc, MutationError>, writes: set<string>, drops: set<string>,
                          r: Result<(), MutationError>)
      reads this
    {
      match next
      case Failure(e) => r == Failure(e)
      case Success(d) =>
        && r == Success(()) && Now() == d
        && touched == (before.touched - drops) + writes && removed == before.removed + drops
        && (metaChanged || (!before.dirty && meta == before.doc.meta))
    }

    constructor Load(schema: Doc, defer: bool)
      ensures Valid() && base == schema && deferReferenceIntegrity == defer && SoFar() == Start(schema)
    {
      decls, meta := schema.decls, schema.meta;
      metaChanged := false;
      touched, removed, removedEnumValues := {}, {}, {};
      deferReferenceIntegrity := defer;
      base := schema;
    }

    /** The net patch. Applied to the stored schema it gives exactly the working copy. */
    method IntoEffect() returns (e: Effect<Payload, FlatMeta>)
      requires Valid()
      ensures Patch(base, e) == Now() && e.upserts.Keys !! e.removes
    {
      var upserts: map<string, Payload> := map[];
      var todo := touched;
      while todo != {}
        invariant todo <= touched
        invariant upserts == map n | n in touched - todo && n in decls :: decls[n]
        decreases todo
      {
        var name :| name in todo;
        if name in decls {
          upserts := upserts[name := decls[name]];
        }
        todo := todo - {name};
      }
      var removes := set n | n in removed && n !in decls;
      e := Effect(if metaChanged then Some(meta) else None, upserts, removes);
      AccountedPatch(base, Now(), touched, removed, metaChanged, e);
    }

    /** The field operations: find the table, edit it, touch it. */
    method EditTable(op: FlatOp) returns (r: Result<(), MutationError>)
      requires EditsTable(op)
      modifies this`decls, this`touched
      ensures Steps(old(Tracking()), EditTableIn(old(Now()), op), {op.table}, {}, r)
    {
      if op.table !in decls {
        return Failure(DeclarationNotFound(op.table));
      }
      if !decls[op.table].ObjectDecl? {
        return Failure(InvalidOperation);
      }
      var edited := EditObject(decls[op.table].obj, op);
      if edited.Failure? {
        return Failure(edited.error);
      }
      decls := decls[op.table := ObjectDecl(edited.value)];
      touched := touched + {op.table};
      return Success(());
    }

    method Create(name: string, p: Payload) returns (r: Result<(), MutationError>)
      modifies this`decls, this`meta, this`metaChanged, this`touched
      ensures Steps(old(Tracking()), CreateIn(old(Now()), name, p), {name}, {}, r)
    {
      if name in decls {
        return Failure(InvalidOperation);
      }
      decls := decls[name := p];
      meta := meta.(declOrder := meta.declOrder + [name]);
      metaChanged := true;
      touched := touched + {name};
      return Success(());
    }

    method AddUnionMember(name: string, member: string) returns (r: Result<(), MutationError>)
      modifies this`decls, this`touched
      ensures Steps(old(Tracking()), AddMemberIn(old(Now()), name, member), {name}, {}, r)
    {
      if member !in decls {
        return Failure(DeclarationNotFound(member));
      }
      if !decls[member].ObjectDecl? || decls[member].obj.isStruct {
        return Failure(InvalidOperation);
      }
      var found := EnumAt(Schema(decls, meta), name, true);
      if found.Failure? {
        return Failure(found.error);
      }
      var union := found.value;
      if FindMember(union.values, member).Some? {
        return Failure(InvalidOperation);
      }
      var top: int := MaxValue(union.values).GetOr(0);
      if top == I64_MAX {
        return Failure(InvalidOperation);
      }
      var value := EnumVal(Some(member), Some(top + 1), Some(Type(Some(BTable), None, None, Some(member))), None);
      decls := decls[name := EnumDecl(union.(values := union.values + [value]))];
      touched := touched + {name};
      return Success(());
    }

    /** A failure can leave the union created with only some of its members. */
    method CreateUnionWithMembers(op: FlatOp) returns (r: Result<(), MutationError>)
      requires op.CreateUnionWithMembers?
      modifies this`decls, this`meta, this`metaChanged, this`touched
      ensures Steps(old(Tracking()), ApplyOp(old(Now()), op, deferReferenceIntegrity), {op.name}, {}, r)
    {
      r := Create(op.name, NewUnion(op.name, op.doc));
      if r.Failure? {
        return;
      }
      ghost var created := Now();
      var i := 0;
      while i < |op.members|
        invariant 0 <= i <= |op.members|
        invariant AddMembersIn(created, op.name, op.members) == AddMembersIn(Now(), op.name, op.members[i..])
        invariant touched == old(touched) + {op.name} && metaChanged
      {
        assert op.members[i..][1..] == op.members[i + 1..];
        r := AddUnionMember(op.name, op.members[i]);
        if r.Failure? {
          return;
        }
        i := i + 1;
      }
      r := Success(());
    }

    method RemoveUnionMember(name: string, member: string) returns (r: Result<(), MutationError>)
      modifies this`decls, this`touched
      ensures Steps(old(Tracking()), RemoveMemberIn(old(Now()), name, member), {name}, {}, r)
    {
      if member == "NONE" {
        return Failure(InvalidOperation);
      }
      var found := EnumAt(Schema(decls, meta), name, true);
      if found.Failure? {
        return Failure(found.error);
      }
      var union := found.value;
      var at := FindMember(union.values, member);
      if at.None? {
        return Failure(FieldNotFound(name, member));
      }
      decls := decls[name := EnumDecl(union.(values := union.values[..at.value] + union.values[at.value + 1..]))];
      touched := touched + {name};
      return Success(());
    }

    /** The root type and the order list of a renamed declaration. */
    method RenameInMeta(from: string, to: string)
      modifies this`meta, this`metaChanged
      ensures meta == RenamedMeta(old(meta), from, to)
      ensures metaChanged || (!old(metaChanged) && meta == old(meta))
    {
      if Matches(meta.rootType, from) {
        meta := meta.(rootType := Some(Qualifier(meta.rootType.value) + to));
        metaChanged := true;
      }
      ghost var rooted := meta;
      var order, i := meta.declOrder, 0;
      while i < |order|
        invariant 0 <= i <= |order| == |old(meta).declOrder| && meta == rooted
        invariant forall j :: 0 <= j < i ==> order[j] == RenamedOrder(old(meta).declOrder, from, to)[j]
        invariant forall j :: i <= j < |order| ==> order[j] == old(meta).declOrder[j]
        invariant metaChanged || (!old(metaChanged) && meta == old(meta) && order == meta.declOrder)
      {
        if order[i] == from {
          order := order[i := to];
          metaChanged := true;
        }
        i := i + 1;
      }
      assert order == RenamedOrder(old(meta).declOrder, from, to);
      meta := meta.(declOrder := order);
    }

    /** Re-key a declaration and rewrite the references to it everywhere, its own included. */
    method MoveAndRewrite(from: string, to: string)
      requires from in decls && to != from
      modifies this`decls, this`touched
      ensures decls == RenamedDecls(Moved(old(decls), from, to), from, to)
      ensures touched == old(touched) + RewrittenBy(Moved(old(decls), from, to), from)
      ensures from !in RewrittenBy(Moved(old(decls), from, to), from)
    {
      var changed;
      decls := Moved(decls, from, to);
      decls, changed := RewriteAll(decls, (n, p) => PayloadReferences(p, from), (n, p) => RenamedPayload(p, from, to));
      touched := touched + changed;
    }

    method Rename(kind: Kind, from: string, to: string) returns (r: Result<(), MutationError>)
      modifies this`decls, this`meta, this`metaChanged, this`touched, this`removed
      ensures Steps(old(Tracking()), RenameIn(old(Now()), kind, from, to),
                    if from == to || from !in old(decls) then {}
                    else {to} + RewrittenBy(Moved(old(decls), from, to), from),
                    {from} - {to}, r)
    {
      if from !in decls {
        return Failure(DeclarationNotFound(from));
      }
      if !KindIs(decls[from], kind) {
        return Failure(InvalidOperation);
      }
      if from == to {
        return Success(());
      }
      if to in decls {
        return Failure(InvalidOperation);
      }
      MoveAndRewrite(from, to);
      RenameInMeta(from, to);
      removed := removed + {from};
      touched := touched - {from};
      touched := touched + {to};
      return Success(());
    }

    method Delete(kind: Kind, name: string) returns (r: Result<(), MutationError>)
      modifies this`decls, this`meta, this`metaChanged, this`touched, this`removed
      ensures Steps(old(Tracking()), DeleteIn(old(Now()), kind, name, deferReferenceIntegrity), {}, {name}, r)
    {
      if name !in decls {
        return Failure(DeclarationNotFound(name));
      }
      if !KindIs(decls[name], kind) {
        return Failure(InvalidOperation);
      }
      var referenced := Referenced(Schema(decls, meta), name, Some(name));
      if !deferReferenceIntegrity && referenced {
        return Failure(InvalidOperation);
      }
      decls := decls - {name};
      meta := meta.(declOrder := Without(meta.declOrder, name));
      metaChanged := true;
      touched := touched - {name};
      removed := removed + {name};
      return Success(());
    }

    method AddEnumValue(op: FlatOp) returns (r: Result<(), MutationError>)
      requires op.AddEnumValue?
      modifies this`decls, this`touched, this`removedEnumValues
      ensures Steps(old(Tracking()), AddEnumValueIn(old(Now()), op), {op.name}, {}, r)
      ensures r.Success? ==> removedEnumValues == ValuesAfter(old(removedEnumValues), op)
    {
      var found := EnumAt(Schema(decls, meta), op.name, false);
      if found.Failure? {
        return Failure(found.error);
      }
      var e := found.value;
      if FindValue(e.values, op.value).Some? {
        return Failure(InvalidOperation);
      }
      if exists i :: 0 <= i < |e.values| && e.values[i].value == Some(op.number) {
        return Failure(InvalidOperation);
      }
      decls := decls[op.name :=
                       EnumDecl(e.(values := e.values + [EnumVal(Some(op.value), Some(op.number), None, None)]))];
      removedEnumValues := removedEnumValues - {(op.name, op.value)};
      touched := touched + {op.name};
      return Success(());
    }

    method RemoveEnumValue(op: FlatOp) returns (r: Result<(), MutationError>)
      requires op.RemoveEnumValue?
      modifies this`decls, this`touched, this`removedEnumValues
      ensures Steps(old(Tracking()), RemoveEnumValueIn(old(Now()), op, deferReferenceIntegrity), {op.name}, {}, r)
      ensures r.Success? ==> removedEnumValues == ValuesAfter(old(removedEnumValues), op)
    {
      var used := ValueUsed(Schema(decls, meta), op.name, op.value);
      if !deferReferenceIntegrity && used {
        return Failure(InvalidOperation);
      }
      var found := EnumAt(Schema(decls, meta), op.name, false);
      if found.Failure? {
        return Failure(found.error);
      }
      var kept := WithoutValue(found.value.values, op.value);
      if |kept| == |found.value.values| {
        return Failure(FieldNotFound(op.name, op.value));
      }
      decls := decls[op.name := EnumDecl(found.value.(values := kept))];
      removedEnumValues := removedEnumValues + {(op.name, op.value)};
      touched := touched + {op.name};
      return Success(());
    }

    method RenameEnumValue(op: FlatOp) returns (r: Result<(), MutationError>)
      requires op.RenameEnumValue?
      modifies this`decls, this`touched
      ensures Steps(old(Tracking()), RenameEnumValueIn(old(Now()), op),
                    {op.name} + DefaultUsers(old(decls), op.name, op.value), {}, r)
    {
      var found := EnumAt(Schema(decls, meta), op.name, false);
      if found.Failure? {
        return Failure(found.error);
      }
      var e := found.value;
      if FindValue(e.values, op.newName).Some? {
        return Failure(InvalidOperation);
      }
      var at := FindValue(e.values, op.value);
      if at.None? {
        return Failure(FieldNotFound(op.name, op.value));
      }
      decls := decls[op.name :=
                       EnumDecl(e.(values := e.values[at.value := e.values[at.value].(name := Some(op.newName))]))];
      var changed;
      decls, changed := RewriteAll(decls, (n, p) => PayloadDefaultsTo(p, op.name, op.value),
                                   (n, p) => RenamedDefaults(p, op.name, op.value, op.newName));
      assert changed == DefaultUsers(old(decls), op.name, op.value);
      touched := touched + changed;
      touched := touched + {op.name};
      return Success(());
    }

    method UpdateImport(path: string, commit: string, remove: bool)
      modifies this`meta, this`metaChanged
      ensures meta == UpdateImportIn(old(meta), path, commit, remove) && metaChanged
    {
      meta := meta.(includeCommits := Resized(meta.includeCommits, |meta.includes|));
      var at := IndexOf(meta.includes, path);
      if remove {
        if at.Some? {
          meta := meta.(includes := meta.includes[..at.value] + meta.includes[at.value + 1..],
                        includeCommits := meta.includeCommits[..at.value] + meta.includeCommits[at.value + 1..]);
        }
      } else if at.Some? {
        meta := meta.(includeCommits := meta.includeCommits[at.value := commit]);
      } else {
        meta := meta.(includes := meta.includes + [path], includeCommits := meta.includeCommits + [commit]);
      }
      metaChanged := true;
    }

    method Dispatch(op: FlatOp) returns (r: Result<(), MutationError>)
      modifies this
      ensures Steps(old(Tracking()), ApplyOp(old(Now()), op, deferReferenceIntegrity), Writes(old(Now()), op),
                    Drops(op), r)
      ensures r.Success? ==> removedEnumValues == ValuesAfter(old(removedEnumValues), op)
    {
      if EditsTable(op) {
        r := EditTable(op);
      } else if EditsMembers(op) {
        r := DispatchMembers(op);
      } else {
        r := DispatchOther(op);
      }
    }

    method DispatchMembers(op: FlatOp) returns (r: Result<(), MutationError>)
      requires EditsMembers(op)
      modifies this
      ensures Steps(old(Tracking()), ApplyOp(old(Now()), op, deferReferenceIntegrity), Writes(old(Now()), op),
                    Drops(op), r)
      ensures r.Success? ==> removedEnumValues == ValuesAfter(old(removedEnumValues), op)
    {
      match op
      case AddUnionMember(name, member) => r := AddUnionMember(name, member);
      case RemoveUnionMember(name, member) => r := RemoveUnionMember(name, member);
      case AddEnumValue(_, _, _) => r := AddEnumValue(op);
      case RemoveEnumValue(_, _) => r := RemoveEnumValue(op);
      case RenameEnumValue(_, _, _) => r := RenameEnumValue(op);
    }

    method DispatchOther(op: FlatOp) returns (r: Result<(), MutationError>)
      requires !EditsTable(op) && !EditsMembers(op)
      modifies this
      ensures Steps(old(Tracking()), ApplyOp(old(Now()), op, deferReferenceIntegrity), Writes(old(Now()), op),
                    Drops(op), r)
      ensures r.Success? ==> removedEnumValues == ValuesAfter(old(removedEnumValues), op)
    {
      match op
      case RemoveField(_, _) => r := Failure(InvalidOperation);
      case CreateTable(name, doc) => r := Create(name, NewTable(name, doc));
      case CreateEnum(name, underlying, doc) => r := Create(name, NewEnum(name, underlying, doc));
      case CreateUnion(name, doc) => r := Create(name, NewUnion(name, doc));
      case CreateUnionWithMembers(_, _, _) => r := CreateUnionWithMembers(op);
      case RenameDecl(kind, from, to) => r := Rename(kind, from, to);
      case DeleteDecl(kind, name) => r := Delete(kind, name);
      case UpdateImport(path, commit, remove) => UpdateImport(path, commit, remove); r := Success(());
    }

    /**
     One operation: the copy goes where the schema operation says, and the tracking still accounts for every change.
     */
    method Apply(op: FlatOp) returns (r: Result<(), MutationError>)
      requires Valid()
      modifies this
      ensures match Advance(old(SoFar()), op, deferReferenceIntegrity)
              case Failure(e) => r == Failure(e)
              case Success(p) => r.Success? && Valid() && SoFar() == p
    {
      ghost var before := Tracking();
      r := Dispatch(op);
      if r.Success? {
        OpCovered(before.doc, op, deferReferenceIntegrity);
        AccountsStep(base, before.doc, Now(), before.touched, touched, before.removed, removed, before.dirty,
                     metaChanged);
      }
    }

    method ApplyAll(ops: seq<FlatOp>) returns (r: Result<(), MutationError>)
      requires Valid()
      modifies this
      ensures match RunFrom(old(SoFar()), ops, deferReferenceIntegrity)
              case Failure(e) => r == Failure(e)
              case Success(p) => r.Success? && Valid() && SoFar() == p
    {
      var i := 0;
      while i < |ops|
        invariant 0 <= i <= |ops| && Valid()
        invariant RunFrom(old(SoFar()), ops, deferReferenceIntegrity)
                  == RunFrom(SoFar(), ops[i..], deferReferenceIntegrity)
      {
        RunFromStep(SoFar(), ops, i, deferReferenceIntegrity);
        r := Apply(ops[i]);
        if r.Failure? {
          return;
        }
        i := i + 1;
      }
      r := Success(());
    }

    /** The check at the end of a batch: nothing refers to a dropped name or a removed enum value. */
    method ValidateRemovedReferences() returns (r: Result<(), MutationError>)
      ensures r.Success? <==> NothingDangling(SoFar())
      ensures r.Failure? ==> r.error == InvalidOperation
    {
      var names := removed;
      while names != {}
        invariant names <= removed
        invariant forall n :: n in removed && n !in names ==> !Referenced(Now(), n, None)
        decreases names
      {
        var name :| name in names;
        var referenced := Referenced(Schema(decls, meta), name, None);
        if referenced {
          return Failure(InvalidOperation);
        }
        names := names - {name};
      }
      var values := removedEnumValues;
      while values != {}
        invariant values <= removedEnumValues
        invariant forall p :: p in removedEnumValues && p !in values ==> !ValueUsed(Now(), p.0, p.1)
        decreases values
      {
        var value :| value in values;
        var used := ValueUsed(Schema(decls, meta), value.0, value.1);
        if used {
          return Failure(InvalidOperation);
        }
        values := values - {value};
      }
      return Success(());
    }
  }

  // ----- entry points -----

  ghost predicate NothingDangling(p: Progress) {
    && (forall n :: n in p.dropped ==> !Referenced(p.doc, n, None))
    && (forall v :: v in p.values ==> !ValueUsed(p.doc, v.0, v.1))
  }

  /** The effect turns `base` into `goal` and never both writes and drops a name. */
  ghost predicate Patches(base: Doc, e: Effect<Payload, FlatMeta>, goal: Doc) {
    Patch(base, e) == goal && e.upserts.Keys !! e.removes
  }

  method ApplyOne(schema: Doc, op: FlatOp) returns (r: Result<Effect<Payload, FlatMeta>, MutationError>)
    ensures match ApplyOp(schema, op, false)
            case Failure(e) => r == Failure(e)
            case Success(d) => r.Success? && Patches(schema, r.value, d)
  {
    var state := new WorkingState.Load(schema, false);
    var applied := state.Apply(op);
    if applied.Failure? {
      return Failure(applied.error);
    }
    var e := state.IntoEffect();
    return Success(e);
  }

  /** Accepted exactly when the deferred run succeeds and nothing refers to a name it dropped or a value it removed. */
  method ApplyMany(schema: Doc, ops: seq<FlatOp>) returns (r: Result<Effect<Payload, FlatMeta>, MutationError>)
    ensures match RunFrom(Start(schema), ops, true)
            case Failure(e) => r == Failure(e)
            case Success(p) =>
              if NothingDangling(p) then r.Success? && Patches(schema, r.value, p.doc)
              else r == Failure(InvalidOperation)
  {
    var state := new WorkingState.Load(schema, true);
    var applied := state.ApplyAll(ops);
    if applied.Failure? {
      return Failure(applied.error);
    }
    var checked := state.ValidateRemovedReferences();
    if checked.Failure? {
      return Failure(checked.error);
    }
    var e := state.IntoEffect();
    return Success(e);
  }
}
