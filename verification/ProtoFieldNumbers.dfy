/** Field numbers over whole runs: never shared, never reserved, and never carried again once freed. */
module ProtoFieldNumbers {
  import opened Wrappers
  import opened Wire
  import opened Descriptors
  import opened Reassembly
  import opened ProtoOps

  /** No two fields of a message carry the same number, and none carries a reserved one. */
  ghost predicate Sound(m: Message) {
    && (forall i, j :: 0 <= i < j < |m.field| && m.field[i].number.Some? ==> m.field[i].number != m.field[j].number)
    && (forall i :: 0 <= i < |m.field| && m.field[i].number.Some? ==> !NumberReserved(m, m.field[i].number.value))
  }

  ghost predicate AllSound(d: Doc) {
    forall n :: n in d.messages ==> Sound(d.messages[n])
  }

  /** Every number reserved in `m` is reserved in `n`. */
  ghost predicate KeepsReserved(m: Message, n: Message) {
    m.reservedRange <= n.reservedRange
  }

  lemma ReservedStays(m: Message, n: Message, number: i32)
    requires KeepsReserved(m, n) && NumberReserved(m, number)
    ensures NumberReserved(n, number)
  {}

  // ----- one operation on one message -----

  /** Field lists with the same numbers under the same reservations are equally sound. */
  lemma SameNumbers(m: Message, n: Message)
    requires Sound(m) && |m.field| == |n.field| && m.reservedRange == n.reservedRange
    requires forall i :: 0 <= i < |m.field| ==> n.field[i].number == m.field[i].number
    ensures Sound(n)
  {}

  lemma AddKeepsSound(m: Message, op: ProtoOp)
    requires op.AddField? && Sound(m) && AddFieldTo(m, op).Success?
    ensures Sound(AddFieldTo(m, op).value) && KeepsReserved(m, AddFieldTo(m, op).value)
  {}

  /** The numbers a RemoveField adds to the reserved ones: the freed number, unless adding one to it wraps. */
  lemma ReservedByRemoval(m: Message, op: ProtoOp, number: i32)
    requires op.RemoveField? && RemoveFieldFrom(m, op).Success?
    ensures var freed := m.field[FindField(m.field, op.field).value].number;
            NumberReserved(RemoveFieldFrom(m, op).value, number)
            <==> NumberReserved(m, number) || (freed == Some(number) && number != I32_MAX)
  {
    var n := RemoveFieldFrom(m, op).value;
    var freed := m.field[FindField(m.field, op.field).value].number;
    assert n.reservedRange[..|m.reservedRange|] == m.reservedRange;
    if freed.Some? {
      WrapOfNext(freed.value);
      assert InRange(n.reservedRange[|m.reservedRange|], number) <==> freed == Some(number) && number != I32_MAX;
    }
    if NumberReserved(m, number) {
      ReservedStays(m, n, number);
    }
    if NumberReserved(n, number) {
      var i :| 0 <= i < |n.reservedRange| && InRange(n.reservedRange[i], number);
      if i < |m.reservedRange| {
        assert n.reservedRange[i] == m.reservedRange[i];
      }
    }
  }

  lemma WrapOfNext(k: i32)
    ensures var v: int := k;
            Wrap32(v + 1) == if v == I32_MAX then I32_MIN else v + 1
  {}

  lemma RemoveKeepsSound(m: Message, op: ProtoOp)
    requires op.RemoveField? && Sound(m) && RemoveFieldFrom(m, op).Success?
    ensures Sound(RemoveFieldFrom(m, op).value) && KeepsReserved(m, RemoveFieldFrom(m, op).value)
  {}

  lemma ReorderKeepsSound(m: Message, op: ProtoOp)
    requires op.ReorderFields? && Sound(m) && ReorderFieldsIn(m, op).Success?
    ensures Sound(ReorderFieldsIn(m, op).value) && KeepsReserved(m, ReorderFieldsIn(m, op).value)
  {
    var n := ReorderFieldsIn(m, op).value;
    ByNameHolds(m.field, FieldName);
    PickDistinct(op.order, ByName(m.field, FieldName), FieldName);
    forall i | 0 <= i < |n.field| ensures n.field[i] in m.field {
      assert n.field[i] in Pick(op.order, ByName(m.field, FieldName));
    }
    forall i, j | 0 <= i < j < |n.field| && n.field[i].number.Some? ensures n.field[i].number != n.field[j].number {
      var a :| 0 <= a < |m.field| && m.field[a] == n.field[i];
      var b :| 0 <= b < |m.field| && m.field[b] == n.field[j];
      assert FieldName(n.field[i]) != FieldName(n.field[j]);
    }
  }

  lemma EditKeepsSound(m: Message, op: ProtoOp)
    requires EditsMessage(op) && Sound(m) && EditMessage(m, op).Success?
    ensures Sound(EditMessage(m, op).value) && KeepsReserved(m, EditMessage(m, op).value)
  {
    if op.AddField? {
      AddKeepsSound(m, op);
    } else if op.RemoveField? {
      RemoveKeepsSound(m, op);
    } else if op.ReorderFields? {
      ReorderKeepsSound(m, op);
    } else {
      SameNumbers(m, EditMessage(m, op).value);
    }
  }

  // ----- one operation on the file -----

  /** The name under which a message is known after an operation; none once it is deleted. */
  function Follow(op: ProtoOp, name: string): Option<string> {
    match op
    case RenameMessage(from, to) => Some(if name == from then to else name)
    case DeleteMessage(gone) => if name == gone then None else Some(name)
    case _ => Some(name)
  }

  function FollowAll(ops: seq<ProtoOp>, name: string): Option<string>
    decreases |ops|
  {
    if ops == [] then Some(name)
    else
      match Follow(ops[0], name)
      case None => None
      case Some(next) => FollowAll(ops[1..], next)
  }

  lemma RenameKeepsSound(m: Message, from: string, to: string)
    requires Sound(m)
    ensures Sound(RenamedRefs(m, from, to)) && KeepsReserved(m, RenamedRefs(m, from, to))
  {}

  lemma RenameValueKeepsSound(m: Message, enumName: string, from: string, to: string)
    requires Sound(m)
    ensures Sound(RenamedValue(m, enumName, from, to)) && KeepsReserved(m, RenamedValue(m, enumName, from, to))
  {}

  /** The message known as `name` before is known as `to` after, sound and with its reservations kept. */
  ghost predicate Carried(d: Doc, next: Doc, name: string, to: string) {
    name in d.messages ==>
      && to in next.messages && Sound(next.messages[to])
      && KeepsReserved(d.messages[name], next.messages[to])
  }

  /** Every message of `next` is a followed message of `d`, or is new and sound. */
  ghost predicate StepSound(d: Doc, op: ProtoOp, next: Doc) {
    && AllSound(next)
    && (forall n :: n in d.messages && Follow(op, n).Some? ==> Carried(d, next, n, Follow(op, n).value))
  }

  lemma RenameStepSound(d: Doc, op: ProtoOp)
    requires op.RenameMessage? && AllSound(d) && RenameMessageIn(d, op.message, op.newName).Success?
    ensures StepSound(d, op, RenameMessageIn(d, op.message, op.newName).value)
  {
    var next := RenameMessageIn(d, op.message, op.newName).value;
    forall n | n in next.messages ensures Sound(next.messages[n]) {
      var m := if n == op.newName then d.messages[op.message].(name := Some(n)) else d.messages[n];
      assert Sound(m) by { SameNumbers(d.messages[if n == op.newName then op.message else n], m); }
      RenameKeepsSound(m, op.message, op.newName);
    }
  }

  lemma EditStepSound(d: Doc, op: ProtoOp)
    requires EditsMessage(op) && AllSound(d) && EditMessageIn(d, op).Success?
    ensures StepSound(d, op, EditMessageIn(d, op).value)
  {
    EditKeepsSound(d.messages[op.message], op);
  }

  lemma RenameValueStepSound(d: Doc, op: ProtoOp)
    requires op.RenameEnumValue? && AllSound(d) && RenameEnumValueIn(d, op).Success?
    ensures StepSound(d, op, RenameEnumValueIn(d, op).value)
  {
    var next := RenameEnumValueIn(d, op).value;
    forall n | n in d.messages ensures Sound(next.messages[n]) && KeepsReserved(d.messages[n], next.messages[n]) {
      RenameValueKeepsSound(d.messages[n], op.enumName, op.value, op.newName);
    }
  }

  lemma ReshapeStepSound(d: Doc, op: ProtoOp, next: Doc)
    requires AllSound(d)
    requires op.CreateMessage? || op.DeleteMessage?
    requires op.CreateMessage? ==> op.message !in d.messages
    requires op.CreateMessage? ==> next.messages == d.messages[op.message := EmptyMessage.(name := Some(op.message))]
    requires op.DeleteMessage? ==> next.messages == d.messages - {op.message}
    ensures StepSound(d, op, next)
  {}

  lemma SameMessages(d: Doc, op: ProtoOp, next: Doc)
    requires AllSound(d) && next.messages == d.messages && !op.RenameMessage? && !op.DeleteMessage?
    ensures StepSound(d, op, next)
  {}

  lemma StepKeepsSound(d: Doc, op: ProtoOp, defer: bool)
    requires AllSound(d) && ApplyOp(d, op, defer).Success?
    ensures StepSound(d, op, ApplyOp(d, op, defer).value)
  {
    if EditsMessage(op) {
      EditStepSound(d, op);
    } else if op.RenameMessage? {
      RenameStepSound(d, op);
    } else if op.RenameEnumValue? {
      RenameValueStepSound(d, op);
    } else if op.CreateMessage? || op.DeleteMessage? {
      ReshapeStepSound(d, op, ApplyOp(d, op, defer).value);
    } else {
      SameMessages(d, op, ApplyOp(d, op, defer).value);
    }
  }

  // ----- whole runs -----

  /** From sound messages every reachable state is sound. */
  lemma {:induction false} RunsStaySound(d: Doc, ops: seq<ProtoOp>, defer: bool)
    requires AllSound(d) && Run(d, ops, defer).Success?
    ensures AllSound(Run(d, ops, defer).value)
    decreases |ops|
  {
    if ops != [] {
      StepKeepsSound(d, ops[0], defer);
      RunsStaySound(ApplyOp(d, ops[0], defer).value, ops[1..], defer);
    }
  }

  /** A reserved number stays reserved, and so uncarried, as long as the message lives, whatever it is renamed to. */
  lemma {:induction false} ReservedForLife(d: Doc, ops: seq<ProtoOp>, defer: bool, name: string, number: i32)
    requires AllSound(d) && Run(d, ops, defer).Success? && FollowAll(ops, name).Some?
    requires name in d.messages && NumberReserved(d.messages[name], number)
    ensures FollowAll(ops, name).value in Run(d, ops, defer).value.messages
    ensures NumberReserved(Run(d, ops, defer).value.messages[FollowAll(ops, name).value], number)
    ensures !CarriesNumber(Run(d, ops, defer).value.messages[FollowAll(ops, name).value], number)
    decreases |ops|
  {
    if ops != [] {
      var next := ApplyOp(d, ops[0], defer).value;
      StepKeepsSound(d, ops[0], defer);
      var to := Follow(ops[0], name).value;
      assert Carried(d, next, name, to);
      ReservedStays(d.messages[name], next.messages[to], number);
      ReservedForLife(next, ops[1..], defer, to, number);
    }
  }

  /**
   The number a RemoveField frees is never carried again by that message, however the run goes on, until the message
   is deleted. The one number this leaves out is the largest.
   */
  lemma FreedNumberStaysFree(d: Doc, op: ProtoOp, ops: seq<ProtoOp>, defer: bool, number: i32)
    requires AllSound(d) && op.RemoveField? && Run(d, [op] + ops, defer).Success? && op.message in d.messages
    requires FindField(d.messages[op.message].field, op.field).Some?
    requires d.messages[op.message].field[FindField(d.messages[op.message].field, op.field).value].number
             == Some(number)
    requires number != I32_MAX && FollowAll(ops, op.message).Some?
    ensures var final := Run(d, [op] + ops, defer).value;
            var name := FollowAll(ops, op.message).value;
            name in final.messages && !CarriesNumber(final.messages[name], number)
  {
    assert ([op] + ops)[1..] == ops;
    var next := ApplyOp(d, op, defer).value;
    ReservedByRemoval(d.messages[op.message], op, number);
    StepKeepsSound(d, op, defer);
    ReservedForLife(next, ops, defer, op.message, number);
  }

  /** Adding a field with the number just freed is accepted exactly when that number is the largest. */
  lemma ReuseExactlyAtMax(m: Message, remove: ProtoOp, add: ProtoOp)
    requires Sound(m) && remove.RemoveField? && add.AddField? && CardinalityToLabel(add.cardinality).Success?
    requires RemoveFieldFrom(m, remove).Success?
    requires m.field[FindField(m.field, remove.field).value].number == Some(Wrap32(add.number))
    ensures AddFieldTo(RemoveFieldFrom(m, remove).value, add).Success? <==> Wrap32(add.number) == I32_MAX
  {
    var number := Wrap32(add.number);
    var n := RemoveFieldFrom(m, remove).value;
    var at := FindField(m.field, remove.field).value;
    ReservedByRemoval(m, remove, number);
    assert !NumberReserved(m, m.field[at].number.value);
    forall i | 0 <= i < |n.field| ensures n.field[i].number != Some(number) {
      assert n.field[i] == m.field[if i < at then i else i + 1];
    }
  }

  /** A run that does carry a freed number again. */
  lemma LargestNumberIsReused()
    ensures var f := Field(Some("a"), Some(I32_MAX), None, Some(TBool), None, None, None, None, None, None, None, None);
            var m := EmptyMessage.(name := Some("M"), field := [f]);
            var add := AddField("M", "b", "b", "bool", 0x7FFF_FFFF, "");
            && Sound(m)
            && RemoveFieldFrom(m, RemoveField("M", "a")).Success?
            && var gone := RemoveFieldFrom(m, RemoveField("M", "a")).value;
            AddFieldTo(gone, add).Success? && CarriesNumber(AddFieldTo(gone, add).value, I32_MAX)
  {
    var f := Field(Some("a"), Some(I32_MAX), None, Some(TBool), None, None, None, None, None, None, None, None);
    var m := EmptyMessage.(name := Some("M"), field := [f]);
    var remove := RemoveField("M", "a");
    assert FindField(m.field, "a") == Some(0);
    var gone := RemoveFieldFrom(m, remove).value;
    ReuseExactlyAtMax(m, remove, AddField("M", "b", "b", "bool", 0x7FFF_FFFF, ""));
    var after := AddFieldTo(gone, AddField("M", "b", "b", "bool", 0x7FFF_FFFF, "")).value;
    assert after.field[|gone.field|].number == Some(I32_MAX);
  }
}
