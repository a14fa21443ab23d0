/**
 An enum with distinctly named values as a plain table from value name to number, with what it has reserved: each value
 operation is one update of the table, accepted on the same condition. Over every run numbers stay distinct and
 unreserved where aliases are not allowed, and a renamed value takes the defaults that use it along.
 */
module ProtoEnumViews {
  import opened Wrappers
  import opened Text
  import opened NameLists
  import opened NamedTables
  import opened Wire
  import opened Descriptors
  import opened ProtoOps

  datatype ValueRow = ValueRow(number: Option<i32>, options: Option<FlagOptions>)

  datatype Table = Table(values: map<string, ValueRow>, ranges: seq<ReservedRange>, names: seq<string>)

  function ValueName(v: EnumValue): Option<string> { v.name }

  function RowOf(v: EnumValue): ValueRow { ValueRow(v.number, v.options) }

  /** The table is what the enum says. */
  ghost predicate Shows(e: Enum, t: Table) {
    Lists(e.value, ValueName, RowOf, t.values) && t.ranges == e.reservedRange && t.names == e.reservedName
  }

  predicate AllowsAlias(e: Enum) {
    match e.options
    case Some(o) => o.allowAlias == Some(true)
    case None => false
  }

  /** Both ends of an enum range belong to it; an absent start is the largest number, an absent end the smallest. */
  predicate Within(r: ReservedRange, number: i32) {
    && (match r.start case Some(first) => first <= number case None => number == 2147483647)
    && (match r.end case Some(last) => number <= last case None => number == -2147483648)
  }

  predicate Accepts(t: Table, op: ProtoOp, aliases: bool, proto3: bool)
    requires EditsEnum(op)
  {
    match op
    case AddEnumValue(_, value, number) =>
      && value !in t.values && value !in t.names
      && (forall i :: 0 <= i < |t.ranges| ==> !Within(t.ranges[i], number))
      && (aliases || forall n :: n in t.values ==> t.values[n].number != Some(number))
      && (proto3 && t.values == map[] ==> number == 0)
    case RemoveEnumValue(_, value) => value in t.values
    case RenameEnumValue(_, value, newName) => value in t.values && newName !in t.values
  }

  function Edited(t: Table, op: ProtoOp): Table
    requires EditsEnum(op) && (op.AddEnumValue? || op.value in t.values)
  {
    match op
    case AddEnumValue(_, value, number) => t.(values := t.values[value := ValueRow(Some(number), None)])
    case RemoveEnumValue(_, value) =>
      var number := t.values[value].number;
      Table(t.values - {value}, if number.None? then t.ranges else t.ranges + [ReservedRange(number, number)],
            t.names + [value])
    case RenameEnumValue(_, value, newName) => t.(values := (t.values - {value})[newName := t.values[value]])
  }

  lemma FoundExactly(e: Enum, t: Table, value: string)
    requires Shows(e, t)
    ensures FindValue(e.value, value).Some? <==> value in t.values
    ensures value in t.values ==> t.values[value] == RowOf(e.value[FindValue(e.value, value).value])
  {
    if value in t.values {
      assert Carries(e.value, ValueName, value);
    }
  }

  lemma ReservedExactly(e: Enum, number: i32)
    ensures EnumNumberReserved(e, number) <==>
            exists i :: 0 <= i < |e.reservedRange| && Within(e.reservedRange[i], number)
  {
    forall i | 0 <= i < |e.reservedRange|
      ensures Within(e.reservedRange[i], number) <==>
              e.reservedRange[i].start.GetOr(I32_MAX) <= number <= e.reservedRange[i].end.GetOr(I32_MIN)
    {}
  }

  lemma NumberUsedExactly(e: Enum, t: Table, number: i32)
    requires Shows(e, t)
    ensures (exists i :: 0 <= i < |e.value| && e.value[i].number == Some(number)) <==>
            exists n :: n in t.values && t.values[n].number == Some(number)
  {
    if n :| n in t.values && t.values[n].number == Some(number) {
      var i := ItemOfRow(e.value, ValueName, RowOf, t.values, n);
    }
    if i :| 0 <= i < |e.value| && e.value[i].number == Some(number) {
      assert t.values[e.value[i].name.value] == RowOf(e.value[i]);
    }
  }

  lemma EmptyExactly(e: Enum, t: Table)
    requires Shows(e, t)
    ensures e.value == [] <==> t.values == map[]
  {
    if e.value != [] {
      assert e.value[0].name.value in t.values;
    }
    if n :| n in t.values {
      var i := ItemOfRow(e.value, ValueName, RowOf, t.values, n);
    }
  }

  /** The enum is edited as the table is, and its other values stay where they were. */
  ghost predicate EditedAs(e: Enum, next: Enum, t: Table, op: ProtoOp)
    requires EditsEnum(op)
  {
    && (op.AddEnumValue? || op.value in t.values) && Shows(next, Edited(t, op))
    && InOrder(e.value, next.value, ValueName, op.value)
    && next == e.(value := next.value, reservedRange := next.reservedRange, reservedName := next.reservedName)
  }

  lemma AddAgrees(e: Enum, t: Table, op: ProtoOp, proto3: bool)
    requires op.AddEnumValue? && Shows(e, t)
    ensures AddEnumValueTo(e, op, proto3).Success? <==> Accepts(t, op, AllowsAlias(e), proto3)
    ensures AddEnumValueTo(e, op, proto3).Success? ==> EditedAs(e, AddEnumValueTo(e, op, proto3).value, t, op)
  {
    FoundExactly(e, t, op.value);
    ReservedExactly(e, op.valueNumber);
    NumberUsedExactly(e, t, op.valueNumber);
    EmptyExactly(e, t);
    if AddEnumValueTo(e, op, proto3).Success? {
      Appended(e.value, ValueName, RowOf, t.values, EnumValue(Some(op.value), Some(op.valueNumber), None, None));
    }
  }

  lemma RemoveAgrees(e: Enum, t: Table, op: ProtoOp)
    requires op.RemoveEnumValue? && Shows(e, t)
    ensures RemoveEnumValueFrom(e, op).Success? <==> op.value in t.values
    ensures RemoveEnumValueFrom(e, op).Success? ==> EditedAs(e, RemoveEnumValueFrom(e, op).value, t, op)
  {
    FoundExactly(e, t, op.value);
    if op.value in t.values {
      Dropped(e.value, ValueName, RowOf, t.values, FindValue(e.value, op.value).value);
    }
  }

  lemma RenameAgrees(d: Doc, t: Table, op: ProtoOp)
    requires op.RenameEnumValue? && op.enumName in d.enums && Shows(d.enums[op.enumName], t)
    ensures RenameEnumValueIn(d, op).Success? <==> op.value in t.values && op.newName !in t.values
    ensures RenameEnumValueIn(d, op).Success? ==>
              EditedAs(d.enums[op.enumName], RenameEnumValueIn(d, op).value.enums[op.enumName], t, op)
  {
    var e := d.enums[op.enumName];
    FoundExactly(e, t, op.value);
    FoundExactly(e, t, op.newName);
    if op.value in t.values && op.newName !in t.values {
      var i := FindValue(e.value, op.value).value;
      Rekeyed(e.value, ValueName, RowOf, t.values, i, e.value[i].(name := Some(op.newName)));
    }
  }

  /** One enum changes, as the table does; no other does, and only defaults may change elsewhere. */
  ghost predicate OneEnumChanges(d: Doc, next: Doc, t: Table, op: ProtoOp)
    requires EditsEnum(op) && op.enumName in d.enums
  {
    && next.enums.Keys == d.enums.Keys
    && (forall n :: n in d.enums && n != op.enumName ==> next.enums[n] == d.enums[n])
    && EditedAs(d.enums[op.enumName], next.enums[op.enumName], t, op)
    && next.services == d.services && next.meta == d.meta.(extension := next.meta.extension)
    && (op.RenameEnumValue? || next == d.(enums := next.enums))
  }

  lemma OneChanges(d: Doc, e: Enum, t: Table, op: ProtoOp)
    requires EditsEnum(op) && op.enumName in d.enums && EditedAs(d.enums[op.enumName], e, t, op)
    ensures OneEnumChanges(d, d.(enums := d.enums[op.enumName := e]), t, op)
  {}

  lemma AddOneChanges(d: Doc, t: Table, op: ProtoOp, proto3: bool)
    requires op.AddEnumValue? && op.enumName in d.enums && Shows(d.enums[op.enumName], t)
    requires proto3 <==> d.meta.syntax == Some("proto3")
    ensures AddEnumValueIn(d, op).Success? <==> Accepts(t, op, AllowsAlias(d.enums[op.enumName]), proto3)
    ensures AddEnumValueIn(d, op).Success? ==> OneEnumChanges(d, AddEnumValueIn(d, op).value, t, op)
  {
    var e := d.enums[op.enumName];
    var added := AddEnumValueTo(e, op, proto3);
    assert AddEnumValueIn(d, op) == match added
      case Success(x) => Success(d.(enums := d.enums[op.enumName := x]))
      case Failure(_) => AddEnumValueIn(d, op);
    assert AddEnumValueIn(d, op).Success? <==> added.Success?;
    AddAgrees(e, t, op, proto3);
    if added.Success? {
      OneChanges(d, added.value, t, op);
    }
  }

  lemma RemoveOneChanges(d: Doc, t: Table, op: ProtoOp, defer: bool)
    requires op.RemoveEnumValue? && op.enumName in d.enums && Shows(d.enums[op.enumName], t)
    ensures RemoveEnumValueIn(d, op, defer).Success? <==>
            op.value in t.values && (defer || !ValueUsed(d, op.enumName, op.value))
    ensures RemoveEnumValueIn(d, op, defer).Success? ==>
              OneEnumChanges(d, RemoveEnumValueIn(d, op, defer).value, t, op)
  {
    RemoveAgrees(d.enums[op.enumName], t, op);
  }

  /** One value operation on a file: accepted on the table's condition, and unless deferred on unused values only. */
  lemma EditAgrees(d: Doc, t: Table, op: ProtoOp, defer: bool)
    requires EditsEnum(op) && op.enumName in d.enums && Shows(d.enums[op.enumName], t)
    ensures EditEnumIn(d, op, defer).Success? <==>
            && Accepts(t, op, AllowsAlias(d.enums[op.enumName]), d.meta.syntax == Some("proto3"))
            && (op.RemoveEnumValue? && !defer ==> !ValueUsed(d, op.enumName, op.value))
    ensures EditEnumIn(d, op, defer).Success? ==> OneEnumChanges(d, EditEnumIn(d, op, defer).value, t, op)
  {
    match op
    case AddEnumValue(_, _, _) => AddOneChanges(d, t, op, d.meta.syntax == Some("proto3"));
    case RemoveEnumValue(_, _) => RemoveOneChanges(d, t, op, defer);
    case RenameEnumValue(_, _, _) => RenameAgrees(d, t, op);
  }

  /** A new enum has an empty table: no value, nothing reserved. */
  lemma CreatedEmpty(d: Doc, name: string)
    ensures CreateEnumIn(d, name).Success? <==> name !in d.messages && name !in d.enums && name !in d.services
    ensures CreateEnumIn(d, name).Success? ==>
              var next := CreateEnumIn(d, name).value;
              && next == d.(enums := next.enums, meta := next.meta) && next.enums - {name} == d.enums
              && name in next.enums && Shows(next.enums[name], Table(map[], [], []))
  {
    if CreateEnumIn(d, name).Success? {
      assert CreateEnumIn(d, name).value.enums - {name} == d.enums;
    }
  }

  predicate OnEnum(op: ProtoOp, name: string) { EditsEnum(op) && op.enumName == name }

  /** The table after a run, if every step is accepted. */
  function EditedAll(t: Table, ops: seq<ProtoOp>, name: string, aliases: bool, proto3: bool): Option<Table>
    decreases |ops|
  {
    if ops == [] then Some(t)
    else if OnEnum(ops[0], name) && Accepts(t, ops[0], aliases, proto3)
    then EditedAll(Edited(t, ops[0]), ops[1..], name, aliases, proto3)
    else None
  }

  /** The file declares the enum as the table says, with this alias option and this syntax. */
  ghost predicate Declares(d: Doc, name: string, t: Table, aliases: bool, proto3: bool) {
    && name in d.enums && Shows(d.enums[name], t)
    && aliases == AllowsAlias(d.enums[name]) && proto3 == (d.meta.syntax == Some("proto3"))
  }

  lemma StepAgrees(d: Doc, t: Table, op: ProtoOp, name: string, aliases: bool, proto3: bool)
    requires Declares(d, name, t, aliases, proto3) && OnEnum(op, name)
    ensures ApplyOp(d, op, true).Success? <==> Accepts(t, op, aliases, proto3)
    ensures ApplyOp(d, op, true).Success? ==> Declares(ApplyOp(d, op, true).value, name, Edited(t, op), aliases, proto3)
  {
    EditAgrees(d, t, op, true);
    assert ApplyOp(d, op, true) == EditEnumIn(d, op, true);
  }

  /** A deferred run of value operations on one enum succeeds exactly when it does on the table, with its result. */
  lemma {:induction false} RunAgrees(d: Doc, t: Table, ops: seq<ProtoOp>, name: string, aliases: bool, proto3: bool)
    requires Declares(d, name, t, aliases, proto3)
    requires forall i :: 0 <= i < |ops| ==> OnEnum(ops[i], name)
    ensures Run(d, ops, true).Success? <==> EditedAll(t, ops, name, aliases, proto3).Some?
    ensures Run(d, ops, true).Success? ==>
              Declares(Run(d, ops, true).value, name, EditedAll(t, ops, name, aliases, proto3).value, aliases, proto3)
    decreases |ops|
  {
    if ops != [] {
      StepAgrees(d, t, ops[0], name, aliases, proto3);
      if Accepts(t, ops[0], aliases, proto3) {
        RunAgrees(ApplyOp(d, ops[0], true).value, Edited(t, ops[0]), ops[1..], name, aliases, proto3);
      }
    }
  }

  // ----- numbers over whole runs -----

  /** Where aliases are not allowed no two values share a number, and no value has a reserved one. */
  ghost predicate NumbersApart(e: Enum) {
    && (AllowsAlias(e) || forall i, j :: 0 <= i < j < |e.value| && e.value[i].number.Some? ==>
          e.value[i].number != e.value[j].number)
    && (forall i, k :: 0 <= i < |e.value| && e.value[i].number.Some? && 0 <= k < |e.reservedRange| ==>
          AllowsAlias(e) || !Within(e.reservedRange[k], e.value[i].number.value))
  }

  ghost predicate SoundEnums(d: Doc) { forall n :: n in d.enums ==> NumbersApart(d.enums[n]) }

  lemma AddKeepsApart(e: Enum, op: ProtoOp, proto3: bool)
    requires op.AddEnumValue? && NumbersApart(e) && AddEnumValueTo(e, op, proto3).Success?
    ensures NumbersApart(AddEnumValueTo(e, op, proto3).value)
  {
    ReservedExactly(e, op.valueNumber);
    var next := AddEnumValueTo(e, op, proto3).value;
    forall i | 0 <= i < |e.value| ensures next.value[i] == e.value[i] {}
  }

  lemma RemoveKeepsApart(e: Enum, op: ProtoOp)
    requires op.RemoveEnumValue? && NumbersApart(e) && RemoveEnumValueFrom(e, op).Success?
    ensures NumbersApart(RemoveEnumValueFrom(e, op).value)
  {
    var next := RemoveEnumValueFrom(e, op).value;
    var at := FindValue(e.value, op.value).value;
    forall i | 0 <= i < |next.value| ensures next.value[i] == e.value[if i < at then i else i + 1] {}
  }

  lemma RenameKeepsApart(d: Doc, op: ProtoOp)
    requires op.RenameEnumValue? && op.enumName in d.enums && NumbersApart(d.enums[op.enumName])
    requires RenameEnumValueIn(d, op).Success?
    ensures NumbersApart(RenameEnumValueIn(d, op).value.enums[op.enumName])
  {}

  lemma EditKeepsApart(d: Doc, op: ProtoOp, defer: bool)
    requires SoundEnums(d) && EditsEnum(op)
    ensures EditEnumIn(d, op, defer).Success? ==> SoundEnums(EditEnumIn(d, op, defer).value)
  {
    if op.AddEnumValue? && AddEnumValueIn(d, op).Success? {
      AddKeepsApart(d.enums[op.enumName], op, d.meta.syntax == Some("proto3"));
    } else if op.RemoveEnumValue? && RemoveEnumValueIn(d, op, defer).Success? {
      RemoveKeepsApart(d.enums[op.enumName], op);
    } else if op.RenameEnumValue? && RenameEnumValueIn(d, op).Success? {
      RenameKeepsApart(d, op);
    }
  }

  lemma OthersKeepEnums(d: Doc, op: ProtoOp, defer: bool, n: string)
    requires !EditsEnum(op) && ApplyOp(d, op, defer).Success? && n in ApplyOp(d, op, defer).value.enums
    ensures var e := ApplyOp(d, op, defer).value.enums[n]; e.value == [] || (n in d.enums && e == d.enums[n])
  {}

  lemma StepKeepsApart(d: Doc, op: ProtoOp, defer: bool)
    requires SoundEnums(d) && ApplyOp(d, op, defer).Success?
    ensures SoundEnums(ApplyOp(d, op, defer).value)
  {
    if EditsEnum(op) {
      EditKeepsApart(d, op, defer);
    } else {
      var next := ApplyOp(d, op, defer).value;
      forall n | n in next.enums ensures NumbersApart(next.enums[n]) {
        OthersKeepEnums(d, op, defer, n);
      }
    }
  }

  /** Every state a run of operations reaches has sound enums. */
  lemma {:induction false} RunsStayApart(d: Doc, ops: seq<ProtoOp>, defer: bool)
    requires SoundEnums(d)
    ensures Run(d, ops, defer).Success? ==> SoundEnums(Run(d, ops, defer).value)
    decreases |ops|
  {
    if ops != [] && ApplyOp(d, ops[0], defer).Success? {
      StepKeepsApart(d, ops[0], defer);
      RunsStayApart(ApplyOp(d, ops[0], defer).value, ops[1..], defer);
    }
  }

  // ----- defaults follow a renamed value -----

  /** A default that is `from` on a field of the enum becomes `to`; nothing else of a field changes. */
  ghost predicate FieldFollows(f: Field, g: Field, enumName: string, from: string, to: string) {
    && g == f.(defaultValue := g.defaultValue)
    && g.defaultValue == if f.defaultValue == Some(from) && f.typeName.Some? && Simple(f.typeName.value) == enumName
                         then Some(to) else f.defaultValue
  }

  ghost predicate FieldsFollow(fs: seq<Field>, gs: seq<Field>, enumName: string, from: string, to: string) {
    |gs| == |fs| && forall i :: 0 <= i < |fs| ==> FieldFollows(fs[i], gs[i], enumName, from, to)
  }

  /** So it is in a message at any nesting. */
  ghost predicate MessageFollows(m: Message, n: Message, enumName: string, from: string, to: string)
    decreases m, 1
  {
    && n == m.(field := n.field, extension := n.extension, nestedType := n.nestedType)
    && FieldsFollow(m.field, n.field, enumName, from, to) && FieldsFollow(m.extension, n.extension, enumName, from, to)
    && NestedFollow(m.nestedType, n.nestedType, enumName, from, to)
  }

  ghost predicate NestedFollow(ms: seq<Message>, ns: seq<Message>, enumName: string, from: string, to: string)
    decreases ms, 0
  {
    && |ns| == |ms|
    && (ms != [] ==> MessageFollows(ms[0], ns[0], enumName, from, to)
                     && NestedFollow(ms[1..], ns[1..], enumName, from, to))
  }

  lemma {:induction false} RenamedValueFollows(m: Message, enumName: string, from: string, to: string)
    ensures MessageFollows(m, RenamedValue(m, enumName, from, to), enumName, from, to)
    decreases m, 1
  {
    NestedValuesFollow(m.nestedType, enumName, from, to);
  }

  lemma {:induction false} NestedValuesFollow(ms: seq<Message>, enumName: string, from: string, to: string)
    ensures NestedFollow(ms, RenamedValueNested(ms, enumName, from, to), enumName, from, to)
    decreases ms, 0
  {
    if ms != [] {
      RenamedValueFollows(ms[0], enumName, from, to);
      NestedValuesFollow(ms[1..], enumName, from, to);
      assert RenamedValueNested(ms, enumName, from, to)[1..] == RenamedValueNested(ms[1..], enumName, from, to);
    }
  }

  /** Renaming a value rewrites the defaults that use it, in all messages and file extensions, and nothing else. */
  lemma RenameRewritesDefaults(d: Doc, op: ProtoOp)
    requires op.RenameEnumValue? && RenameEnumValueIn(d, op).Success?
    ensures var next := RenameEnumValueIn(d, op).value;
            && next.messages.Keys == d.messages.Keys
            && FieldsFollow(d.meta.extension, next.meta.extension, op.enumName, op.value, op.newName)
            && forall n :: n in d.messages ==>
                 MessageFollows(d.messages[n], next.messages[n], op.enumName, op.value, op.newName)
  {
    forall n | n in d.messages
      ensures MessageFollows(d.messages[n], RenameEnumValueIn(d, op).value.messages[n], op.enumName, op.value,
                             op.newName)
    {
      RenamedValueFollows(d.messages[n], op.enumName, op.value, op.newName);
    }
  }

  predicate AnyUses(fs: seq<Field>, enumName: string, v: string) {
    exists i :: 0 <= i < |fs| && FieldUsesValue(fs[i], enumName, v)
  }

  lemma FieldsMoved(fs: seq<Field>, enumName: string, from: string, to: string, v: string)
    requires from != to
    ensures UseMoved(AnyUses(fs, enumName, v), AnyUses(fs, enumName, from),
                     AnyUses(RenamedValueFields(fs, enumName, from, to), enumName, v), v, from, to)
  {
    var gs := RenamedValueFields(fs, enumName, from, to);
    forall i | 0 <= i < |fs|
      ensures UseMoved(FieldUsesValue(fs[i], enumName, v), FieldUsesValue(fs[i], enumName, from),
                       FieldUsesValue(gs[i], enumName, v), v, from, to)
    {}
  }

  lemma {:induction false} MessageMoved(m: Message, enumName: string, from: string, to: string, v: string)
    requires from != to
    ensures UseMoved(MessageUsesValue(m, enumName, v), MessageUsesValue(m, enumName, from),
                     MessageUsesValue(RenamedValue(m, enumName, from, to), enumName, v), v, from, to)
    decreases m, 1
  {
    FieldsMoved(m.field, enumName, from, to, v);
    FieldsMoved(m.extension, enumName, from, to, v);
    NestedMoved(m.nestedType, enumName, from, to, v);
    forall k | k in {from, v}
      ensures MessageUsesValue(m, enumName, k) <==> AnyUses(m.field, enumName, k) || AnyUses(m.extension, enumName, k)
                                                    || NestedUsesValue(m.nestedType, enumName, k)
    {}
  }

  lemma {:induction false} NestedMoved(ms: seq<Message>, enumName: string, from: string, to: string, v: string)
    requires from != to
    ensures UseMoved(NestedUsesValue(ms, enumName, v), NestedUsesValue(ms, enumName, from),
                     NestedUsesValue(RenamedValueNested(ms, enumName, from, to), enumName, v), v, from, to)
    decreases ms, 0
  {
    if ms != [] {
      MessageMoved(ms[0], enumName, from, to, v);
      NestedMoved(ms[1..], enumName, from, to, v);
      assert RenamedValueNested(ms, enumName, from, to)[1..] == RenamedValueNested(ms[1..], enumName, from, to);
    }
  }

  /** A renamed value takes along every default that uses it, at any nesting, and nothing uses the old name. */
  lemma RenameMovesDefaults(d: Doc, op: ProtoOp, v: string)
    requires op.RenameEnumValue? && op.value != op.newName && RenameEnumValueIn(d, op).Success?
    ensures UseMoved(ValueUsed(d, op.enumName, v), ValueUsed(d, op.enumName, op.value),
                     ValueUsed(RenameEnumValueIn(d, op).value, op.enumName, v), v, op.value, op.newName)
  {
    var next := RenameEnumValueIn(d, op).value;
    FieldsMoved(d.meta.extension, op.enumName, op.value, op.newName, v);
    forall n | n in d.messages
      ensures UseMoved(MessageUsesValue(d.messages[n], op.enumName, v),
                       MessageUsesValue(d.messages[n], op.enumName, op.value),
                       MessageUsesValue(next.messages[n], op.enumName, v), v, op.value, op.newName)
    {
      MessageMoved(d.messages[n], op.enumName, op.value, op.newName, v);
    }
  }
}
