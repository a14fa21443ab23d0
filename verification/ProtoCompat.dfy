/**
 The message compatibility checker, and what it says of the messages the engine produces: runs of field operations
 against the message they started from.
 */
module ProtoCompat {
  import opened Wrappers
  import opened Text
  import opened SortedNames
  import opened Wire
  import opened Descriptors
  import opened Reassembly
  import opened Effects
  import opened ProtoOps
  import opened ProtoFieldNumbers

  datatype Direction = Backward | Forward | Full

  datatype Violation = FieldRemoved(number: i32) | TypeChanged(number: i32) | CardinalityChanged(number: i32)

  /** Fields by number, the last one winning. */
  function ByNumber(fs: seq<Field>): map<i32, Field> {
    if fs == [] then map[]
    else
      var last := fs[|fs| - 1];
      var rest := ByNumber(fs[..|fs| - 1]);
      if last.number.Some? then rest[last.number.value := last] else rest
  }

  predicate TypeBreaks(o: Field, n: Field, dir: Direction) {
    match ClassifyTypeChange(TypeNameOf(o), o.fieldType, TypeNameOf(n), n.fieldType)
    case FullyCompat => false
    case BackwardOnly => dir != Backward
    case Breaking => true
  }

  predicate CardinalityBreaks(o: Field, n: Field) {
    o.fieldLabel != n.fieldLabel || o.proto3Optional != n.proto3Optional
  }

  /** What counts as a violation between two fields-by-number maps. */
  predicate Violates(olds: map<i32, Field>, news: map<i32, Field>, dir: Direction, v: Violation) {
    match v
    case FieldRemoved(k) => k in olds && k !in news && dir != Backward
    case TypeChanged(k) => k in olds && k in news && TypeBreaks(olds[k], news[k], dir)
    case CardinalityChanged(k) => k in olds && k in news && CardinalityBreaks(olds[k], news[k])
  }

  ghost predicate Compatible(o: Message, n: Message, dir: Direction) {
    forall v :: !Violates(ByNumber(o.field), ByNumber(n.field), dir, v)
  }

  method NumberMap(fs: seq<Field>) returns (byNumber: map<i32, Field>)
    ensures byNumber == ByNumber(fs)
  {
    byNumber := map[];
    for i := 0 to |fs|
      invariant byNumber == ByNumber(fs[..i])
    {
      assert fs[..i + 1][..i] == fs[..i];
      if fs[i].number.Some? {
        byNumber := byNumber[fs[i].number.value := fs[i]];
      }
    }
    assert fs[..|fs|] == fs;
  }

  method RemovedFields(olds: map<i32, Field>, news: map<i32, Field>, dir: Direction) returns (v: set<Violation>)
    ensures forall x :: x in v <==> x.FieldRemoved? && Violates(olds, news, dir, x)
  {
    v := {};
    var todo := olds.Keys;
    while todo != {}
      invariant todo <= olds.Keys
      invariant forall x :: x in v <==> x.FieldRemoved? && x.number !in todo && Violates(olds, news, dir, x)
      decreases todo
    {
      var number :| number in todo;
      if number !in news && dir != Backward {
        v := v + {FieldRemoved(number)};
      }
      todo := todo - {number};
    }
  }

  method ChangedFields(olds: map<i32, Field>, news: map<i32, Field>, dir: Direction) returns (v: set<Violation>)
    ensures forall x :: x in v <==> !x.FieldRemoved? && Violates(olds, news, dir, x)
  {
    v := {};
    var todo := news.Keys;
    while todo != {}
      invariant todo <= news.Keys
      invariant forall x :: x in v <==> !x.FieldRemoved? && x.number !in todo && Violates(olds, news, dir, x)
      decreases todo
    {
      var number :| number in todo;
      if number in olds {
        if TypeBreaks(olds[number], news[number], dir) {
          v := v + {TypeChanged(number)};
        }
        if CardinalityBreaks(olds[number], news[number]) {
          v := v + {CardinalityChanged(number)};
        }
      }
      todo := todo - {number};
    }
  }

  /** `check_message`: reports exactly the violations. */
  method CheckMessage(o: Message, n: Message, dir: Direction) returns (v: set<Violation>)
    ensures forall x :: x in v <==> Violates(ByNumber(o.field), ByNumber(n.field), dir, x)
    ensures v == {} <==> Compatible(o, n, dir)
  {
    var olds := NumberMap(o.field);
    var news := NumberMap(n.field);
    var removed := RemovedFields(olds, news, dir);
    var changed := ChangedFields(olds, news, dir);
    v := removed + changed;
  }

  // ----- runs of field operations -----

  lemma {:induction false} ByNumberHolds(fs: seq<Field>)
    ensures forall k :: k in ByNumber(fs) ==> ByNumber(fs)[k] in fs && ByNumber(fs)[k].number == Some(k)
    ensures forall i :: 0 <= i < |fs| && fs[i].number.Some? ==> fs[i].number.value in ByNumber(fs)
  {
    if fs != [] {
      ByNumberHolds(fs[..|fs| - 1]);
      assert fs == fs[..|fs| - 1] + [fs[|fs| - 1]];
    }
  }

  lemma ByNumberAt(m: Message, i: nat)
    requires Sound(m) && i < |m.field| && m.field[i].number.Some?
    ensures m.field[i].number.value in ByNumber(m.field) && ByNumber(m.field)[m.field[i].number.value] == m.field[i]
  {
    ByNumberHolds(m.field);
    var k := m.field[i].number.value;
    var j :| 0 <= j < |m.field| && m.field[j] == ByNumber(m.field)[k];
    assert j == i;
  }

  lemma ByNumberDomain(m: Message, k: i32)
    ensures k in ByNumber(m.field) <==> CarriesNumber(m, k)
  {
    ByNumberHolds(m.field);
  }

  /** The same wire form: what the checker compares. */
  predicate Alike(f: Field, g: Field) {
    && f.fieldType == g.fieldType && f.typeName == g.typeName
    && f.fieldLabel == g.fieldLabel && f.proto3Optional == g.proto3Optional
  }

  /** `n` kept the original fields it still carries, and reserved the numbers of those it does not. */
  ghost predicate Descends(m: Message, n: Message) {
    && Sound(n)
    && (forall i :: 0 <= i < |n.field| && n.field[i].number.Some? && n.field[i].number.value in ByNumber(m.field) ==>
          Alike(ByNumber(m.field)[n.field[i].number.value], n.field[i]))
    && (forall k :: k in ByNumber(m.field) && !CarriesNumber(n, k) ==> NumberReserved(n, k))
  }

  /** A field list that ReorderFields treats as a set of names. */
  predicate NamesDistinct(m: Message) {
    && (forall i :: 0 <= i < |m.field| ==> m.field[i].name.Some?)
    && (forall i, j :: 0 <= i < j < |m.field| ==> m.field[i].name != m.field[j].name)
  }

  /** The field operations the run theorem covers; a reordering only of distinctly named fields. */
  predicate Gentle(m: Message, op: ProtoOp) {
    op.AddField? || op.RemoveField? || op.RenameField? || (op.ReorderFields? && NamesDistinct(m))
  }

  /** A run of field operations on one message. */
  function EditAll(m: Message, ops: seq<ProtoOp>): Result<Message, MutationError>
    decreases |ops|
  {
    if ops == [] then Success(m)
    else if !EditsMessage(ops[0]) then Failure(InvalidOperation)
    else
      var next :- EditMessage(m, ops[0]);
      EditAll(next, ops[1..])
  }

  predicate GentleRun(m: Message, ops: seq<ProtoOp>)
    decreases |ops|
  {
    ops != [] ==>
      && Gentle(m, ops[0])
      && (EditMessage(m, ops[0]).Success? ==> GentleRun(EditMessage(m, ops[0]).value, ops[1..]))
  }

  lemma Self(m: Message)
    requires Sound(m)
    ensures Descends(m, m)
  {
    forall i | 0 <= i < |m.field| && m.field[i].number.Some?
      ensures m.field[i].number.value in ByNumber(m.field) && ByNumber(m.field)[m.field[i].number.value] == m.field[i]
    {
      ByNumberAt(m, i);
    }
    forall k | k in ByNumber(m.field) ensures CarriesNumber(m, k) {
      ByNumberDomain(m, k);
    }
  }

  lemma AddDescends(m: Message, n: Message, op: ProtoOp)
    requires op.AddField? && Descends(m, n) && AddFieldTo(n, op).Success?
    ensures Descends(m, AddFieldTo(n, op).value)
  {
    var after := AddFieldTo(n, op).value;
    AddKeepsSound(n, op);
    assert Wrap32(op.number) !in ByNumber(m.field);
    forall k | k in ByNumber(m.field) && !CarriesNumber(after, k) ensures NumberReserved(after, k) {
      forall i | 0 <= i < |n.field| ensures n.field[i].number != Some(k) {
        assert after.field[i] == n.field[i];
      }
      assert NumberReserved(n, k);
      ReservedStays(n, after, k);
    }
  }

  lemma RemoveDescends(m: Message, n: Message, op: ProtoOp)
    requires op.RemoveField? && Descends(m, n) && RemoveFieldFrom(n, op).Success? && I32_MAX !in ByNumber(m.field)
    ensures Descends(m, RemoveFieldFrom(n, op).value)
  {
    var after := RemoveFieldFrom(n, op).value;
    var at := FindField(n.field, op.field).value;
    RemoveKeepsSound(n, op);
    forall i | 0 <= i < |after.field| ensures after.field[i] in n.field {
      assert after.field[i] == n.field[if i < at then i else i + 1];
    }
    forall k | k in ByNumber(m.field) && !CarriesNumber(after, k) ensures NumberReserved(after, k) {
      ReservedByRemoval(n, op, k);
      if n.field[at].number != Some(k) {
        forall i | 0 <= i < |n.field| ensures n.field[i].number != Some(k) {
          if i != at {
            assert after.field[if i < at then i else i - 1] == n.field[i];
          }
        }
        assert !CarriesNumber(n, k);
      }
    }
  }

  lemma RenameDescends(m: Message, n: Message, op: ProtoOp)
    requires op.RenameField? && Descends(m, n) && RenameFieldIn(n, op).Success?
    ensures Descends(m, RenameFieldIn(n, op).value)
  {
    var after := RenameFieldIn(n, op).value;
    SameNumbers(n, after);
    forall k | k in ByNumber(m.field) && !CarriesNumber(after, k) ensures NumberReserved(after, k) {
      forall i | 0 <= i < |n.field| ensures n.field[i].number != Some(k) {
        assert after.field[i].number == n.field[i].number;
      }
      assert NumberReserved(n, k);
      ReservedStays(n, after, k);
    }
  }

  /** Whatever the listed names map to is picked. */
  lemma {:induction false} PickCovers<T(!new)>(order: seq<string>, byName: map<string, T>)
    ensures forall k :: k in byName && k in order ==> byName[k] in Pick(order, byName)
  {
    if order != [] {
      PickCovers(order[1..], if order[0] in byName then byName - {order[0]} else byName);
      forall k | k in byName && k in order ensures byName[k] in Pick(order, byName) {
        if k != order[0] {
          assert k in order[1..];
        }
      }
    }
  }

  lemma {:induction false} ByNameDistinct(fs: seq<Field>)
    requires DistinctNames(fs, FieldName)
    ensures forall i :: 0 <= i < |fs| ==>
              FieldName(fs[i]) in ByName(fs, FieldName) && ByName(fs, FieldName)[FieldName(fs[i])] == fs[i]
  {
    if fs != [] {
      ByNameDistinct(fs[..|fs| - 1]);
    }
  }

  /** A reordering of distinctly named fields drops none of them. */
  lemma ReorderKeepsFields(m: Message, op: ProtoOp)
    requires op.ReorderFields? && NamesDistinct(m) && ReorderFieldsIn(m, op).Success?
    ensures forall i :: 0 <= i < |m.field| ==> m.field[i] in ReorderFieldsIn(m, op).value.field
  {
    var byName := ByName(m.field, FieldName);
    ByNameDistinct(m.field);
    PickCovers(op.order, byName);
    forall i | 0 <= i < |m.field| ensures m.field[i] in Pick(op.order, byName) {
      var name := m.field[i].name.value;
      assert name in FieldNames(m.field);
      assert byName[name] == m.field[i];
    }
  }

  lemma ReorderDescends(m: Message, n: Message, op: ProtoOp)
    requires op.ReorderFields? && NamesDistinct(n) && Descends(m, n) && ReorderFieldsIn(n, op).Success?
    ensures Descends(m, ReorderFieldsIn(n, op).value)
  {
    var after := ReorderFieldsIn(n, op).value;
    ReorderKeepsSound(n, op);
    ReorderKeepsFields(n, op);
    ByNameHolds(n.field, FieldName);
    PickDistinct(op.order, ByName(n.field, FieldName), FieldName);
    forall i | 0 <= i < |after.field| ensures after.field[i] in n.field {
      assert after.field[i] in Pick(op.order, ByName(n.field, FieldName));
    }
    forall k | k in ByNumber(m.field) && !CarriesNumber(after, k) ensures NumberReserved(after, k) {
      forall i | 0 <= i < |n.field| ensures n.field[i].number != Some(k) {
        assert n.field[i] in after.field;
      }
      assert NumberReserved(n, k);
      ReservedStays(n, after, k);
    }
  }

  lemma {:induction false} RunDescends(m: Message, n: Message, ops: seq<ProtoOp>)
    requires Descends(m, n) && I32_MAX !in ByNumber(m.field) && GentleRun(n, ops) && EditAll(n, ops).Success?
    ensures Descends(m, EditAll(n, ops).value)
    decreases |ops|
  {
    if ops != [] {
      var op := ops[0];
      if op.AddField? {
        AddDescends(m, n, op);
      } else if op.RemoveField? {
        RemoveDescends(m, n, op);
      } else if op.RenameField? {
        RenameDescends(m, n, op);
      } else {
        ReorderDescends(m, n, op);
      }
      RunDescends(m, EditMessage(n, op).value, ops[1..]);
    }
  }

  lemma DescendantAlike(m: Message, n: Message, k: i32)
    requires Descends(m, n) && k in ByNumber(m.field) && k in ByNumber(n.field)
    ensures Alike(ByNumber(m.field)[k], ByNumber(n.field)[k])
  {
    ByNumberHolds(n.field);
    var i :| 0 <= i < |n.field| && n.field[i] == ByNumber(n.field)[k];
  }

  /**
   Every run of AddField, RemoveField, RenameField and name-distinct ReorderFields ends in a message that the checker
   accepts as backward compatible, and as forward or fully compatible exactly when every original number survives.
   */
  lemma GentleRunsAreCompatible(m: Message, ops: seq<ProtoOp>)
    requires Sound(m) && !CarriesNumber(m, I32_MAX) && GentleRun(m, ops) && EditAll(m, ops).Success?
    ensures var n := EditAll(m, ops).value;
            && Compatible(m, n, Backward)
            && (Compatible(m, n, Full) <==> forall k :: CarriesNumber(m, k) ==> CarriesNumber(n, k))
            && (Compatible(m, n, Forward) <==> Compatible(m, n, Full))
  {
    var n := EditAll(m, ops).value;
    ByNumberDomain(m, I32_MAX);
    Self(m);
    RunDescends(m, m, ops);
    DescendantCompatible(m, n);
  }

  lemma DescendantCompatible(m: Message, n: Message)
    requires Descends(m, n)
    ensures Compatible(m, n, Backward)
    ensures Compatible(m, n, Full) <==> forall k :: CarriesNumber(m, k) ==> CarriesNumber(n, k)
    ensures Compatible(m, n, Forward) <==> Compatible(m, n, Full)
  {
    var olds, news := ByNumber(m.field), ByNumber(n.field);
    forall dir, v
      ensures Violates(olds, news, dir, v) <==>
              v.FieldRemoved? && v.number in olds && v.number !in news && dir != Backward
    {
      if v.number in olds && v.number in news {
        DescendantAlike(m, n, v.number);
      }
    }
    forall k ensures k in olds <==> CarriesNumber(m, k) { ByNumberDomain(m, k); }
    forall k ensures k in news <==> CarriesNumber(n, k) { ByNumberDomain(n, k); }
    forall k: i32 | k in olds && k !in news
      ensures Violates(olds, news, Full, FieldRemoved(k)) && Violates(olds, news, Forward, FieldRemoved(k))
    {}
  }

  // ----- where the guarantee ends -----

  lemma {:induction false} CountOfDistinct(fs: seq<Field>, f: Field)
    requires DistinctNames(fs, FieldName)
    ensures multiset(fs)[f] == if f in fs then 1 else 0
  {
    if fs != [] {
      CountOfDistinct(fs[1..], f);
      assert fs == [fs[0]] + fs[1..];
      forall i | 0 <= i < |fs[1..]| ensures fs[1..][i] != fs[0] {
        assert FieldName(fs[0]) != FieldName(fs[i + 1]);
      }
    }
  }

  lemma CountOfTwice(fs: seq<Field>, i: nat, j: nat)
    requires i < j < |fs| && fs[i] == fs[j]
    ensures multiset(fs)[fs[i]] >= 2
  {
    assert fs == fs[..j] + [fs[j]] + fs[j + 1..];
    assert fs[..j][i] == fs[i];
  }

  lemma SameFieldsSameNames(fs: seq<Field>, gs: seq<Field>, i: nat, j: nat)
    requires multiset(fs) == multiset(gs) && DistinctNames(gs, FieldName) && i < j < |fs|
    ensures FieldName(fs[i]) != FieldName(fs[j])
  {
    CountOfDistinct(gs, fs[i]);
    if fs[i] == fs[j] {
      CountOfTwice(fs, i, j);
    } else {
      assert fs[i] in multiset(fs) && fs[j] in multiset(fs);
      assert fs[i] in gs && fs[j] in gs;
      var a :| 0 <= a < |gs| && gs[a] == fs[i];
      var b :| 0 <= b < |gs| && gs[b] == fs[j];
      assert a < b || b < a;
    }
  }

  /**
   An accepted ReorderFields is a permutation of the fields exactly when every field has a name and no two share one.
   */
  lemma ReorderPermutesExactly(m: Message, op: ProtoOp)
    requires op.ReorderFields? && ReorderFieldsIn(m, op).Success?
    ensures multiset(ReorderFieldsIn(m, op).value.field) == multiset(m.field) <==> NamesDistinct(m)
  {
    var byName := ByName(m.field, FieldName);
    var picked := Pick(op.order, byName);
    ByNameHolds(m.field, FieldName);
    PickDistinct(op.order, byName, FieldName);
    if NamesDistinct(m) {
      ReorderKeepsFields(m, op);
      assert DistinctNames(m.field, FieldName);
      forall f ensures multiset(picked)[f] == multiset(m.field)[f] {
        CountOfDistinct(picked, f);
        CountOfDistinct(m.field, f);
      }
    }
    if multiset(picked) == multiset(m.field) {
      forall i, j | 0 <= i < j < |m.field| ensures FieldName(m.field[i]) != FieldName(m.field[j]) {
        SameFieldsSameNames(m.field, picked, i, j);
      }
      forall i | 0 <= i < |m.field| ensures m.field[i].name.Some? {
        KeptMeansNamed(m, op, i);
      }
    }
  }

  /** A kept field is listed by name; the name of a nameless one could only be another's. */
  lemma KeptMeansNamed(m: Message, op: ProtoOp, i: nat)
    requires op.ReorderFields? && ReorderFieldsIn(m, op).Success? && i < |m.field|
    requires multiset(ReorderFieldsIn(m, op).value.field) == multiset(m.field)
    requires DistinctNames(m.field, FieldName)
    ensures m.field[i].name.Some?
  {
    var byName := ByName(m.field, FieldName);
    ByNameHolds(m.field, FieldName);
    PickDistinct(op.order, byName, FieldName);
    assert m.field[i] in multiset(m.field);
    assert m.field[i] in Pick(op.order, byName);
    assert FieldName(m.field[i]) in Elements(op.order);
    var f :| f in m.field && f.name.Some? && f.name.value == FieldName(m.field[i]);
    var j :| 0 <= j < |m.field| && m.field[j] == f;
    assert i == j;
  }

  lemma ScalarNames(name: string)
    ensures ScalarType(name).Some? ==> ScalarName(ScalarType(name).value) == name && '.' !in name
    ensures ScalarType(name).Some? ==> !IsNamedKind(ScalarType(name).value)
  {}

  lemma OtherFieldsAlike(m: Message, n: Message, at: nat, k: i32)
    requires Sound(m) && Sound(n) && at < |m.field| && k in ByNumber(m.field)
    requires |n.field| == |m.field| && forall i :: 0 <= i < |m.field| && i != at ==> n.field[i] == m.field[i]
    requires n.field[at].number == m.field[at].number
    ensures k in ByNumber(n.field)
    ensures m.field[at].number != Some(k) ==> ByNumber(n.field)[k] == ByNumber(m.field)[k]
  {
    ByNumberHolds(m.field);
    var i :| 0 <= i < |m.field| && m.field[i] == ByNumber(m.field)[k];
    ByNumberAt(n, i);
  }

  predicate FieldBreaks(f: Field, g: Field, dir: Direction) { TypeBreaks(f, g, dir) || CardinalityBreaks(f, g) }

  /** Only one field is different, and it keeps its number. */
  lemma OneFieldCompatibleExactly(m: Message, n: Message, at: nat, dir: Direction)
    requires Sound(m) && at < |m.field| && n.reservedRange == m.reservedRange && |n.field| == |m.field|
    requires forall i :: 0 <= i < |m.field| && i != at ==> n.field[i] == m.field[i]
    requires n.field[at].number == m.field[at].number
    ensures Compatible(m, n, dir) <==> m.field[at].number.None? || !FieldBreaks(m.field[at], n.field[at], dir)
  {
    SameNumbers(m, n);
    var olds, news := ByNumber(m.field), ByNumber(n.field);
    if m.field[at].number.Some? {
      ByNumberAt(m, at);
      ByNumberAt(n, at);
      if FieldBreaks(m.field[at], n.field[at], dir) {
        var k := m.field[at].number.value;
        assert Violates(olds, news, dir, TypeChanged(k)) || Violates(olds, news, dir, CardinalityChanged(k));
      }
    }
    if m.field[at].number.None? || !FieldBreaks(m.field[at], n.field[at], dir) {
      forall v ensures !Violates(olds, news, dir, v) {
        if v.number in olds {
          OtherFieldsAlike(m, n, at, v.number);
        }
      }
    }
  }

  /** Only the type of one field is different. */
  lemma OneTypeCompatibleExactly(m: Message, n: Message, at: nat, dir: Direction)
    requires Sound(m) && at < |m.field| && n.reservedRange == m.reservedRange && |n.field| == |m.field|
    requires forall i :: 0 <= i < |m.field| && i != at ==> n.field[i] == m.field[i]
    requires n.field[at].number == m.field[at].number && !CardinalityBreaks(m.field[at], n.field[at])
    ensures Compatible(m, n, dir) <==> m.field[at].number.None? || !TypeBreaks(m.field[at], n.field[at], dir)
  {
    OneFieldCompatibleExactly(m, n, at, dir);
  }

  /**
   An accepted ChangeFieldType passes the checker exactly when the field has no number or the new type is spelled
   without a dot: the engine compares with the spelling given, the checker with its last segment.
   */
  lemma ChangeTypeCompatibleExactly(m: Message, op: ProtoOp)
    requires op.ChangeFieldType? && Sound(m) && ChangeFieldTypeIn(m, op).Success?
    ensures Compatible(m, ChangeFieldTypeIn(m, op).value, Backward) <==>
            m.field[FindField(m.field, op.field).value].number.None? || '.' !in op.newType
  {
    var at := FindField(m.field, op.field).value;
    OneTypeCompatibleExactly(m, ChangeFieldTypeIn(m, op).value, at, Backward);
    ChangedTypeBreaks(m.field[at], op.newType);
  }

  /** An accepted ChangeCardinality of a numbered field passes the checker exactly when it changes nothing. */
  lemma ChangeCardinalityCompatibleExactly(m: Message, op: ProtoOp, dir: Direction)
    requires op.ChangeCardinality? && Sound(m) && ChangeCardinalityIn(m, op).Success?
    ensures Compatible(m, ChangeCardinalityIn(m, op).value, dir) <==>
            m.field[FindField(m.field, op.field).value].number.None? || ChangeCardinalityIn(m, op).value == m
  {
    var at := FindField(m.field, op.field).value;
    var n := ChangeCardinalityIn(m, op).value;
    OneFieldCompatibleExactly(m, n, at, dir);
    assert n.field == m.field <==> n.field[at] == m.field[at];
  }

  /** How a value of a type is written, as the Protobuf encoding defines it. */
  datatype Encoding = Plain | ZigZag | Fixed32 | Fixed64 | Lengthed | Grouped

  function EncodingOf(t: FieldType): Encoding {
    match t
    case TInt32 | TInt64 | TUint32 | TUint64 | TBool | TEnum => Plain
    case TSint32 | TSint64 => ZigZag
    case TFixed32 | TSfixed32 | TFloat => Fixed32
    case TFixed64 | TSfixed64 | TDouble => Fixed64
    case TString | TBytes | TMessage => Lengthed
    case TGroup => Grouped
  }

  /** What the allow lists call by this name. */
  function Listed(key: string): Option<FieldType> { if key == "enum" then Some(TEnum) else ScalarType(key) }

  predicate EncodedAs(key: string, e: Encoding) { Listed(key).Some? && EncodingOf(Listed(key).value) == e }

  lemma PlainNames(key: string)
    requires key in ["int32", "int64", "uint32", "uint64", "bool", "enum"]
    ensures EncodedAs(key, Plain)
  {}

  lemma OtherNames()
    ensures EncodedAs("sint32", ZigZag) && EncodedAs("sint64", ZigZag)
    ensures EncodedAs("string", Lengthed) && EncodedAs("bytes", Lengthed)
  {}

  /** A listed change keeps the encoding of the values, zig-zag included. */
  lemma AllowedKeepsEncoding(a: string, b: string)
    requires FullyAllowed(a, b) || BackwardAllowed(a, b)
    ensures exists e :: EncodedAs(a, e) && EncodedAs(b, e)
  {
    var plain := ["int32", "int64", "uint32", "uint64", "bool", "enum"];
    assert plain[0] in plain && plain[1] in plain && plain[2] in plain && plain[3] in plain && plain[5] in plain;
    if a in plain {
      PlainNames(a);
      PlainNames(b);
    } else {
      OtherNames();
    }
  }

  /** The wire type is that of the encoding; without a kind the name decides, and one that is no scalar is a message. */
  lemma WireIsEncoding(t: FieldType, name: string)
    ensures WireOf(t) == match EncodingOf(t) {
                           case Plain => Varint
                           case ZigZag => Varint
                           case Fixed32 => I32
                           case Fixed64 => I64
                           case Lengthed => LengthDelimited
                           case Grouped => Group
                         }
    ensures WireOfField(name, Some(t)) == WireOf(t)
    ensures WireOfField(name, None) == WireOf(ScalarType(name).GetOr(TMessage))
  {}

  /** Only a field whose kind was never resolved is spelled with a dot. */
  lemma ResolvedDotFree(f: Field)
    requires f.fieldType.Some?
    ensures DotFree(TypeNameOf(f))
  {}

  /** How a field is spelled after a change of type. */
  lemma NewTypeName(f: Field, newType: string)
    ensures var (ty, typeName) := ResolveType(newType);
            TypeNameOf(f.(fieldType := ty, typeName := typeName))
            == if ty == Some(TMessage) then Simple(newType) else newType
    ensures '.' in newType ==> ResolveType(newType).0 == Some(TMessage)
  {
    ScalarNames(newType);
  }

  /** A dotted spelling is on no allow list. */
  lemma DottedNeverAllowed(a: string, b: string)
    requires '.' in a || '.' in b
    ensures !FullyAllowed(a, b) && !BackwardAllowed(a, b)
  {}

  lemma DottedChange(f: Field, newType: string, ty: Option<FieldType>)
    requires '.' in newType && ty == Some(TMessage)
    requires ClassifyTypeChange(TypeNameOf(f), f.fieldType, newType, ty) != Breaking
    ensures TypeNameOf(f) == newType && f.fieldType.None?
  {
    DottedNeverAllowed(AllowKey(TypeNameOf(f), f.fieldType), newType);
    if f.fieldType.Some? {
      ResolvedDotFree(f);
    }
  }

  lemma DottedBreaks(name: string)
    requires '.' in name
    ensures ClassifyTypeChange(name, None, Simple(name), Some(TMessage)) == Breaking
  {
    SimpleParts(name);
    DottedNeverAllowed(name, Simple(name));
  }

  lemma ChangedTypeBreaks(f: Field, newType: string)
    requires ClassifyTypeChange(TypeNameOf(f), f.fieldType, newType, ResolveType(newType).0) != Breaking
    ensures var g := f.(fieldType := ResolveType(newType).0, typeName := ResolveType(newType).1);
            TypeBreaks(f, g, Backward) <==> '.' in newType
  {
    NewTypeName(f, newType);
    SimpleParts(newType);
    if '.' in newType {
      DottedChange(f, newType, ResolveType(newType).0);
      DottedBreaks(newType);
    }
  }

  // ----- runs of type changes on one field -----

  predicate ChangesTypeOf(op: ProtoOp, name: string) { op.ChangeFieldType? && op.field == name }

  predicate AllChangeTypeOf(ops: seq<ProtoOp>, name: string) {
    forall i :: 0 <= i < |ops| ==> ChangesTypeOf(ops[i], name)
  }

  function WithType(f: Field, newType: string): Field {
    f.(fieldType := ResolveType(newType).0, typeName := ResolveType(newType).1)
  }

  lemma {:induction false} FindReplaced(fs: seq<Field>, name: string, g: Field)
    requires FindField(fs, name).Some? && g.name == Some(name)
    ensures FindField(fs[FindField(fs, name).value := g], name) == FindField(fs, name)
    decreases |fs|
  {
    var at := FindField(fs, name).value;
    if at > 0 {
      assert fs[at := g][1..] == fs[1..][at - 1 := g];
      FindReplaced(fs[1..], name, g);
    }
  }

  /** The first change of a run. */
  lemma ChangeStep(m: Message, ops: seq<ProtoOp>, name: string) returns (next: Message, at: nat)
    requires ops != [] && ChangesTypeOf(ops[0], name) && EditAll(m, ops).Success?
    ensures FindField(m.field, name) == Some(at) && at < |m.field|
    ensures next == m.(field := m.field[at := WithType(m.field[at], ops[0].newType)])
    ensures FindField(next.field, name) == Some(at) && EditAll(m, ops) == EditAll(next, ops[1..])
  {
    next, at := ChangeFieldTypeIn(m, ops[0]).value, FindField(m.field, name).value;
    FindReplaced(m.field, name, WithType(m.field[at], ops[0].newType));
  }

  /** Only the last type of an accepted run is left in the message. */
  lemma {:induction false} RunLeavesLastType(m: Message, ops: seq<ProtoOp>, name: string)
    requires ops != [] && AllChangeTypeOf(ops, name) && EditAll(m, ops).Success?
    ensures FindField(m.field, name).Some?
    ensures var at := FindField(m.field, name).value;
            EditAll(m, ops).value == m.(field := m.field[at := WithType(m.field[at], ops[|ops| - 1].newType)])
    decreases |ops|
  {
    assert ChangesTypeOf(ops[0], name);
    var next, at := ChangeStep(m, ops, name);
    if |ops| == 1 {
      assert EditAll(next, ops[1..]) == Success(next);
    } else {
      RunLeavesLastType(next, ops[1..], name);
      var last := WithType(m.field[at], ops[|ops| - 1].newType);
      assert next.field[at := last] == m.field[at := last];
    }
  }

  /** The two spellings are equal, or stand in the tables of allowed changes on one wire form. */
  predicate OnTheTables(from: string, fromTy: Option<FieldType>, to: string, toTy: Option<FieldType>, dir: Direction) {
    || from == to
    || (&& WireOfField(from, fromTy) == WireOfField(to, toTy)
        && (|| FullyAllowed(AllowKey(from, fromTy), AllowKey(to, toTy))
            || (dir == Backward && BackwardAllowed(AllowKey(from, fromTy), AllowKey(to, toTy)))))
  }

  /** A new type as the message spells it: a scalar, or the last segment of a name. */
  function SpelledType(newType: string): string { if ScalarType(newType).Some? then newType else Simple(newType) }

  lemma TablesDecide(f: Field, g: Field, dir: Direction)
    ensures TypeBreaks(f, g, dir) <==> !OnTheTables(TypeNameOf(f), f.fieldType, TypeNameOf(g), g.fieldType, dir)
  {}

  lemma SpelledWithType(f: Field, newType: string)
    ensures TypeNameOf(WithType(f, newType)) == SpelledType(newType)
  {
    NewTypeName(f, newType);
    ScalarNames(newType);
  }

  /**
   However many changes of type were accepted on the way, and in every direction, the end is compatible with the start
   exactly when the first and the last type stand in the tables; the types between do not matter.
   */
  lemma TypeChangesCompatibleExactly(m: Message, ops: seq<ProtoOp>, name: string, dir: Direction)
    requires Sound(m) && ops != [] && AllChangeTypeOf(ops, name) && EditAll(m, ops).Success?
    ensures FindField(m.field, name).Some?
    ensures var f, last := m.field[FindField(m.field, name).value], ops[|ops| - 1].newType;
            Compatible(m, EditAll(m, ops).value, dir) <==>
            f.number.None? || OnTheTables(TypeNameOf(f), f.fieldType, SpelledType(last), ResolveType(last).0, dir)
  {
    RunLeavesLastType(m, ops, name);
    var at, last := FindField(m.field, name).value, ops[|ops| - 1].newType;
    var g := WithType(m.field[at], last);
    OneTypeCompatibleExactly(m, m.(field := m.field[at := g]), at, dir);
    TablesDecide(m.field[at], g, dir);
    SpelledWithType(m.field[at], last);
  }

  lemma TwoChanges(m: Message, a: ProtoOp, b: ProtoOp)
    requires a.ChangeFieldType? && b.ChangeFieldType? && ChangeFieldTypeIn(m, a).Success?
    ensures EditAll(m, [a, b]) == ChangeFieldTypeIn(ChangeFieldTypeIn(m, a).value, b)
  {
    var next := ChangeFieldTypeIn(m, a).value;
    assert [a, b][1..] == [b] && [b][1..] == [];
    assert EditAll(next, [b]) == ChangeFieldTypeIn(next, b) by {
      if ChangeFieldTypeIn(next, b).Success? {
        assert EditAll(ChangeFieldTypeIn(next, b).value, []) == ChangeFieldTypeIn(next, b);
      }
    }
  }

  /** A message with one field of a scalar type. */
  function OneField(ty: FieldType): Message {
    EmptyMessage.(field := [BareField("a", 1, None).(fieldType := Some(ty))])
  }

  lemma OneFieldChanged(ty: FieldType, name: string, op: ProtoOp)
    requires op == ChangeFieldType("M", "a", name) && ScalarType(name).Some? && !IsNamedKind(ty)
    requires ClassifyTypeChange(ScalarName(ty), Some(ty), name, ScalarType(name)) != Breaking
    ensures ChangeFieldTypeIn(OneField(ty), op) == Success(OneField(ScalarType(name).value))
    ensures Compatible(OneField(ty), OneField(ScalarType(name).value), Backward)
  {
    var m := OneField(ty);
    assert FindField(m.field, "a") == Some(0);
    ScalarNames(name);
    assert m.field[0 := WithType(m.field[0], name)] == OneField(ScalarType(name).value).field;
    ChangeTypeCompatibleExactly(m, op);
  }

  lemma Int64ToBool(f: Field, g: Field)
    requires f.fieldType == Some(TInt64) && g.fieldType == Some(TBool)
    ensures TypeBreaks(f, g, Backward)
  {}

  lemma OneFieldSound(m: Message, ty: FieldType)
    requires m == OneField(ty)
    ensures Sound(m) && |m.field| == 1 && m.field[0] == BareField("a", 1, None).(fieldType := Some(ty))
  {}

  lemma Int64ThenBoolBreaks(m: Message, n: Message)
    requires m == OneField(TInt64) && n == OneField(TBool)
    ensures !Compatible(m, n, Backward)
  {
    OneFieldSound(m, TInt64);
    OneFieldSound(n, TBool);
    Int64ToBool(m.field[0], n.field[0]);
    OneTypeCompatibleExactly(m, n, 0, Backward);
  }

  /** Two accepted changes, each compatible with the message before it, that do not add up: int64, int32, bool. */
  lemma TypeChangesDoNotCompose(toInt32: ProtoOp, toBool: ProtoOp)
    requires toInt32 == ChangeFieldType("M", "a", "int32") && toBool == ChangeFieldType("M", "a", "bool")
    ensures ChangeFieldTypeIn(OneField(TInt64), toInt32) == Success(OneField(TInt32))
    ensures ChangeFieldTypeIn(OneField(TInt32), toBool) == Success(OneField(TBool))
    ensures Compatible(OneField(TInt64), OneField(TInt32), Backward)
    ensures Compatible(OneField(TInt32), OneField(TBool), Backward)
    ensures EditAll(OneField(TInt64), [toInt32, toBool]) == Success(OneField(TBool))
    ensures !Compatible(OneField(TInt64), OneField(TBool), Backward)
  {
    OneFieldChanged(TInt64, "int32", toInt32);
    OneFieldChanged(TInt32, "bool", toBool);
    TwoChanges(OneField(TInt64), toInt32, toBool);
    Int64ThenBoolBreaks(OneField(TInt64), OneField(TBool));
  }

  /** A type on another wire form than `f`'s, spelled differently. */
  function OtherType(f: Field): string {
    if WireOfField(TypeNameOf(f), f.fieldType) == I64 then if TypeNameOf(f) == "bool" then "int32" else "bool"
    else if TypeNameOf(f) == "double" then "fixed64" else "double"
  }

  lemma OtherTypeIs(f: Field)
    ensures ScalarType(OtherType(f)).Some?
    ensures OtherType(f) != TypeNameOf(f)
    ensures WireOf(ScalarType(OtherType(f)).value) != WireOfField(TypeNameOf(f), f.fieldType)
  {}

  lemma OtherTypeBreaks(f: Field, g: Field)
    requires g.fieldType == ResolveType(OtherType(f)).0 && g.typeName == ResolveType(OtherType(f)).1
    ensures TypeBreaks(f, g, Backward)
  {
    OtherTypeIs(f);
    SpelledAsGiven(g, OtherType(f));
  }

  lemma SpelledAsGiven(g: Field, name: string)
    requires ScalarType(name).Some? && g.fieldType == ScalarType(name)
    ensures TypeNameOf(g) == name
  {
    ScalarNames(name);
  }

  lemma TwoEdits(m: Message, a: ProtoOp, b: ProtoOp)
    requires a.RemoveField? && b.AddField? && RemoveFieldFrom(m, a).Success?
    ensures GentleRun(m, [a, b]) && EditAll(m, [a, b]) == AddFieldTo(RemoveFieldFrom(m, a).value, b)
  {
    var gone := RemoveFieldFrom(m, a).value;
    assert [a, b][1..] == [b] && [b][1..] == [];
    assert EditAll(gone, [b]) == AddFieldTo(gone, b) by {
      if AddFieldTo(gone, b).Success? {
        assert EditAll(AddFieldTo(gone, b).value, []) == AddFieldTo(gone, b);
      }
    }
  }

  /** The bound on field numbers is needed: from any message with a field numbered I32_MAX a run of two breaks it. */
  lemma LargestNumberBreaks(m: Message, name: string, remove: ProtoOp, add: ProtoOp)
    requires Sound(m) && FindField(m.field, name).Some?
    requires var f := m.field[FindField(m.field, name).value];
             && f.number == Some(I32_MAX)
             && remove == RemoveField("", name) && add == AddField("", name, "", OtherType(f), 0x7FFF_FFFF, "")
    ensures GentleRun(m, [remove, add]) && EditAll(m, [remove, add]).Success?
    ensures !Compatible(m, EditAll(m, [remove, add]).value, Backward)
  {
    var at := FindField(m.field, name).value;
    var gone := RemoveFieldFrom(m, remove).value;
    RemoveKeepsSound(m, remove);
    ReuseExactlyAtMax(m, remove, add);
    AddKeepsSound(gone, add);
    TwoEdits(m, remove, add);
    ReaddedBreaks(m, at, AddFieldTo(gone, add).value, |gone.field|);
  }

  lemma ReaddedBreaks(m: Message, at: nat, n: Message, last: nat)
    requires Sound(m) && Sound(n) && at < |m.field| && last < |n.field|
    requires m.field[at].number.Some? && n.field[last].number == m.field[at].number
    requires (n.field[last].fieldType, n.field[last].typeName) == ResolveType(OtherType(m.field[at]))
    ensures !Compatible(m, n, Backward)
  {
    ByNumberAt(m, at);
    ByNumberAt(n, last);
    OtherTypeBreaks(m.field[at], n.field[last]);
    assert Violates(ByNumber(m.field), ByNumber(n.field), Backward, TypeChanged(m.field[at].number.value));
  }

  function BareField(name: string, number: i32, typeName: Option<string>): Field {
    Field(Some(name), Some(number), None, None, typeName, None, None, None, None, None, None, None)
  }

  /** Two fields of one name: the reordering is accepted and keeps one of them. */
  lemma ReorderLosesAField()
    ensures var m := EmptyMessage.(field := [BareField("a", 1, None), BareField("a", 2, None)]);
            ReorderFieldsIn(m, ReorderFields("M", ["a"])).Success?
            && multiset(ReorderFieldsIn(m, ReorderFields("M", ["a"])).value.field) != multiset(m.field)
  {
    var m := EmptyMessage.(field := [BareField("a", 1, None), BareField("a", 2, None)]);
    assert m.field[0] in m.field;
    assert FieldNames(m.field) == {"a"} && Elements(["a"]) == {"a"};
    assert m.field[0].name == m.field[1].name;
    ReorderPermutesExactly(m, ReorderFields("M", ["a"]));
  }

  /** A field of an unresolved qualified type, changed to the type it has: accepted, then refused by the checker. */
  lemma DottedChangeIsRefused()
    ensures var m := EmptyMessage.(field := [BareField("a", 1, Some("p.T"))]);
            var op := ChangeFieldType("M", "a", "p.T");
            ChangeFieldTypeIn(m, op).Success? && !Compatible(m, ChangeFieldTypeIn(m, op).value, Backward)
  {
    var m := EmptyMessage.(field := [BareField("a", 1, Some("p.T"))]);
    var op := ChangeFieldType("M", "a", "p.T");
    assert FindField(m.field, "a") == Some(0);
    assert "p.T"[1] == '.';
    ChangeTypeCompatibleExactly(m, op);
  }
}
