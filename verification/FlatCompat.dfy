/** Table compatibility by wire slot: a preorder, which every run of the slot-preserving operations respects. */
module FlatCompat {
  import opened Wrappers
  import opened Text
  import opened Wire
  import opened FlatOps

  // ----- spelling of types -----

  function BaseTypeName(b: BaseType): string {
    match b
    case BBool => "bool" case BByte => "byte" case BUByte => "ubyte" case BShort => "short" case BUShort => "ushort"
    case BInt => "int" case BUInt => "uint" case BLong => "long" case BULong => "ulong" case BFloat => "float"
    case BDouble => "double" case BString => "string" case BUType => "uint8" case _ => ""
  }

  function PrintElement(t: Type): string {
    if t.name.Some? then t.name.value else BaseTypeName(t.element.GetOr(BNone))
  }

  function PrintType(t: Type): string {
    match t.base.GetOr(BNone)
    case BVector => "[" + PrintElement(t) + "]"
    case BVector64 => "[" + PrintElement(t) + "]"
    case BArray => "[" + PrintElement(t) + ":" + Decimal(t.fixedLength.GetOr(0)) + "]"
    case BTable => t.name.GetOr("void")
    case BStruct => t.name.GetOr("void")
    case BUnion => t.name.GetOr("void")
    case scalar => if t.name.Some? then t.name.value else BaseTypeName(scalar)
  }

  predicate IsNamedBase(b: Option<BaseType>) { b in {Some(BTable), Some(BStruct), Some(BUnion)} }

  /** Named types are told apart by their names, vectors by their elements, arrays by element and length. */
  lemma SpellingTells(t: Type, u: Type)
    ensures IsNamedBase(t.base) && IsNamedBase(u.base) && t.name.Some? && u.name.Some? ==>
              (PrintType(t) == PrintType(u) <==> t.name == u.name)
    ensures t.base == u.base == Some(BVector) ==> (PrintType(t) == PrintType(u) <==> PrintElement(t) == PrintElement(u))
    ensures t.base == u.base == Some(BArray) && t.fixedLength.Some? && u.fixedLength.Some? ==>
              (PrintType(t) == PrintType(u) <==> PrintElement(t) == PrintElement(u) && t.fixedLength == u.fixedLength)
  {
    if t.base == u.base == Some(BVector) {
      Enclosed(PrintElement(t), PrintElement(u));
    }
    if t.base == u.base == Some(BArray) && t.fixedLength.Some? && u.fixedLength.Some? {
      ArraySpelling(PrintElement(t), t.fixedLength.value, PrintElement(u), u.fixedLength.value);
    }
  }

  lemma Enclosed(a: string, b: string)
    ensures "[" + a + "]" == "[" + b + "]" <==> a == b
  {
    assert ("[" + a + "]")[1..|a| + 1] == a && ("[" + b + "]")[1..|b| + 1] == b;
  }

  lemma ArraySpelling(a: string, m: nat, b: string, n: nat)
    ensures "[" + a + ":" + Decimal(m) + "]" == "[" + b + ":" + Decimal(n) + "]" <==> a == b && m == n
  {
    var s, t := a + ":" + Decimal(m), b + ":" + Decimal(n);
    assert "[" + a + ":" + Decimal(m) + "]" == "[" + s + "]" && "[" + b + ":" + Decimal(n) + "]" == "[" + t + "]";
    Enclosed(s, t);
    LastColon(a, m);
    LastColon(b, n);
    if s == t {
      DecimalInjective(m, n);
    }
  }

  lemma LastColon(a: string, m: nat)
    ensures var s := a + ":" + Decimal(m);
            LastIndex(s, ':') == |a| && s[..|a|] == a && s[|a| + 1..] == Decimal(m)
  {
    var s := a + ":" + Decimal(m);
    DecimalDigits(m);
    forall i | |a| < i < |s| ensures s[i] != ':' {
      assert s[i] == Decimal(m)[i - |a| - 1];
    }
    assert s[|a|] == ':';
  }

  function Spelling(f: Field): string {
    if f.ty.Some? then PrintType(f.ty.value) else ""
  }

  lemma {:induction false} TrimEndKeepsHead(s: string)
    requires s != "" && !IsWhitespace(s[0])
    ensures TrimEnd(s) != "" && TrimEnd(s)[0] == s[0]
  {
    if IsWhitespace(s[|s| - 1]) {
      TrimEndKeepsHead(s[..|s| - 1]);
    }
  }

  /** A trimmed spelling stays as it is. */
  lemma TrimFixed(s: string)
    ensures Trim(Trim(s)) == Trim(s)
  {
    var t := TrimStart(s);
    if t != "" {
      TrimEndKeepsHead(t);
    }
  }

  predicate IsScalar(b: BaseType) {
    b in {BBool, BByte, BUByte, BShort, BUShort, BInt, BUInt, BLong, BULong, BFloat, BDouble, BString}
  }

  lemma LookedUpIsScalar(name: string)
    ensures LookupScalar(name).Some? ==> IsScalar(LookupScalar(name).value)
  {}

  lemma ScalarLookup(b: BaseType)
    requires IsScalar(b)
    ensures LookupScalar(BaseTypeName(b)) == Some(b)
  {}

  predicate IsLetter(c: char) { 'a' <= c <= 'z' }

  lemma ScalarEnds(b: BaseType)
    requires IsScalar(b)
    ensures var s := BaseTypeName(b); s != "" && IsLetter(s[0]) && IsLetter(s[|s| - 1])
  {}

  /** The keyword of a scalar is found again. */
  lemma ScalarSpelling(name: string)
    requires LookupScalar(name).Some?
    ensures var b := LookupScalar(name).value;
            && IsScalar(b) && LookupScalar(BaseTypeName(b)) == Some(b)
            && Trim(BaseTypeName(b)) == BaseTypeName(b) && !Bracketed(BaseTypeName(b))
  {
    LookedUpIsScalar(name);
    var b := LookupScalar(name).value;
    ScalarLookup(b);
    ScalarEnds(b);
  }

  predicate Bracketed(s: string) { |s| >= 2 && s[0] == '[' && s[|s| - 1] == ']' }

  /** The spelling of a vector of vectors: brackets directly inside brackets, blanks aside. */
  predicate SpellsNested(spec: string) {
    Bracketed(Trim(spec)) && Bracketed(Trim(Trim(spec)[1..|Trim(spec)| - 1]))
  }

  lemma ScalarPrints(b: BaseType)
    requires IsScalar(b)
    ensures PrintType(Type(Some(b), None, None, None)) == BaseTypeName(b)
  {}

  lemma {:induction false} PlainReadsBack(spec: string)
    requires !Bracketed(Trim(spec))
    ensures ParseTypeSpec(PrintType(ParseTypeSpec(spec))) == ParseTypeSpec(spec)
  {
    var s := Trim(spec);
    if LookupScalar(s).Some? {
      ScalarSpelling(s);
      ScalarPrints(LookupScalar(s).value);
    } else {
      TrimFixed(spec);
      assert PrintType(ParseTypeSpec(spec)) == s;
    }
  }

  lemma {:induction false} VectorsAreBracketed(spec: string)
    ensures ParseTypeSpec(spec).base == Some(BVector) <==> Bracketed(Trim(spec))
  {
    LookedUpIsScalar(Trim(spec));
  }

  lemma {:induction false} VectorParses(p: string)
    ensures ParseTypeSpec("[" + p + "]") == Type(Some(BVector), ParseTypeSpec(p).base, None, ParseTypeSpec(p).name)
  {
    var printed := "[" + p + "]";
    BracketsStay(p);
    assert Bracketed(printed) && printed[1..|printed| - 1] == p;
  }

  /** How the element of a vector is spelled, after the element itself was read from `inner`. */
  function ElementSpelling(inner: string): string {
    PrintElement(Type(Some(BVector), ParseTypeSpec(inner).base, None, ParseTypeSpec(inner).name))
  }

  lemma {:induction false} PlainElementParses(inner: string)
    requires !Bracketed(Trim(inner))
    ensures ParseTypeSpec(ElementSpelling(inner)) == ParseTypeSpec(inner)
  {
    var s := Trim(inner);
    if LookupScalar(s).Some? {
      ScalarSpelling(s);
    } else {
      TrimFixed(inner);
    }
  }

  lemma {:induction false} NestedElementParses(inner: string)
    requires Bracketed(Trim(inner))
    ensures ParseTypeSpec(ElementSpelling(inner)).base != Some(BVector)
  {
    NameIsPlain(inner);
    assert Trim("") == "";
    NotAVector(ElementSpelling(inner));
  }

  lemma {:induction false} VectorReadsBack(inner: string)
    ensures var e := ParseTypeSpec(inner);
            var t := Type(Some(BVector), e.base, None, e.name);
            ParseTypeSpec(PrintType(t)) == t <==> e.base != Some(BVector)
  {
    var e := ParseTypeSpec(inner);
    VectorParses(ElementSpelling(inner));
    VectorsAreBracketed(inner);
    if Bracketed(Trim(inner)) {
      NestedElementParses(inner);
    } else {
      PlainElementParses(inner);
    }
  }

  lemma {:induction false} ParsedVector(spec: string, inner: string)
    requires Bracketed(Trim(spec)) && inner == Trim(spec)[1..|Trim(spec)| - 1]
    ensures ParseTypeSpec(spec) == Type(Some(BVector), ParseTypeSpec(inner).base, None, ParseTypeSpec(inner).name)
  {}

  /** A spelled type reads back as the same type exactly when it is not spelled as a vector of vectors. */
  lemma {:induction false} SpellingReadsBackExactly(spec: string)
    ensures ParseTypeSpec(PrintType(ParseTypeSpec(spec))) == ParseTypeSpec(spec) <==> !SpellsNested(spec)
  {
    var s := Trim(spec);
    if Bracketed(s) {
      ParsedVector(spec, s[1..|s| - 1]);
      VectorReadsBack(s[1..|s| - 1]);
      VectorsAreBracketed(s[1..|s| - 1]);
    } else {
      PlainReadsBack(spec);
    }
  }

  /** A spelling that does not read back. */
  lemma {:induction false} NestedVectorIsLost()
    ensures ParseTypeSpec(PrintType(ParseTypeSpec("[[int]]"))) != ParseTypeSpec("[[int]]")
  {
    assert "[" + "int" + "]" == "[int]" && "[" + "[int]" + "]" == "[[int]]";
    BracketsStay("int");
    BracketsStay("[int]");
    assert "[[int]]"[1..6] == "[int]";
    SpellingReadsBackExactly("[[int]]");
  }

  lemma BracketsStay(s: string)
    ensures Trim("[" + s + "]") == "[" + s + "]"
  {
    var b := "[" + s + "]";
    assert b[0] == '[' && b[|b| - 1] == ']';
  }

  /** The name a spelling leaves behind is trimmed and no vector spelling. */
  lemma {:induction false} NameIsPlain(spec: string)
    ensures var name := ParseTypeSpec(spec).name;
            name.Some? ==> Trim(name.value) == name.value && !Bracketed(name.value)
    decreases |spec|
  {
    var s := Trim(spec);
    if Bracketed(s) {
      NameIsPlain(s[1..|s| - 1]);
    } else {
      TrimFixed(spec);
    }
  }

  lemma {:induction false} NotAVector(s: string)
    requires Trim(s) == s && !Bracketed(s)
    ensures ParseTypeSpec(s).base != Some(BVector)
  {
    LookedUpIsScalar(s);
  }

  // ----- the checker -----

  /** Fields by slot, the last one winning. */
  function BySlot(fs: seq<Field>): map<u32, Field> {
    if fs == [] then map[]
    else
      var last := |fs| - 1;
      BySlot(fs[..last])[SlotOf(fs[last], last) := fs[last]]
  }

  datatype Violation = StructChanged | SlotRemoved(slot: u32) | NotAppended(slot: u32) | TypeChanged(slot: u32)

  predicate After(slots: set<u32>, slot: u32) {
    forall k :: k in slots ==> k < slot
  }

  ghost predicate Violates(o: Object, n: Object, v: Violation) {
    if o.isStruct || n.isStruct then v.StructChanged? && (o.fields != n.fields || o.isStruct != n.isStruct)
    else
      var olds, news := BySlot(o.fields), BySlot(n.fields);
      match v
      case StructChanged => false
      case SlotRemoved(k) => k in olds && k !in news
      case NotAppended(k) => k in news && k !in olds && !After(olds.Keys, k)
      case TypeChanged(k) => k in olds && k in news && Spelling(olds[k]) != Spelling(news[k])
  }

  /** The checker has no direction: what it reports breaks all of them. */
  ghost predicate Compatible(o: Object, n: Object) {
    forall v :: !Violates(o, n, v)
  }

  method SlotMap(fs: seq<Field>) returns (bySlot: map<u32, Field>)
    ensures bySlot == BySlot(fs)
  {
    bySlot := map[];
    for i := 0 to |fs|
      invariant bySlot == BySlot(fs[..i])
    {
      assert fs[..i + 1][..i] == fs[..i];
      bySlot := bySlot[SlotOf(fs[i], i) := fs[i]];
    }
    assert fs[..|fs|] == fs;
  }

  /** The largest key, if any. */
  method MaxKey(slots: set<u32>) returns (m: Option<u32>)
    ensures m.None? <==> slots == {}
    ensures m.Some? ==> m.value in slots && forall k :: k in slots ==> k <= m.value
  {
    m := None;
    var todo := slots;
    while todo != {}
      invariant todo <= slots
      invariant m.None? <==> slots == todo
      invariant m.Some? ==> m.value in slots && forall k :: k in slots && k !in todo ==> k <= m.value
      decreases todo
    {
      var slot :| slot in todo;
      if m.None? || m.value < slot {
        m := Some(slot);
      }
      todo := todo - {slot};
    }
  }

  method RemovedSlots(olds: map<u32, Field>, news: map<u32, Field>) returns (v: set<Violation>)
    ensures forall x :: x in v <==> x.SlotRemoved? && x.slot in olds && x.slot !in news
  {
    v := {};
    var todo := olds.Keys;
    while todo != {}
      invariant todo <= olds.Keys
      invariant forall x :: x in v <==> x.SlotRemoved? && x.slot in olds && x.slot !in news && x.slot !in todo
      decreases todo
    {
      var slot :| slot in todo;
      if slot !in news {
        v := v + {SlotRemoved(slot)};
      }
      todo := todo - {slot};
    }
  }

  method AddedSlots(olds: map<u32, Field>, news: map<u32, Field>) returns (v: set<Violation>)
    ensures forall x :: x in v <==> x.NotAppended? && x.slot in news && x.slot !in olds && !After(olds.Keys, x.slot)
  {
    v := {};
    var top := MaxKey(olds.Keys);
    assert top.Some? ==> forall k: u32 :: k !in olds ==> (After(olds.Keys, k) <==> k > top.value);
    var todo := news.Keys;
    while todo != {}
      invariant todo <= news.Keys
      invariant forall x :: x in v <==>
                  x.NotAppended? && x.slot in news && x.slot !in olds && !After(olds.Keys, x.slot) && x.slot !in todo
      decreases todo
    {
      var slot :| slot in todo;
      if slot !in olds && top.Some? && slot <= top.value {
        v := v + {NotAppended(slot)};
      }
      todo := todo - {slot};
    }
  }

  method ChangedSlots(olds: map<u32, Field>, news: map<u32, Field>) returns (v: set<Violation>)
    ensures forall x :: x in v <==>
              x.TypeChanged? && x.slot in olds && x.slot in news && Spelling(olds[x.slot]) != Spelling(news[x.slot])
  {
    v := {};
    var todo := news.Keys;
    while todo != {}
      invariant todo <= news.Keys
      invariant forall x :: x in v <==> x.TypeChanged? && x.slot in olds && x.slot in news && x.slot !in todo
                                        && Spelling(olds[x.slot]) != Spelling(news[x.slot])
      decreases todo
    {
      var slot :| slot in todo;
      if slot in olds && Spelling(olds[slot]) != Spelling(news[slot]) {
        v := v + {TypeChanged(slot)};
      }
      todo := todo - {slot};
    }
  }

  /** `check_object_compat`: reports exactly the violations. */
  method CheckObject(o: Object, n: Object) returns (v: set<Violation>)
    ensures forall x :: x in v <==> Violates(o, n, x)
    ensures v == {} <==> Compatible(o, n)
  {
    if o.isStruct || n.isStruct {
      v := if o.fields != n.fields || o.isStruct != n.isStruct then {StructChanged} else {};
    } else {
      var olds := SlotMap(o.fields);
      var news := SlotMap(n.fields);
      var removed := RemovedSlots(olds, news);
      var added := AddedSlots(olds, news);
      var changed := ChangedSlots(olds, news);
      v := removed + added + changed;
    }
  }

  // ----- a preorder -----

  /** Compatibility of tables said directly: slots kept with their types, new ones above all old ones. */
  ghost predicate Extends(olds: map<u32, Field>, news: map<u32, Field>) {
    && (forall k :: k in olds ==> k in news && Spelling(olds[k]) == Spelling(news[k]))
    && (forall k :: k in news && k !in olds ==> After(olds.Keys, k))
  }

  lemma CompatibleMeans(o: Object, n: Object)
    ensures Compatible(o, n) <==>
            if o.isStruct || n.isStruct then o.isStruct && n.isStruct && o.fields == n.fields
            else Extends(BySlot(o.fields), BySlot(n.fields))
  {
    if o.isStruct || n.isStruct {
      assert Violates(o, n, StructChanged) <==> o.fields != n.fields || o.isStruct != n.isStruct;
    } else {
      var olds, news := BySlot(o.fields), BySlot(n.fields);
      if Compatible(o, n) {
        forall k | k in olds ensures k in news && Spelling(olds[k]) == Spelling(news[k]) {
          assert !Violates(o, n, SlotRemoved(k)) && !Violates(o, n, TypeChanged(k));
        }
        forall k | k in news && k !in olds ensures After(olds.Keys, k) {
          assert !Violates(o, n, NotAppended(k));
        }
      }
    }
  }

  lemma CompatibleIsReflexive(o: Object)
    ensures Compatible(o, o)
  {}

  lemma ExtendsIsTransitive(a: map<u32, Field>, b: map<u32, Field>, c: map<u32, Field>)
    requires Extends(a, b) && Extends(b, c)
    ensures Extends(a, c)
  {}

  /** Compatible steps add up, whatever mixture of explicit and positional slots the tables use. */
  lemma CompatibleIsTransitive(a: Object, b: Object, c: Object)
    requires Compatible(a, b) && Compatible(b, c)
    ensures Compatible(a, c)
  {
    CompatibleMeans(a, b);
    CompatibleMeans(b, c);
    CompatibleMeans(a, c);
    if !a.isStruct && !b.isStruct && !c.isStruct {
      ExtendsIsTransitive(BySlot(a.fields), BySlot(b.fields), BySlot(c.fields));
    }
  }

  // ----- runs -----

  lemma {:induction false} SlotsBelowMax(fs: seq<Field>)
    ensures forall k :: k in BySlot(fs) ==> MaxSlot(fs).Some? && k <= MaxSlot(fs).value
    ensures MaxSlot(fs).Some? ==> MaxSlot(fs).value in BySlot(fs)
  {
    if fs != [] {
      SlotsBelowMax(fs[..|fs| - 1]);
    }
  }

  /** Fields with the same slots and types, position by position, make the same table. */
  lemma {:induction false} SameSlots(fs: seq<Field>, gs: seq<Field>)
    requires |fs| == |gs| && forall i :: 0 <= i < |fs| ==> gs[i].id == fs[i].id && gs[i].ty == fs[i].ty
    ensures BySlot(fs).Keys == BySlot(gs).Keys && MaxSlot(fs) == MaxSlot(gs)
    ensures forall k :: k in BySlot(fs) ==> Spelling(BySlot(gs)[k]) == Spelling(BySlot(fs)[k])
  {
    if fs != [] {
      SameSlots(fs[..|fs| - 1], gs[..|fs| - 1]);
    }
  }

  /** An added field lands on the next slot. */
  lemma AddedSlot(o: Object, op: FlatOp)
    requires op.AddField? && EditObject(o, op).Success?
    ensures var n := EditObject(o, op).value;
            !n.isStruct && BySlot(n.fields) == BySlot(o.fields)[NextSlot(o.fields) := NewField(o.fields, op)]
  {}

  /** Writing one slot is an extension when it is above the rest, or in use with the same type. */
  lemma SlotWritten(olds: map<u32, Field>, slot: u32, f: Field)
    ensures Extends(olds, olds[slot := f]) <==>
            if slot in olds then Spelling(olds[slot]) == Spelling(f) else After(olds.Keys, slot)
  {}

  /** The largest slot, -1 for an empty table. */
  function Top(fs: seq<Field>): int {
    if MaxSlot(fs).Some? then MaxSlot(fs).value else -1
  }

  lemma NextSlotFree(fs: seq<Field>)
    ensures Top(fs) < U32 - 1 ==>
              NextSlot(fs) == Top(fs) + 1 && NextSlot(fs) !in BySlot(fs) && After(BySlot(fs).Keys, NextSlot(fs))
    ensures Top(fs) == U32 - 1 ==> NextSlot(fs) == 0 && !After(BySlot(fs).Keys, 0)
  {
    SlotsBelowMax(fs);
  }

  /**
   Adding a field is compatible exactly when the slot counter does not wrap, or wraps onto a slot in use that already
   has the new field's type.
   */
  lemma AddCompatibleExactly(o: Object, op: FlatOp)
    requires op.AddField? && EditObject(o, op).Success?
    ensures Compatible(o, EditObject(o, op).value) <==>
            || Top(o.fields) < U32 - 1
            || (0 in BySlot(o.fields) && Spelling(BySlot(o.fields)[0]) == Spelling(NewField(o.fields, op)))
  {
    AddedSlot(o, op);
    SlotWritten(BySlot(o.fields), NextSlot(o.fields), NewField(o.fields, op));
    NextSlotFree(o.fields);
    CompatibleMeans(o, EditObject(o, op).value);
  }

  predicate KeepsSlots(op: FlatOp) { op.AddField? || op.DeprecateField? || op.RenameField? }

  lemma AddRaisesTop(o: Object, op: FlatOp)
    requires op.AddField? && EditObject(o, op).Success? && Top(o.fields) < U32 - 1
    ensures Top(EditObject(o, op).value.fields) == Top(o.fields) + 1
  {
    NextSlotFree(o.fields);
    TopOfAppended(o.fields, NewField(o.fields, op));
  }

  lemma TopOfAppended(fs: seq<Field>, f: Field)
    ensures var slot := SlotOf(f, |fs|);
            Top(fs + [f]) == if slot > Top(fs) then slot else Top(fs)
  {}

  lemma StepCompatible(o: Object, op: FlatOp)
    requires KeepsSlots(op) && EditObject(o, op).Success? && (op.AddField? ==> Top(o.fields) < U32 - 1)
    ensures Compatible(o, EditObject(o, op).value)
    ensures Top(EditObject(o, op).value.fields) == Top(o.fields) + if op.AddField? then 1 else 0
  {
    if op.AddField? {
      AddCompatibleExactly(o, op);
      AddRaisesTop(o, op);
    } else {
      SameSlots(o.fields, EditObject(o, op).value.fields);
      CompatibleMeans(o, EditObject(o, op).value);
    }
  }

  /** How many fields a run adds. */
  function Added(ops: seq<FlatOp>): nat
    decreases |ops|
  {
    if ops == [] then 0 else (if ops[0].AddField? then 1 else 0) + Added(ops[1..])
  }

  /** Every run of AddField, DeprecateField and RenameField that has slots left is compatible with where it started. */
  lemma {:induction false} RunsAreCompatible(o: Object, ops: seq<FlatOp>)
    requires EditAll(o, ops).Success? && forall i :: 0 <= i < |ops| ==> KeepsSlots(ops[i])
    requires Top(o.fields) + Added(ops) <= U32 - 1
    ensures Compatible(o, EditAll(o, ops).value)
    decreases |ops|
  {
    if ops == [] {
      CompatibleIsReflexive(o);
    } else {
      StepCompatible(o, ops[0]);
      var next := EditObject(o, ops[0]).value;
      RunsAreCompatible(next, ops[1..]);
      CompatibleIsTransitive(o, next, EditAll(o, ops).value);
    }
  }

  /**
   A table whose only field has the last slot: the next field wraps onto slot 0, and the checker refuses the result.
   */
  lemma LastSlotBreaks(o: Object, op: FlatOp)
    requires o == Object(Some("T"), [Field(Some("a"), None, Some(4294967295), None, None, None, false, None, None)],
                         false, None, None)
    requires op == AddField("T", "b", "int", None, None)
    ensures EditObject(o, op).Success? && !Compatible(o, EditObject(o, op).value)
  {
    assert o.fields[..0] == [];
    assert FindField(o.fields, "b") == None;
    assert BySlot(o.fields).Keys == {4294967295};
    AddCompatibleExactly(o, op);
  }
}
