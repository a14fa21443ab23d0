/**
 Unions: which members may join and with which discriminator, the numbering of a union created with its members, and
 when a member keeps being named after its type. Over every run the numbers of an enum or a union stay distinct.
 */
module FlatUnions {
  import opened Wrappers
  import opened Text
  import opened Wire
  import opened FlatOps
  import opened FlatEnumViews

  // ----- members -----

  predicate DeclaresTable(d: Doc, name: string) {
    name in d.decls && d.decls[name].ObjectDecl? && !d.decls[name].obj.isStruct
  }

  predicate DeclaresUnion(d: Doc, name: string) {
    name in d.decls && d.decls[name].EnumDecl? && d.decls[name].enumeration.isUnion
  }

  /** The member is a table, the union has room above its numbers and no member of that name or type. */
  ghost predicate MayJoin(d: Doc, name: string, member: string) {
    && DeclaresTable(d, member) && DeclaresUnion(d, name)
    && forall v :: v in d.decls[name].enumeration.values ==>
         v.name != Some(member) && !ValueRefers(v, member) && v.value != Some(0x7FFF_FFFF_FFFF_FFFF)
  }

  predicate TypedAs(v: EnumVal, member: string) {
    v.name == Some(member) && v.unionType == Some(Type(Some(BTable), None, None, Some(member))) && v.documentation.None?
  }

  /** A discriminator one above the largest in use; the first one of all is 1. */
  ghost predicate NextAbove(vs: seq<EnumVal>, k: i64) {
    && (forall v :: v in vs && v.value.Some? ==> v.value.value < k)
    && ((exists v :: v in vs && v.value.Some? && v.value.value + 1 == k)
        || (k == 1 && forall v :: v in vs ==> v.value.None?))
  }

  lemma MaxExactly(vs: seq<EnumVal>, k: i64)
    requires MaxValue(vs) == Some(k)
    ensures (forall v :: v in vs && v.value.Some? ==> v.value.value <= k) && exists v :: v in vs && v.value == Some(k)
  {
    var i :| 0 <= i < |vs| && vs[i].value == Some(k);
    assert vs[i] in vs;
  }

  lemma JoinsAbove(vs: seq<EnumVal>)
    requires forall v :: v in vs ==> v.value != Some(I64_MAX)
    ensures MaxValue(vs).GetOr(0) < I64_MAX && NextAbove(vs, MaxValue(vs).GetOr(0) + 1)
  {
    match MaxValue(vs)
    case Some(k) => MaxExactly(vs, k);
    case None =>
  }

  lemma FullExactly(vs: seq<EnumVal>)
    ensures MaxValue(vs).GetOr(0) == I64_MAX <==> exists v :: v in vs && v.value == Some(I64_MAX)
  {
    if MaxValue(vs).Some? {
      MaxExactly(vs, MaxValue(vs).value);
    }
  }

  lemma FoundExactly(vs: seq<EnumVal>, member: string)
    ensures FindMember(vs, member).Some? <==> exists v :: v in vs && (v.name == Some(member) || ValueRefers(v, member))
  {}

  lemma JoinsExactly(d: Doc, name: string, member: string)
    ensures AddMemberIn(d, name, member).Success? <==> MayJoin(d, name, member)
  {
    if DeclaresUnion(d, name) {
      FullExactly(d.decls[name].enumeration.values);
      FoundExactly(d.decls[name].enumeration.values, member);
    }
  }

  /** A table joins a union exactly when it may, as the last member, above every discriminator; nothing else changes. */
  lemma AddMemberExactly(d: Doc, name: string, member: string) returns (v: EnumVal)
    requires MayJoin(d, name, member)
    ensures AddMemberIn(d, name, member).Success? && TypedAs(v, member) && v.value.Some?
    ensures NextAbove(d.decls[name].enumeration.values, v.value.value)
    ensures var e := d.decls[name].enumeration;
            AddMemberIn(d, name, member).value == Put(d, name, EnumDecl(e.(values := e.values + [v])))
  {
    JoinsExactly(d, name, member);
    var vs := d.decls[name].enumeration.values;
    JoinsAbove(vs);
    var ty := Type(Some(BTable), None, None, Some(member));
    v := EnumVal(Some(member), Some(MaxValue(vs).GetOr(0) + 1), Some(ty), None);
  }

  // ----- a union created with its members -----

  /** `NONE` is 0 and the members follow, counted from 1. */
  ghost predicate Numbered(vs: seq<EnumVal>, members: seq<string>) {
    && |vs| == 1 + |members| && vs[0] == EnumVal(Some("NONE"), Some(0), None, None)
    && forall i :: 0 <= i < |members| ==> TypedAs(vs[i + 1], members[i]) && vs[i + 1].value == Some(i + 1)
  }

  ghost predicate UnionIs(d: Doc, name: string, members: seq<string>) {
    DeclaresUnion(d, name) && Numbered(d.decls[name].enumeration.values, members)
  }

  lemma NextInLine(vs: seq<EnumVal>, members: seq<string>, k: i64)
    requires Numbered(vs, members) && NextAbove(vs, k)
    ensures k == |members| + 1
  {
    assert vs[|members|] in vs;
    assert vs[0] in vs;
    assert |members| > 0 ==> TypedAs(vs[(|members| - 1) + 1], members[|members| - 1]);
    var v :| v in vs && v.value.Some? && v.value.value + 1 == k;
    var i :| 0 <= i < |vs| && vs[i] == v;
    assert i > 0 ==> TypedAs(vs[(i - 1) + 1], members[i - 1]);
  }

  lemma MemberFollows(d: Doc, name: string, before: seq<string>, member: string)
    requires UnionIs(d, name, before) && AddMemberIn(d, name, member).Success?
    ensures UnionIs(AddMemberIn(d, name, member).value, name, before + [member])
  {
    JoinsExactly(d, name, member);
    var v := AddMemberExactly(d, name, member);
    NextInLine(d.decls[name].enumeration.values, before, v.value.value);
  }

  lemma {:induction false} MembersFollow(d: Doc, name: string, before: seq<string>, members: seq<string>)
    requires UnionIs(d, name, before) && AddMembersIn(d, name, members).Success?
    ensures UnionIs(AddMembersIn(d, name, members).value, name, before + members)
    decreases |members|
  {
    if members == [] {
      assert before + members == before;
    } else {
      MemberFollows(d, name, before, members[0]);
      assert before + members == before + [members[0]] + members[1..];
      MembersFollow(AddMemberIn(d, name, members[0]).value, name, before + [members[0]], members[1..]);
    }
  }

  /** A union created with its members lists `NONE` and then the members, numbered in the order given. */
  lemma CreatedWithMembers(d: Doc, name: string, members: seq<string>, doc: Option<string>, defer: bool)
    requires ApplyOp(d, CreateUnionWithMembers(name, members, doc), defer).Success?
    ensures UnionIs(ApplyOp(d, CreateUnionWithMembers(name, members, doc), defer).value, name, members)
  {
    var created := CreateIn(d, name, NewUnion(name, doc)).value;
    MembersFollow(created, name, [], members);
    assert [] + members == members;
  }

  /** A union created alone has `NONE` only. */
  lemma CreatedAlone(d: Doc, name: string, doc: Option<string>, defer: bool)
    ensures ApplyOp(d, CreateUnion(name, doc), defer).Success? <==> name !in d.decls
    ensures name !in d.decls ==>
              var next := ApplyOp(d, CreateUnion(name, doc), defer).value;
              next.decls - {name} == d.decls && UnionIs(next, name, [])
  {
    if name !in d.decls {
      assert CreateIn(d, name, NewUnion(name, doc)).value.decls - {name} == d.decls;
    }
  }

  // ----- numbers over whole runs -----

  ghost predicate NumbersApart(vs: seq<EnumVal>) {
    forall i, j :: 0 <= i < j < |vs| && vs[i].value.Some? ==> vs[i].value != vs[j].value
  }

  /** The values of every enum and the discriminators of every union are distinct. */
  ghost predicate SoundEnums(d: Doc) {
    forall n :: n in d.decls && d.decls[n].EnumDecl? ==> NumbersApart(d.decls[n].enumeration.values)
  }

  lemma AppendApart(vs: seq<EnumVal>, v: EnumVal)
    requires NumbersApart(vs) && forall i :: 0 <= i < |vs| && vs[i].value.Some? ==> vs[i].value != v.value
    ensures NumbersApart(vs + [v])
  {}

  lemma DropApart(vs: seq<EnumVal>, i: nat)
    requires NumbersApart(vs) && i < |vs|
    ensures NumbersApart(vs[..i] + vs[i + 1..])
  {
    var ws := vs[..i] + vs[i + 1..];
    forall k | 0 <= k < |ws| ensures ws[k] == vs[if k < i then k else k + 1] {}
  }

  lemma {:induction false} WithoutWithin(vs: seq<EnumVal>, value: string)
    ensures forall v :: v in WithoutValue(vs, value) ==> v in vs
  {
    if vs != [] {
      WithoutWithin(vs[1..], value);
    }
  }

  lemma {:induction false} WithoutApart(vs: seq<EnumVal>, value: string)
    requires NumbersApart(vs)
    ensures NumbersApart(WithoutValue(vs, value))
  {
    if vs != [] {
      var rest := WithoutValue(vs[1..], value);
      WithoutApart(vs[1..], value);
      WithoutWithin(vs[1..], value);
      forall j | 0 <= j < |rest| ensures vs[0].value.Some? ==> vs[0].value != rest[j].value {
        assert rest[j] in vs[1..];
      }
    }
  }

  lemma PutSound(d: Doc, name: string, p: Payload)
    requires SoundEnums(d) && (p.EnumDecl? ==> NumbersApart(p.enumeration.values))
    ensures SoundEnums(Put(d, name, p))
  {}

  lemma AddMemberSound(d: Doc, name: string, member: string)
    requires SoundEnums(d) && AddMemberIn(d, name, member).Success?
    ensures SoundEnums(AddMemberIn(d, name, member).value)
  {
    JoinsExactly(d, name, member);
    var v := AddMemberExactly(d, name, member);
    var e := d.decls[name].enumeration;
    AppendApart(e.values, v);
    PutSound(d, name, EnumDecl(e.(values := e.values + [v])));
  }

  lemma {:induction false} AddMembersSound(d: Doc, name: string, members: seq<string>)
    requires SoundEnums(d) && AddMembersIn(d, name, members).Success?
    ensures SoundEnums(AddMembersIn(d, name, members).value)
    decreases |members|
  {
    if members != [] {
      AddMemberSound(d, name, members[0]);
      AddMembersSound(AddMemberIn(d, name, members[0]).value, name, members[1..]);
    }
  }

  lemma RemoveMemberSound(d: Doc, name: string, member: string)
    requires SoundEnums(d) && RemoveMemberIn(d, name, member).Success?
    ensures SoundEnums(RemoveMemberIn(d, name, member).value)
  {
    var vs := d.decls[name].enumeration.values;
    DropApart(vs, FindMember(vs, member).value);
  }

  lemma EditEnumSound(d: Doc, op: FlatOp, defer: bool)
    requires EditsEnum(op) && SoundEnums(d) && EditEnumIn(d, op, defer).Success?
    ensures SoundEnums(EditEnumIn(d, op, defer).value)
  {
    var e := d.decls[op.name].enumeration;
    match op
    case AddEnumValue(_, value, number) => AppendApart(e.values, EnumVal(Some(value), Some(number), None, None));
    case RemoveEnumValue(_, value) => WithoutApart(e.values, value);
    case RenameEnumValue(_, _, _) =>
  }

  lemma RenameSound(d: Doc, kind: Kind, from: string, to: string)
    requires SoundEnums(d) && RenameIn(d, kind, from, to).Success?
    ensures SoundEnums(RenameIn(d, kind, from, to).value)
  {
    if from != to {
      var next, moved := RenameIn(d, kind, from, to).value, Moved(d.decls, from, to);
      forall n | n in next.decls && next.decls[n].EnumDecl? ensures NumbersApart(next.decls[n].enumeration.values) {
        assert next.decls[n] == RenamedPayload(moved[n], from, to);
        assert NumbersApart(moved[n].enumeration.values);
      }
    }
  }

  lemma StepKeepsSound(d: Doc, op: FlatOp, defer: bool)
    requires SoundEnums(d) && ApplyOp(d, op, defer).Success?
    ensures SoundEnums(ApplyOp(d, op, defer).value)
  {
    if EditsTable(op) {
      PutSound(d, op.table, EditTableIn(d, op).value.decls[op.table]);
    } else {
      match op
      case CreateTable(name, doc) => PutSound(d, name, NewTable(name, doc));
      case CreateEnum(name, underlying, doc) => PutSound(d, name, NewEnum(name, underlying, doc));
      case CreateUnion(name, doc) => PutSound(d, name, NewUnion(name, doc));
      case CreateUnionWithMembers(name, members, doc) =>
        PutSound(d, name, NewUnion(name, doc));
        AddMembersSound(CreateIn(d, name, NewUnion(name, doc)).value, name, members);
      case AddUnionMember(name, member) => AddMemberSound(d, name, member);
      case RemoveUnionMember(name, member) => RemoveMemberSound(d, name, member);
      case RenameDecl(kind, from, to) => RenameSound(d, kind, from, to);
      case AddEnumValue(_, _, _) => EditEnumSound(d, op, defer);
      case RemoveEnumValue(_, _) => EditEnumSound(d, op, defer);
      case RenameEnumValue(_, _, _) => EditEnumSound(d, op, defer);
      case _ =>
    }
  }

  /** Every state a run reaches has distinct numbers. */
  lemma {:induction false} RunsStaySound(d: Doc, ops: seq<FlatOp>, defer: bool)
    requires SoundEnums(d)
    ensures Run(d, ops, defer).Success? ==> SoundEnums(Run(d, ops, defer).value)
    decreases |ops|
  {
    if ops != [] && ApplyOp(d, ops[0], defer).Success? {
      StepKeepsSound(d, ops[0], defer);
      RunsStaySound(ApplyOp(d, ops[0], defer).value, ops[1..], defer);
    }
  }

  // ----- members named after their types -----

  /** A member is named after its type. */
  predicate NamedAfterType(v: EnumVal) { NameOfType(v.unionType) == v.name }

  lemma DottedSpelling(n: string, to: string)
    requires !DotFree(n)
    ensures Qualifier(n) + to != to
  {
    SimpleParts(n);
    assert |Qualifier(n) + to| == |Qualifier(n)| + |to|;
  }

  /** Renaming a type keeps a member named after its type exactly when it does not refer to a dotted name. */
  lemma NameFollowsExactly(v: EnumVal, from: string, to: string)
    requires NamedAfterType(v) && v.unionType.Some? && from != to
    ensures NamedAfterType(RenamedMember(v, from, to)) <==> !ValueRefers(v, from) || DotFree(v.name.value)
  {
    if ValueRefers(v, from) {
      var n := v.name.value;
      SimpleParts(n);
      if DotFree(n) {
        assert Qualifier(n) == "" && n == from;
        assert Qualifier(n) + to == to;
      } else if n == from {
        DottedSpelling(n, to);
      } else {
        assert n[|Qualifier(n)|..] == from && (Qualifier(n) + to)[|Qualifier(n)|..] == to;
      }
    }
  }

  /** The member `a.B` of type `a.B`, after `a.B` is renamed to `C`. */
  lemma DottedMemberStrays()
    ensures var v := EnumVal(Some("a.B"), Some(1), Some(Type(Some(BTable), None, None, Some("a.B"))), None);
            var w := RenamedMember(v, "a.B", "C");
            NamedAfterType(v) && w.name == Some("C") && NameOfType(w.unionType) == Some("a.C")
  {
    assert "a.B" == "a." + "B" && "a.C" == "a." + "C";
    QualifiedParts("a.", "B");
  }
}
