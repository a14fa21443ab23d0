/**
 Renaming a FlatBuffers declaration to a fresh name: the references move with it, and renaming back restores the file
 exactly when no reference spells out a dotted old name in full.
 */
module FlatRename {
  import opened Wrappers
  import opened Text
  import opened NameLists
  import opened Effects
  import opened FlatOps

  // ----- one reference -----

  /** Renaming a reference back restores it unless it spelled out a dotted name in full. */
  lemma NameBack(r: Option<string>, from: string, to: string)
    requires DotFree(to) && !Matches(r, to)
    ensures RenamedName(RenamedName(r, from, to), to, from) == r <==> DotFree(from) || r != Some(from)
  {
    if Matches(r, from) {
      SimpleParts(r.value);
      QualifiedParts(Qualifier(r.value), to);
      var back := Qualifier(r.value) + from;
      assert RenamedName(RenamedName(r, from, to), to, from) == Some(back);
      if Simple(r.value) != from {
        assert r.value == from;
        assert !DotFree(from) && |Qualifier(from)| > 0 by { DottedQualifier(from); }
        assert |back| > |from|;
      }
    }
  }

  lemma DottedQualifier(s: string)
    requires Simple(s) != s
    ensures !DotFree(s) && |Qualifier(s)| > 0
  {}

  /** What a rename makes of a spelled-out reference. */
  function Respelled(r: string, from: string, to: string): string {
    if TypeNameMatches(r, from) then Qualifier(r) + to else r
  }

  /** The rename takes the name `t` away from the reference `r`, or gives it to it. */
  predicate Strays(r: string, from: string, to: string, t: string) {
    && TypeNameMatches(r, from) && t != from && t != to
    && (TypeNameMatches(r, t) || t == Qualifier(r) + to)
  }

  /** A reference matches a name before exactly when it matches the exchanged name after, unless the name strays. */
  lemma NameSwapped(r: string, from: string, to: string, t: string)
    requires DotFree(to) && !TypeNameMatches(r, to)
    ensures (TypeNameMatches(Respelled(r, from, to), Swap(t, from, to)) <==> TypeNameMatches(r, t)) <==>
            !Strays(r, from, to, t)
    ensures TypeNameMatches(r, from) && t != from && t != to ==>
              (TypeNameMatches(Respelled(r, from, to), t) <==> t == Qualifier(r) + to)
  {
    SimpleParts(r);
    QualifiedParts(Qualifier(r), to);
    QualifierHasDot(Qualifier(r), to);
  }

  lemma QualifierHasDot(q: string, to: string)
    requires IsQualifier(q)
    ensures DotFree(q + to) ==> q == ""
  {
    if q != "" {
      assert (q + to)[|q| - 1] == '.';
    }
  }

  // ----- the references of one place -----

  /** Some reference has this name and is left alone. */
  ghost predicate Stays(refs: iset<string>, from: string, t: string) {
    exists r :: r in refs && TypeNameMatches(r, t) && !TypeNameMatches(r, from)
  }

  /** Some reference with this name is rewritten. */
  ghost predicate Leaves(refs: iset<string>, from: string, t: string) {
    exists r :: r in refs && TypeNameMatches(r, t) && TypeNameMatches(r, from)
  }

  /** Some reference is rewritten to this name. */
  ghost predicate Arrives(refs: iset<string>, from: string, to: string, t: string) {
    exists r :: r in refs && TypeNameMatches(r, from) && t == Qualifier(r) + to
  }

  ghost predicate Refer(refs: iset<string>, t: string) {
    exists r :: r in refs && TypeNameMatches(r, t)
  }

  ghost function AllRespelled(refs: iset<string>, from: string, to: string): iset<string> {
    iset r | r in refs :: Respelled(r, from, to)
  }

  /** When these references refer to the exchanged name afterwards exactly if they referred to the name before. */
  ghost predicate CarriesOver(refs: iset<string>, from: string, to: string, t: string) {
    t == from || t == to || Stays(refs, from, t) || (Leaves(refs, from, t) <==> Arrives(refs, from, to, t))
  }

  lemma RespelledRefer(refs: iset<string>, from: string, to: string, t: string)
    ensures Refer(AllRespelled(refs, from, to), t) <==>
            exists r :: r in refs && TypeNameMatches(Respelled(r, from, to), t)
  {
    if r :| r in refs && TypeNameMatches(Respelled(r, from, to), t) {
      assert Respelled(r, from, to) in AllRespelled(refs, from, to);
    }
  }

  lemma ReferencesSwapped(refs: iset<string>, from: string, to: string, t: string)
    requires DotFree(to) && !Refer(refs, to)
    ensures (Refer(AllRespelled(refs, from, to), Swap(t, from, to)) <==> Refer(refs, t)) <==>
            CarriesOver(refs, from, to, t)
  {
    RespelledRefer(refs, from, to, Swap(t, from, to));
    forall r | r in refs
      ensures (TypeNameMatches(Respelled(r, from, to), Swap(t, from, to)) <==> TypeNameMatches(r, t)) <==>
              !Strays(r, from, to, t)
      ensures TypeNameMatches(r, from) && t != from && t != to ==>
                (TypeNameMatches(Respelled(r, from, to), t) <==> t == Qualifier(r) + to)
    {
      NameSwapped(r, from, to, t);
    }
  }

  /** Among simple names everything carries over. */
  lemma SimpleNamesCarryOver(refs: iset<string>, from: string, to: string, t: string)
    requires DotFree(from) && DotFree(to) && DotFree(t)
    ensures CarriesOver(refs, from, to, t)
  {
    forall r | r in refs && TypeNameMatches(r, from) && t != from && t != to
      ensures !TypeNameMatches(r, t) && t != Qualifier(r) + to
    {
      SimpleParts(r);
      QualifierHasDot(Qualifier(r), to);
    }
  }

  /** No reference to the renamed name is written with a qualifier. */
  ghost predicate Unqualified(refs: iset<string>, from: string) {
    forall r :: r in refs && TypeNameMatches(r, from) ==> DotFree(r)
  }

  lemma UnqualifiedCarryOver(refs: iset<string>, from: string, to: string, t: string)
    requires Unqualified(refs, from)
    ensures CarriesOver(refs, from, to, t)
  {
    forall r | r in refs && TypeNameMatches(r, from) ensures r == from && Qualifier(r) + to == to {
      SimpleParts(r);
      assert Qualifier(r) == "";
    }
  }

  /** A qualified reference takes a name that nothing had. */
  lemma QualifiedArrives(refs: iset<string>, from: string, to: string, a: string, t: string)
    requires DotFree(to) && !Refer(refs, to) && a in refs && TypeNameMatches(a, from) && !DotFree(a)
    requires t == Qualifier(a) + to
    ensures !CarriesOver(refs, from, to, t)
  {
    SimpleParts(a);
    QualifiedParts(Qualifier(a), to);
    QualifierHasDot(Qualifier(a), to);
    assert |Qualifier(a)| > 0;
    forall r | r in refs ensures !TypeNameMatches(r, t) {
      SimpleParts(r);
    }
    assert Arrives(refs, from, to, t);
  }

  /** Every name carries over exactly when no reference to the renamed name has a qualifier. */
  lemma AllCarryOver(refs: iset<string>, from: string, to: string)
    requires DotFree(to) && !Refer(refs, to)
    ensures (forall t :: CarriesOver(refs, from, to, t)) <==> Unqualified(refs, from)
  {
    if Unqualified(refs, from) {
      forall t ensures CarriesOver(refs, from, to, t) {
        UnqualifiedCarryOver(refs, from, to, t);
      }
    } else {
      var r :| r in refs && TypeNameMatches(r, from) && !DotFree(r);
      QualifiedArrives(refs, from, to, r, Qualifier(r) + to);
    }
  }

  // ----- payloads -----

  /** Some reference of the declaration is `name`, letter for letter. */
  ghost predicate SpellsOut(p: Payload, name: string) {
    match p
    case ObjectDecl(o) => exists i :: 0 <= i < |o.fields| && NameOfType(o.fields[i].ty) == Some(name)
    case EnumDecl(e) => e.isUnion && exists i :: 0 <= i < |e.values| && NameOfType(e.values[i].unionType) == Some(name)
    case ServiceDecl(s) =>
      exists i ::
        && 0 <= i < |s.calls|
        && (NameOfObject(s.calls[i].request) == Some(name) || NameOfObject(s.calls[i].response) == Some(name))
  }

  /** The declaration neither refers to `name` nor uses it for a union member. */
  ghost predicate Unused(p: Payload, name: string) {
    && !PayloadReferences(p, name)
    && (p.EnumDecl? ==> forall i :: 0 <= i < |p.enumeration.values| ==> p.enumeration.values[i].name != Some(name))
  }

  lemma FieldBack(f: Field, from: string, to: string)
    requires DotFree(to) && !FieldRefers(f, to)
    ensures RenamedFieldRef(RenamedFieldRef(f, from, to), to, from) == f <==>
            DotFree(from) || NameOfType(f.ty) != Some(from)
  {
    NameBack(NameOfType(f.ty), from, to);
  }

  lemma MemberBack(v: EnumVal, from: string, to: string)
    requires DotFree(to) && !ValueRefers(v, to) && v.name != Some(to)
    ensures RenamedMember(RenamedMember(v, from, to), to, from) == v <==>
            DotFree(from) || NameOfType(v.unionType) != Some(from)
  {
    var r := NameOfType(v.unionType);
    NameBack(r, from, to);
    if Matches(r, from) {
      SimpleParts(r.value);
      QualifiedParts(Qualifier(r.value), to);
    }
  }

  lemma CallBack(c: Call, from: string, to: string)
    requires DotFree(to) && !CallRefers(c, to)
    ensures RenamedCall(RenamedCall(c, from, to), to, from) == c <==>
            DotFree(from) || (NameOfObject(c.request) != Some(from) && NameOfObject(c.response) != Some(from))
  {
    NameBack(NameOfObject(c.request), from, to);
    NameBack(NameOfObject(c.response), from, to);
  }

  function Back(p: Payload, from: string, to: string): Payload {
    RenamedPayload(RenamedPayload(p, from, to), to, from)
  }

  lemma TableBack(p: Payload, from: string, to: string)
    requires p.ObjectDecl? && DotFree(to) && Unused(p, to)
    ensures Back(p, from, to) == p <==> DotFree(from) || !SpellsOut(p, from)
  {
    var fs, gs := p.obj.fields, Back(p, from, to).obj.fields;
    forall i | 0 <= i < |fs| ensures gs[i] == fs[i] <==> DotFree(from) || NameOfType(fs[i].ty) != Some(from) {
      assert !FieldRefers(fs[i], to);
      FieldBack(fs[i], from, to);
    }
    assert gs == fs <==> forall i :: 0 <= i < |fs| ==> gs[i] == fs[i];
  }

  lemma UnionBack(p: Payload, from: string, to: string)
    requires p.EnumDecl? && DotFree(to) && Unused(p, to)
    ensures Back(p, from, to) == p <==> DotFree(from) || !SpellsOut(p, from)
  {
    if p.enumeration.isUnion {
      var vs, ws := p.enumeration.values, Back(p, from, to).enumeration.values;
      forall i | 0 <= i < |vs| ensures ws[i] == vs[i] <==> DotFree(from) || NameOfType(vs[i].unionType) != Some(from) {
        assert !ValueRefers(vs[i], to);
        MemberBack(vs[i], from, to);
      }
      assert ws == vs <==> forall i :: 0 <= i < |vs| ==> ws[i] == vs[i];
    }
  }

  lemma ServiceBack(p: Payload, from: string, to: string)
    requires p.ServiceDecl? && DotFree(to) && Unused(p, to)
    ensures Back(p, from, to) == p <==> DotFree(from) || !SpellsOut(p, from)
  {
    var cs, ds := p.service.calls, Back(p, from, to).service.calls;
    forall i | 0 <= i < |cs|
      ensures ds[i] == cs[i] <==>
              DotFree(from) || (NameOfObject(cs[i].request) != Some(from) && NameOfObject(cs[i].response) != Some(from))
    {
      assert !CallRefers(cs[i], to);
      CallBack(cs[i], from, to);
    }
    assert ds == cs <==> forall i :: 0 <= i < |cs| ==> ds[i] == cs[i];
  }

  lemma PayloadBack(p: Payload, from: string, to: string)
    requires DotFree(to) && Unused(p, to)
    ensures Back(p, from, to) == p <==> DotFree(from) || !SpellsOut(p, from)
  {
    match p
    case ObjectDecl(_) => TableBack(p, from, to);
    case EnumDecl(_) => UnionBack(p, from, to);
    case ServiceDecl(_) => ServiceBack(p, from, to);
  }

  /** The references of a declaration, as they are spelled. */
  ghost function Spelled(p: Payload): iset<string> { iset r | SpellsOut(p, r) }

  lemma ReferencesSpelled(p: Payload, t: string)
    ensures PayloadReferences(p, t) <==> Refer(Spelled(p), t)
  {
    if PayloadReferences(p, t) {
      match p
      case ObjectDecl(o) =>
        var i :| 0 <= i < |o.fields| && FieldRefers(o.fields[i], t);
        assert SpellsOut(p, NameOfType(o.fields[i].ty).value);
      case EnumDecl(e) =>
        var i :| 0 <= i < |e.values| && ValueRefers(e.values[i], t);
        assert SpellsOut(p, NameOfType(e.values[i].unionType).value);
      case ServiceDecl(s) =>
        var i :| 0 <= i < |s.calls| && CallRefers(s.calls[i], t);
        var request := Matches(NameOfObject(s.calls[i].request), t);
        var r := if request then NameOfObject(s.calls[i].request) else NameOfObject(s.calls[i].response);
        assert SpellsOut(p, r.value) && TypeNameMatches(r.value, t);
    }
  }

  /** What a reference spelled out in the declaration becomes is spelled out in the renamed one. */
  lemma SpelledMoves(p: Payload, from: string, to: string, r: string)
    requires SpellsOut(p, r)
    ensures SpellsOut(RenamedPayload(p, from, to), Respelled(r, from, to))
  {
    var q, r' := RenamedPayload(p, from, to), Respelled(r, from, to);
    match p
    case ObjectDecl(o) =>
      var i :| 0 <= i < |o.fields| && NameOfType(o.fields[i].ty) == Some(r);
      assert NameOfType(q.obj.fields[i].ty) == Some(r');
    case EnumDecl(e) =>
      var i :| 0 <= i < |e.values| && NameOfType(e.values[i].unionType) == Some(r);
      assert NameOfType(q.enumeration.values[i].unionType) == Some(r');
    case ServiceDecl(s) =>
      var i :|
        && 0 <= i < |s.calls|
        && (NameOfObject(s.calls[i].request) == Some(r) || NameOfObject(s.calls[i].response) == Some(r));
      assert NameOfObject(q.service.calls[i].request) == Some(r')
        || NameOfObject(q.service.calls[i].response) == Some(r');
  }

  /** Where a reference of the renamed declaration comes from. */
  lemma SpelledComes(p: Payload, from: string, to: string, r': string) returns (r: string)
    requires SpellsOut(RenamedPayload(p, from, to), r')
    ensures SpellsOut(p, r) && r' == Respelled(r, from, to)
  {
    var q := RenamedPayload(p, from, to);
    match p
    case ObjectDecl(o) =>
      var i :| 0 <= i < |o.fields| && NameOfType(q.obj.fields[i].ty) == Some(r');
      r := NameOfType(o.fields[i].ty).value;
    case EnumDecl(e) =>
      var i :| 0 <= i < |e.values| && NameOfType(q.enumeration.values[i].unionType) == Some(r');
      r := NameOfType(e.values[i].unionType).value;
    case ServiceDecl(s) =>
      var i :|
        && 0 <= i < |s.calls|
        && (NameOfObject(q.service.calls[i].request) == Some(r')
            || NameOfObject(q.service.calls[i].response) == Some(r'));
      var c := s.calls[i];
      var request := NameOfObject(q.service.calls[i].request) == Some(r');
      r := if request then NameOfObject(c.request).value else NameOfObject(c.response).value;
  }

  lemma RenamedSpelled(p: Payload, from: string, to: string)
    ensures Spelled(RenamedPayload(p, from, to)) == AllRespelled(Spelled(p), from, to)
  {
    forall r | r in Spelled(p) ensures Respelled(r, from, to) in Spelled(RenamedPayload(p, from, to)) {
      SpelledMoves(p, from, to, r);
    }
    forall r' | r' in Spelled(RenamedPayload(p, from, to)) ensures r' in AllRespelled(Spelled(p), from, to) {
      var r := SpelledComes(p, from, to, r');
    }
  }

  lemma PayloadSwapped(p: Payload, from: string, to: string, t: string)
    requires DotFree(to) && !PayloadReferences(p, to)
    ensures (PayloadReferences(RenamedPayload(p, from, to), Swap(t, from, to)) <==> PayloadReferences(p, t))
            <==> CarriesOver(Spelled(p), from, to, t)
  {
    ReferencesSpelled(p, to);
    ReferencesSpelled(p, t);
    ReferencesSpelled(RenamedPayload(p, from, to), Swap(t, from, to));
    RenamedSpelled(p, from, to);
    ReferencesSwapped(Spelled(p), from, to, t);
  }

  // ----- the file -----

  /** A declaration that can be renamed, stored under its own name, and a simple name the file does not use at all. */
  ghost predicate Renamable(d: Doc, kind: Kind, from: string, to: string) {
    && from in d.decls && KindIs(d.decls[from], kind) && OwnName(d.decls[from]) == Some(from)
    && DotFree(to) && to !in d.decls
    && (forall n :: n in d.decls ==> Unused(d.decls[n], to))
    && !Matches(d.meta.rootType, to) && to !in d.meta.declOrder
  }

  /** Where a declaration goes, and what it is there. */
  lemma RenamedDecl(d: Doc, kind: Kind, from: string, to: string, n: string) returns (p: Payload)
    requires Renamable(d, kind, from, to) && n in d.decls
    ensures RenameIn(d, kind, from, to).Success?
    ensures var next, n' := RenameIn(d, kind, from, to).value, Swap(n, from, to);
            n' in next.decls && next.decls[n'] == RenamedPayload(p, from, to)
    ensures Spelled(p) == Spelled(d.decls[n])
    ensures forall t :: PayloadReferences(p, t) <==> PayloadReferences(d.decls[n], t)
  {
    p := if n == from then Named(d.decls[n], to) else d.decls[n];
  }

  /**
   The references relation is carried over with the two names exchanged, for a declaration and a target, exactly when
   the target carries over; among simple names it always does.
   */
  lemma RenameMovesReferences(d: Doc, kind: Kind, from: string, to: string, n: string, t: string)
    requires Renamable(d, kind, from, to) && n in d.decls
    ensures RenameIn(d, kind, from, to).Success?
    ensures var next, n', t' := RenameIn(d, kind, from, to).value, Swap(n, from, to), Swap(t, from, to);
            && n' in next.decls
            && ((PayloadReferences(next.decls[n'], t') <==> PayloadReferences(d.decls[n], t))
                <==> CarriesOver(Spelled(d.decls[n]), from, to, t))
    ensures DotFree(from) && DotFree(t) ==> CarriesOver(Spelled(d.decls[n]), from, to, t)
  {
    var p := RenamedDecl(d, kind, from, to, n);
    PayloadSwapped(p, from, to, t);
    if DotFree(from) && DotFree(t) {
      SimpleNamesCarryOver(Spelled(p), from, to, t);
    }
  }

  /** The same for the root type. */
  lemma RenameMovesRootType(d: Doc, kind: Kind, from: string, to: string, t: string)
    requires Renamable(d, kind, from, to)
    ensures RenameIn(d, kind, from, to).Success?
    ensures var next := RenameIn(d, kind, from, to).value;
            (Matches(next.meta.rootType, Swap(t, from, to)) <==> Matches(d.meta.rootType, t))
            <==> d.meta.rootType.None? || !Strays(d.meta.rootType.value, from, to, t)
  {
    if d.meta.rootType.Some? {
      NameSwapped(d.meta.rootType.value, from, to, t);
    }
  }

  /**
   A declaration keeps all its references, with the names exchanged, exactly when it never qualifies the renamed name.
   */
  lemma RenameMovesEveryReference(d: Doc, kind: Kind, from: string, to: string, n: string)
    requires Renamable(d, kind, from, to) && n in d.decls
    ensures RenameIn(d, kind, from, to).Success? && Swap(n, from, to) in RenameIn(d, kind, from, to).value.decls
    ensures (forall t :: PayloadReferences(RenameIn(d, kind, from, to).value.decls[Swap(n, from, to)],
                                           Swap(t, from, to))
                         <==> PayloadReferences(d.decls[n], t))
            <==> Unqualified(Spelled(d.decls[n]), from)
  {
    var p := RenamedDecl(d, kind, from, to, n);
    forall t
      ensures (PayloadReferences(RenamedPayload(p, from, to), Swap(t, from, to)) <==> PayloadReferences(d.decls[n], t))
              <==> CarriesOver(Spelled(p), from, to, t)
    {
      PayloadSwapped(p, from, to, t);
    }
    ReferencesSpelled(p, to);
    AllCarryOver(Spelled(p), from, to);
  }

  /** Some reference of the file, its root type included, is `name` letter for letter. */
  ghost predicate FileSpellsOut(d: Doc, name: string) {
    (exists n :: n in d.decls && SpellsOut(d.decls[n], name)) || d.meta.rootType == Some(name)
  }

  /** The file refers to a name exactly when it spells out one, somewhere, that is or ends in it. */
  lemma ReferencedExactly(d: Doc, t: string)
    ensures Referenced(d, t, None) <==> exists r :: FileSpellsOut(d, r) && TypeNameMatches(r, t)
  {
    if n :| n in d.decls && PayloadReferences(d.decls[n], t) {
      ReferencesSpelled(d.decls[n], t);
      var r :| r in Spelled(d.decls[n]) && TypeNameMatches(r, t);
      assert FileSpellsOut(d, r);
    }
    if Matches(d.meta.rootType, t) {
      assert FileSpellsOut(d, d.meta.rootType.value);
    }
    if r :| FileSpellsOut(d, r) && TypeNameMatches(r, t) {
      if n :| n in d.decls && SpellsOut(d.decls[n], r) {
        ReferencesSpelled(d.decls[n], t);
        assert r in Spelled(d.decls[n]);
      }
    }
  }

  function BackAndForth(d: Doc, kind: Kind, from: string, to: string): Result<Doc, MutationError> {
    var next :- RenameIn(d, kind, from, to);
    RenameIn(next, kind, to, from)
  }

  lemma DeclBack(d: Doc, kind: Kind, from: string, to: string, n: string)
    requires Renamable(d, kind, from, to) && n in d.decls
    ensures BackAndForth(d, kind, from, to).Success?
    ensures var back := BackAndForth(d, kind, from, to).value;
            n in back.decls && back.decls[n] == Back(d.decls[n], from, to)
  {}

  lemma MetaBack(d: Doc, from: string, to: string)
    requires DotFree(to) && !Matches(d.meta.rootType, to) && to !in d.meta.declOrder
    ensures RenamedMeta(RenamedMeta(d.meta, from, to), to, from) == d.meta <==>
            DotFree(from) || d.meta.rootType != Some(from)
  {
    NameBack(d.meta.rootType, from, to);
    OrderRestored(d.meta.declOrder, from, to);
  }

  lemma BackKeys(d: Doc, kind: Kind, from: string, to: string)
    requires Renamable(d, kind, from, to)
    ensures BackAndForth(d, kind, from, to).Success?
    ensures BackAndForth(d, kind, from, to).value.decls.Keys == d.decls.Keys
    ensures BackAndForth(d, kind, from, to).value.meta == RenamedMeta(RenamedMeta(d.meta, from, to), to, from)
  {}

  /**
   Renaming to a fresh name and back restores every declaration and the metadata exactly when the old name is simple, or
   nothing in the file spells it out.
   */
  lemma RenameBackRestoresExactly(d: Doc, kind: Kind, from: string, to: string)
    requires Renamable(d, kind, from, to)
    ensures BackAndForth(d, kind, from, to) == Success(d) <==> DotFree(from) || !FileSpellsOut(d, from)
  {
    BackKeys(d, kind, from, to);
    var back := BackAndForth(d, kind, from, to).value;
    MetaBack(d, from, to);
    forall n | n in d.decls ensures back.decls[n] == d.decls[n] <==> DotFree(from) || !SpellsOut(d.decls[n], from) {
      DeclBack(d, kind, from, to, n);
      PayloadBack(d.decls[n], from, to);
    }
    assert back.decls == d.decls <==> forall n :: n in d.decls ==> back.decls[n] == d.decls[n];
  }

  /** A dotted name that is spelled out does not come back. */
  lemma DottedNameNotRestored()
    ensures var f := Field(Some("x"), Some(Type(Some(BTable), None, None, Some("a.B"))), None, None, None, None, false,
                           None, None);
            var d := Schema(map["a.B" := ObjectDecl(Object(Some("a.B"), [f], false, None, None))],
                            FlatMeta(None, [], [], None, None, None, [], []));
            BackAndForth(d, TableKind, "a.B", "C") != Success(d)
  {
    var f := Field(Some("x"), Some(Type(Some(BTable), None, None, Some("a.B"))), None, None, None, None, false, None,
                   None);
    var o := Object(Some("a.B"), [f], false, None, None);
    var d := Schema(map["a.B" := ObjectDecl(o)], FlatMeta(None, [], [], None, None, None, [], []));
    assert "a.B"[1] == '.' && Simple("a.B") == "B";
    assert NameOfType(o.fields[0].ty) == Some("a.B");
    assert SpellsOut(d.decls["a.B"], "a.B");
    RenameBackRestoresExactly(d, TableKind, "a.B", "C");
  }

  /** A qualified reference follows its last segment, and the name it was written with is no longer referred to. */
  lemma QualifiedReferenceStrays()
    ensures var f := Field(Some("x"), Some(Type(Some(BTable), None, None, Some("a.B"))), None, None, None, None, false,
                           None, None);
            var d := Schema(map["B" := ObjectDecl(Object(Some("B"), [], false, None, None)),
                                "T" := ObjectDecl(Object(Some("T"), [f], false, None, None))],
                            FlatMeta(None, [], [], None, None, None, [], []));
            && RenameIn(d, TableKind, "B", "C").Success?
            && PayloadReferences(d.decls["T"], "a.B")
            && "T" in RenameIn(d, TableKind, "B", "C").value.decls
            && !PayloadReferences(RenameIn(d, TableKind, "B", "C").value.decls["T"], "a.B")
  {
    var f := Field(Some("x"), Some(Type(Some(BTable), None, None, Some("a.B"))), None, None, None, None, false, None,
                   None);
    var o := Object(Some("T"), [f], false, None, None);
    assert "a.B"[1] == '.' && Simple("a.B") == "B" && Qualifier("a.B") == "a.";
    assert FieldRefers(o.fields[0], "a.B");
    assert "a." + "C" == "a.C";
    assert RenamedFieldRef(f, "B", "C").ty.value.name == Some("a.C");
    assert Simple("a.C") == "C";
  }
}
