/** Renaming a message to a fresh name: the references move with it, and renaming back restores the file. */
module ProtoRename {
  import opened Wrappers
  import opened Text
  import opened NameLists
  import opened Descriptors
  import opened ProtoOps

  /** `to` is a simple name that no declaration, reference or order list of the file uses. */
  ghost predicate Fresh(d: Doc, to: string) {
    && DotFree(to)
    && !Exists(d, to)
    && !Referenced(d, to, None)
    && to !in d.meta.messageOrder
  }

  // ----- one reference -----

  lemma RefSwapped(r: Option<string>, from: string, to: string, t: string)
    requires DotFree(to) && !RefMatches(r, to)
    ensures RefMatches(RenamedRef(r, from, to), Swap(t, from, to)) <==> RefMatches(r, t)
    ensures RenamedRef(RenamedRef(r, from, to), to, from) == r
  {
    if RefMatches(r, from) {
      SimpleParts(r.value);
      QualifiedParts(Qualifier(r.value), to);
    }
  }

  // ----- fields, messages, services -----

  ghost predicate NoneRefers(fs: seq<Field>, target: string) {
    forall i :: 0 <= i < |fs| ==> !FieldReferences(fs[i], target)
  }

  lemma FieldsSwapped(fs: seq<Field>, from: string, to: string, t: string)
    requires DotFree(to) && NoneRefers(fs, to)
    ensures forall i :: 0 <= i < |fs| ==>
              (FieldReferences(RenamedFields(fs, from, to)[i], Swap(t, from, to)) <==> FieldReferences(fs[i], t))
    ensures RenamedFields(RenamedFields(fs, from, to), to, from) == fs
  {
    forall i | 0 <= i < |fs|
      ensures FieldReferences(RenamedFields(fs, from, to)[i], Swap(t, from, to)) <==> FieldReferences(fs[i], t)
      ensures RenamedFields(RenamedFields(fs, from, to), to, from)[i] == fs[i]
    {
      assert !FieldReferences(fs[i], to);
      RefSwapped(fs[i].typeName, from, to, t);
      RefSwapped(fs[i].extendee, from, to, t);
    }
  }

  lemma SomeSwapped(fs: seq<Field>, gs: seq<Field>, t: string, t': string)
    requires |fs| == |gs| && forall i :: 0 <= i < |fs| ==> (FieldReferences(gs[i], t') <==> FieldReferences(fs[i], t))
    ensures (exists i :: 0 <= i < |gs| && FieldReferences(gs[i], t')) <==>
            (exists i :: 0 <= i < |fs| && FieldReferences(fs[i], t))
  {}

  lemma {:induction false} MessageSwapped(m: Message, from: string, to: string, t: string)
    requires DotFree(to) && !MessageReferences(m, to)
    ensures MessageReferences(RenamedRefs(m, from, to), Swap(t, from, to)) <==> MessageReferences(m, t)
    ensures RenamedRefs(RenamedRefs(m, from, to), to, from) == m
    decreases m, 1
  {
    var n, t' := RenamedRefs(m, from, to), Swap(t, from, to);
    FieldsSwapped(m.field, from, to, t);
    SomeSwapped(m.field, n.field, t, t');
    FieldsSwapped(m.extension, from, to, t);
    SomeSwapped(m.extension, n.extension, t, t');
    NestedSwapped(m.nestedType, from, to, t);
  }

  lemma {:induction false} NestedSwapped(ms: seq<Message>, from: string, to: string, t: string)
    requires DotFree(to) && !NestedReferences(ms, to)
    ensures NestedReferences(RenamedNested(ms, from, to), Swap(t, from, to)) <==> NestedReferences(ms, t)
    ensures RenamedNested(RenamedNested(ms, from, to), to, from) == ms
    decreases ms, 0
  {
    if ms != [] {
      MessageSwapped(ms[0], from, to, t);
      NestedSwapped(ms[1..], from, to, t);
      assert RenamedNested(ms, from, to)[1..] == RenamedNested(ms[1..], from, to);
    }
  }

  lemma ServiceSwapped(s: Service, from: string, to: string, t: string)
    requires DotFree(to) && !ServiceReferences(s, to)
    ensures ServiceReferences(RenamedService(s, from, to), Swap(t, from, to)) <==> ServiceReferences(s, t)
    ensures RenamedService(RenamedService(s, from, to), to, from) == s
  {
    var n, t' := RenamedService(s, from, to), Swap(t, from, to);
    forall i | 0 <= i < |s.rpcs|
      ensures MethodReferences(n.rpcs[i], t') <==> MethodReferences(s.rpcs[i], t)
      ensures RenamedService(n, to, from).rpcs[i] == s.rpcs[i]
    {
      assert !MethodReferences(s.rpcs[i], to);
      RefSwapped(s.rpcs[i].inputType, from, to, t);
      RefSwapped(s.rpcs[i].outputType, from, to, t);
    }
    assert RenamedService(n, to, from).rpcs == s.rpcs;
    if i :| 0 <= i < |n.rpcs| && MethodReferences(n.rpcs[i], t') {
      assert MethodReferences(s.rpcs[i], t);
    }
    if i :| 0 <= i < |s.rpcs| && MethodReferences(s.rpcs[i], t) {
      assert MethodReferences(n.rpcs[i], t');
    }
  }

  // ----- the file -----

  /** What the rename theorems ask of the file; a loaded file names each message as it is stored. */
  ghost predicate Renamable(d: Doc, from: string, to: string) {
    && KindsApart(d)
    && from in d.messages && d.messages[from].name == Some(from)
    && Fresh(d, to)
  }

  lemma UnreferencedInMessage(d: Doc, n: string, target: string)
    requires !Referenced(d, target, None)
    ensures n in d.messages ==> !MessageReferences(d.messages[n], target)
    ensures n in d.services ==> !ServiceReferences(d.services[n], target)
    ensures NoneRefers(d.meta.extension, target)
  {}

  /** The references relation after the rename is the one before it with the two names exchanged. */
  lemma RenameMovesReferences(d: Doc, from: string, to: string, n: string, t: string)
    requires Renamable(d, from, to)
    ensures RenameMessageIn(d, from, to).Success?
    ensures var next, t' := RenameMessageIn(d, from, to).value, Swap(t, from, to);
            && (n in d.messages ==>
                  && Swap(n, from, to) in next.messages
                  && (MessageReferences(next.messages[Swap(n, from, to)], t') <==> MessageReferences(d.messages[n], t)))
            && (n in d.services ==>
                  && n in next.services
                  && (ServiceReferences(next.services[n], t') <==> ServiceReferences(d.services[n], t)))
            && ((exists i :: 0 <= i < |next.meta.extension| && FieldReferences(next.meta.extension[i], t'))
                <==> (exists i :: 0 <= i < |d.meta.extension| && FieldReferences(d.meta.extension[i], t)))
  {
    var next := RenameMessageIn(d, from, to).value;
    UnreferencedInMessage(d, n, to);
    if n in d.messages {
      var m := if n == from then d.messages[n].(name := Some(to)) else d.messages[n];
      assert forall k :: MessageReferences(m, k) <==> MessageReferences(d.messages[n], k);
      MessageSwapped(m, from, to, t);
    }
    if n in d.services {
      ServiceSwapped(d.services[n], from, to, t);
    }
    FieldsSwapped(d.meta.extension, from, to, t);
    SomeSwapped(d.meta.extension, next.meta.extension, t, Swap(t, from, to));
  }

  lemma RestoredMessage(d: Doc, from: string, to: string, n: string)
    requires Renamable(d, from, to) && from != to && n in d.messages
    ensures RenameMessageIn(d, from, to).Success?
    ensures RenameMessageIn(RenameMessageIn(d, from, to).value, to, from).Success?
    ensures var back := RenameMessageIn(RenameMessageIn(d, from, to).value, to, from).value;
            n in back.messages && back.messages[n] == d.messages[n]
  {
    UnreferencedInMessage(d, n, to);
    MessageSwapped(d.messages[n], from, to, to);
    if n == from {
      NameIsNoReference(d.messages[n], Some(to), from, to);
      NameIsNoReference(RenamedRefs(d.messages[n], from, to).(name := Some(to)), Some(from), to, from);
    }
  }

  lemma NameIsNoReference(m: Message, name: Option<string>, from: string, to: string)
    ensures RenamedRefs(m.(name := name), from, to) == RenamedRefs(m, from, to).(name := name)
  {}

  lemma RestoredServices(d: Doc, from: string, to: string)
    requires Fresh(d, to)
    ensures RenamedServices(RenamedServices(d.services, from, to), to, from) == d.services
  {
    forall n | n in d.services
      ensures RenamedService(RenamedService(d.services[n], from, to), to, from) == d.services[n]
    {
      UnreferencedInMessage(d, n, to);
      ServiceSwapped(d.services[n], from, to, to);
    }
  }

  lemma RestoredMeta(d: Doc, from: string, to: string)
    requires Fresh(d, to)
    ensures RenamedMeta(RenamedMeta(d.meta, from, to), to, from) == d.meta
  {
    UnreferencedInMessage(d, from, to);
    FieldsSwapped(d.meta.extension, from, to, to);
    OrderRestored(d.meta.messageOrder, from, to);
  }

  lemma RestoredMessages(d: Doc, from: string, to: string)
    requires Renamable(d, from, to) && from != to
    ensures RenameMessageIn(d, from, to).Success?
    ensures RenameMessageIn(RenameMessageIn(d, from, to).value, to, from).Success?
    ensures RenameMessageIn(RenameMessageIn(d, from, to).value, to, from).value.messages == d.messages
  {
    var back := RenameMessageIn(RenameMessageIn(d, from, to).value, to, from).value;
    forall n | n in d.messages ensures n in back.messages && back.messages[n] == d.messages[n] {
      RestoredMessage(d, from, to, n);
    }
    assert back.messages.Keys == d.messages.Keys;
  }

  /** Renaming to a fresh name and back restores every declaration and the metadata. */
  lemma RenameBackRestores(d: Doc, from: string, to: string)
    requires Renamable(d, from, to) && from != to
    ensures RenameMessageIn(d, from, to).Success?
    ensures RenameMessageIn(RenameMessageIn(d, from, to).value, to, from) == Success(d)
  {
    RestoredMessages(d, from, to);
    RestoredServices(d, from, to);
    RestoredMeta(d, from, to);
  }
}
