/**
 Splitting a file into one blob per top-level declaration, storing the blobs by name, and
 rebuilding the file in its source order with its comment paths remapped.
 */
module Reassembly {
  import opened Wrappers
  import opened Text
  import opened SortedNames
  import opened Utf8
  import opened Wire
  import opened Descriptors
  import opened DescriptorCodec
  import opened Blob

  datatype FileDescriptor = FileDescriptor(
    name: Option<string>, package: Option<string>, dependency: seq<string>, publicDependency: seq<i32>,
    weakDependency: seq<i32>, optionDependency: seq<string>, messageType: seq<Message>, enumType: seq<Enum>,
    service: seq<Service>, extension: seq<Field>, options: Option<FileOptions>,
    sourceInfo: Option<seq<SourceLocation>>, syntax: Option<string>, edition: Option<string>)

  /** What the version-control layer stores: blobs by declaration name. */
  datatype SchemaObjects = SchemaObjects(meta: Bytes, decls: map<string, Bytes>)

  const FILE_MESSAGE_TYPE := 4
  const FILE_ENUM_TYPE := 5
  const FILE_SERVICE := 6

  function MessageName(m: Message): string { m.name.GetOr("") }
  function EnumName(e: Enum): string { e.name.GetOr("") }
  function ServiceName(s: Service): string { s.name.GetOr("") }

  function DeclName(d: Decl): string {
    match d
    case MessageDecl(m) => MessageName(m)
    case EnumDecl(e) => EnumName(e)
    case ServiceDecl(s) => ServiceName(s)
  }

  // ----- local field kinds -----

  function EnumNamesIn(m: Message): set<string>
    decreases m, 1
  {
    (set e | e in m.enumType && e.name.Some? :: e.name.value) + EnumNamesInAll(m.nestedType)
  }

  function EnumNamesInAll(ms: seq<Message>): set<string>
    decreases ms, 0
  {
    if ms == [] then {} else EnumNamesIn(ms[0]) + EnumNamesInAll(ms[1..])
  }

  function MessageNamesIn(m: Message): set<string>
    decreases m, 1
  {
    (if m.name.Some? then {m.name.value} else {}) + MessageNamesInAll(m.nestedType)
  }

  function MessageNamesInAll(ms: seq<Message>): set<string>
    decreases ms, 0
  {
    if ms == [] then {} else MessageNamesIn(ms[0]) + MessageNamesInAll(ms[1..])
  }

  function ResolveKind(f: Field, enums: set<string>, messages: set<string>): Field {
    if f.fieldType.Some? || f.typeName.None? then f
    else if Simple(f.typeName.value) in enums then f.(fieldType := Some(TEnum))
    else if Simple(f.typeName.value) in messages then f.(fieldType := Some(TMessage))
    else f
  }

  function ResolveFields(fs: seq<Field>, enums: set<string>, messages: set<string>): (r: seq<Field>)
    ensures |r| == |fs|
  {
    seq(|fs|, i requires 0 <= i < |fs| => ResolveKind(fs[i], enums, messages))
  }

  function ResolveMessage(m: Message, enums: set<string>, messages: set<string>): (r: Message)
    ensures r.name == m.name
    decreases m, 1
  {
    m.(field := ResolveFields(m.field, enums, messages), nestedType := ResolveMessages(m.nestedType, enums, messages))
  }

  function ResolveMessages(ms: seq<Message>, enums: set<string>, messages: set<string>): (r: seq<Message>)
    ensures |r| == |ms|
    ensures forall i :: 0 <= i < |ms| ==> r[i].name == ms[i].name
    decreases ms, 0
  {
    if ms == [] then [] else [ResolveMessage(ms[0], enums, messages)] + ResolveMessages(ms[1..], enums, messages)
  }

  function ResolveLocal(file: FileDescriptor): FileDescriptor {
    var enums := (set e | e in file.enumType && e.name.Some? :: e.name.value) + EnumNamesInAll(file.messageType);
    file.(messageType := ResolveMessages(file.messageType, enums, MessageNamesInAll(file.messageType)))
  }

  // ----- what that does to a field, said of the declarations -----

  /** `x` is the message `m` or nested in it, at any depth. */
  ghost predicate Inside(m: Message, x: Message)
    decreases m
  {
    x == m || exists i :: 0 <= i < |m.nestedType| && Inside(m.nestedType[i], x)
  }

  ghost predicate InsideAny(ms: seq<Message>, x: Message) {
    exists i :: 0 <= i < |ms| && Inside(ms[i], x)
  }

  ghost predicate DeclaresMessage(file: FileDescriptor, name: string) {
    exists x :: InsideAny(file.messageType, x) && x.name == Some(name)
  }

  ghost predicate DeclaresEnum(file: FileDescriptor, name: string) {
    || (exists e :: e in file.enumType && e.name == Some(name))
    || (exists x, e :: InsideAny(file.messageType, x) && e in x.enumType && e.name == Some(name))
  }

  /** An open kind is decided by the last segment of the type's name; an enum goes before a message of that name. */
  ghost predicate KindFilled(file: FileDescriptor, f: Field, g: Field) {
    if f.fieldType.Some? || f.typeName.None? then g == f
    else
      exists q, n ::
        && IsQualifier(q) && DotFree(n) && f.typeName.value == q + n
        && (g.fieldType == Some(TEnum) <==> DeclaresEnum(file, n))
        && (g.fieldType == Some(TMessage) <==> !DeclaresEnum(file, n) && DeclaresMessage(file, n))
        && (g.fieldType.None? <==> !DeclaresEnum(file, n) && !DeclaresMessage(file, n))
        && g == f.(fieldType := g.fieldType)
  }

  /** Nothing but the open kinds of fields is different, at any depth. */
  ghost predicate MessageFilled(file: FileDescriptor, m: Message, n: Message)
    decreases m
  {
    && n == m.(field := n.field, nestedType := n.nestedType)
    && |n.field| == |m.field| && (forall i :: 0 <= i < |m.field| ==> KindFilled(file, m.field[i], n.field[i]))
    && |n.nestedType| == |m.nestedType|
    && (forall i :: 0 <= i < |m.nestedType| ==> MessageFilled(file, m.nestedType[i], n.nestedType[i]))
  }

  ghost predicate KindsFilled(file: FileDescriptor, out: FileDescriptor) {
    && out == file.(messageType := out.messageType) && |out.messageType| == |file.messageType|
    && forall i :: 0 <= i < |file.messageType| ==> MessageFilled(file, file.messageType[i], out.messageType[i])
  }

  lemma {:induction false} EnumNamesAre(m: Message, name: string)
    ensures name in EnumNamesIn(m) <==> exists x, e :: Inside(m, x) && e in x.enumType && e.name == Some(name)
    decreases m, 1
  {
    EnumNamesAllAre(m.nestedType, name);
    if name in EnumNamesIn(m) {
      if e :| e in m.enumType && e.name == Some(name) {
        assert Inside(m, m);
      } else {
        var x, e :| InsideAny(m.nestedType, x) && e in x.enumType && e.name == Some(name);
        assert Inside(m, x);
      }
    }
    if x, e :| Inside(m, x) && e in x.enumType && e.name == Some(name) {
      if x != m {
        assert InsideAny(m.nestedType, x);
      }
    }
  }

  lemma {:induction false} EnumNamesAllAre(ms: seq<Message>, name: string)
    ensures name in EnumNamesInAll(ms) <==> exists x, e :: InsideAny(ms, x) && e in x.enumType && e.name == Some(name)
    decreases ms, 0
  {
    if ms != [] {
      EnumNamesAre(ms[0], name);
      EnumNamesAllAre(ms[1..], name);
      forall x ensures InsideAny(ms, x) <==> Inside(ms[0], x) || InsideAny(ms[1..], x) {
        InsideFirst(ms, x);
      }
    }
  }

  lemma InsideFirst(ms: seq<Message>, x: Message)
    requires ms != []
    ensures InsideAny(ms, x) <==> Inside(ms[0], x) || InsideAny(ms[1..], x)
  {
    if i :| 0 <= i < |ms| && Inside(ms[i], x) {
      assert i > 0 ==> Inside(ms[1..][i - 1], x);
    }
    if i :| 0 <= i < |ms[1..]| && Inside(ms[1..][i], x) {
      assert Inside(ms[i + 1], x);
    }
  }

  lemma {:induction false} MessageNamesAre(m: Message, name: string)
    ensures name in MessageNamesIn(m) <==> exists x :: Inside(m, x) && x.name == Some(name)
    decreases m, 1
  {
    MessageNamesAllAre(m.nestedType, name);
    if name in MessageNamesIn(m) {
      if m.name == Some(name) {
        assert Inside(m, m);
      } else {
        var x :| InsideAny(m.nestedType, x) && x.name == Some(name);
        assert Inside(m, x);
      }
    }
    if x :| Inside(m, x) && x.name == Some(name) {
      if x != m {
        assert InsideAny(m.nestedType, x);
      }
    }
  }

  lemma {:induction false} MessageNamesAllAre(ms: seq<Message>, name: string)
    ensures name in MessageNamesInAll(ms) <==> exists x :: InsideAny(ms, x) && x.name == Some(name)
    decreases ms, 0
  {
    if ms != [] {
      MessageNamesAre(ms[0], name);
      MessageNamesAllAre(ms[1..], name);
      forall x ensures InsideAny(ms, x) <==> Inside(ms[0], x) || InsideAny(ms[1..], x) {
        InsideFirst(ms, x);
      }
    }
  }

  /** The sets hold the names the file declares. */
  ghost predicate DeclaredNames(file: FileDescriptor, enums: set<string>, messages: set<string>) {
    && (forall n :: n in enums <==> DeclaresEnum(file, n))
    && (forall n :: n in messages <==> DeclaresMessage(file, n))
  }

  lemma FieldKindFilled(file: FileDescriptor, enums: set<string>, messages: set<string>, f: Field)
    requires DeclaredNames(file, enums, messages)
    ensures KindFilled(file, f, ResolveKind(f, enums, messages))
  {
    if f.typeName.Some? {
      SimpleParts(f.typeName.value);
    }
  }

  lemma {:induction false} MessageKindsFilled(file: FileDescriptor, enums: set<string>, messages: set<string>,
                                              m: Message)
    requires DeclaredNames(file, enums, messages)
    ensures MessageFilled(file, m, ResolveMessage(m, enums, messages))
    decreases m, 1
  {
    var n := ResolveMessage(m, enums, messages);
    forall i | 0 <= i < |m.field| ensures KindFilled(file, m.field[i], n.field[i]) {
      FieldKindFilled(file, enums, messages, m.field[i]);
    }
    MessagesKindsFilled(file, enums, messages, m.nestedType);
  }

  lemma {:induction false} MessagesKindsFilled(file: FileDescriptor, enums: set<string>, messages: set<string>,
                                               ms: seq<Message>)
    requires DeclaredNames(file, enums, messages)
    ensures forall i :: 0 <= i < |ms| ==> MessageFilled(file, ms[i], ResolveMessages(ms, enums, messages)[i])
    decreases ms, 0
  {
    if ms != [] {
      MessageKindsFilled(file, enums, messages, ms[0]);
      MessagesKindsFilled(file, enums, messages, ms[1..]);
      forall i | 0 <= i < |ms| ensures MessageFilled(file, ms[i], ResolveMessages(ms, enums, messages)[i]) {
        if i > 0 {
          assert ms[i] == ms[1..][i - 1];
        }
      }
    }
  }

  /** Before a file is split, every field whose kind is open gets the kind its file decides; nothing else changes. */
  lemma ResolveLocalExactly(file: FileDescriptor)
    ensures KindsFilled(file, ResolveLocal(file))
  {
    var enums := (set e | e in file.enumType && e.name.Some? :: e.name.value) + EnumNamesInAll(file.messageType);
    var messages := MessageNamesInAll(file.messageType);
    forall n ensures n in enums <==> DeclaresEnum(file, n) {
      EnumNamesAllAre(file.messageType, n);
    }
    forall n ensures n in messages <==> DeclaresMessage(file, n) {
      MessageNamesAllAre(file.messageType, n);
    }
    MessagesKindsFilled(file, enums, messages, file.messageType);
  }

  lemma KindFilledOnce(file: FileDescriptor, f: Field, g: Field, h: Field)
    requires KindFilled(file, f, g) && KindFilled(file, f, h)
    ensures g == h
  {
    if f.fieldType.None? && f.typeName.Some? {
      forall q, n | IsQualifier(q) && DotFree(n) && f.typeName.value == q + n ensures n == Simple(f.typeName.value) {
        QualifiedParts(q, n);
      }
    }
  }

  lemma {:induction false} MessageFilledOnce(file: FileDescriptor, m: Message, n: Message, o: Message)
    requires MessageFilled(file, m, n) && MessageFilled(file, m, o)
    ensures n == o
    decreases m
  {
    forall i | 0 <= i < |m.field| ensures n.field[i] == o.field[i] {
      KindFilledOnce(file, m.field[i], n.field[i], o.field[i]);
    }
    forall i | 0 <= i < |m.nestedType| ensures n.nestedType[i] == o.nestedType[i] {
      MessageFilledOnce(file, m.nestedType[i], n.nestedType[i], o.nestedType[i]);
    }
    assert n.field == o.field && n.nestedType == o.nestedType;
  }

  /** So there is one such file. */
  lemma KindsFilledOnce(file: FileDescriptor, out: FileDescriptor)
    requires KindsFilled(file, out)
    ensures out == ResolveLocal(file)
  {
    ResolveLocalExactly(file);
    var resolved := ResolveLocal(file);
    forall i | 0 <= i < |file.messageType| ensures out.messageType[i] == resolved.messageType[i] {
      MessageFilledOnce(file, file.messageType[i], out.messageType[i], resolved.messageType[i]);
    }
    assert out.messageType == resolved.messageType;
  }

  // ----- splitting -----

  function Names<T>(items: seq<T>, name: T -> string): (r: seq<string>)
    ensures |r| == |items|
    ensures forall i :: 0 <= i < |items| ==> r[i] == name(items[i])
  {
    seq(|items|, i requires 0 <= i < |items| => name(items[i]))
  }

  function DeclsOf(file: FileDescriptor): (r: seq<Decl>)
    ensures |r| == |file.messageType| + |file.enumType| + |file.service|
  {
    seq(|file.messageType|, i requires 0 <= i < |file.messageType| => MessageDecl(file.messageType[i]))
    + seq(|file.enumType|, i requires 0 <= i < |file.enumType| => EnumDecl(file.enumType[i]))
    + seq(|file.service|, i requires 0 <= i < |file.service| => ServiceDecl(file.service[i]))
  }

  function MetaOf(file: FileDescriptor): Meta {
    Meta(file.name, file.package, file.dependency, file.publicDependency, file.weakDependency,
         file.optionDependency, file.options, file.syntax, file.edition, file.sourceInfo,
         Names(file.messageType, MessageName), Names(file.enumType, EnumName), Names(file.service, ServiceName),
         file.extension, seq(|file.dependency|, i => ""))
  }

  /** `split_file`: the metadata and the named declarations, in file order, each to become one blob. */
  method SplitFile(source: FileDescriptor) returns (meta: Meta, decls: seq<(string, Decl)>, ghost file: FileDescriptor)
    ensures KindsFilled(source, file) && meta == MetaOf(file) && |decls| == |DeclsOf(file)|
    ensures forall i :: 0 <= i < |decls| ==> decls[i] == (DeclName(DeclsOf(file)[i]), DeclsOf(file)[i])
  {
    var resolved := ResolveLocal(source);
    ResolveLocalExactly(source);
    file := resolved;
    ghost var all := DeclsOf(file);
    ghost var m, e := |file.messageType|, |file.enumType|;
    decls := [];
    for i := 0 to |resolved.messageType|
      invariant |decls| == i
      invariant forall k :: 0 <= k < i ==> decls[k] == (DeclName(all[k]), all[k])
    {
      decls := decls + [(MessageName(resolved.messageType[i]), MessageDecl(resolved.messageType[i]))];
    }
    for i := 0 to |resolved.enumType|
      invariant |decls| == m + i
      invariant forall k :: 0 <= k < m + i ==> decls[k] == (DeclName(all[k]), all[k])
    {
      decls := decls + [(EnumName(resolved.enumType[i]), EnumDecl(resolved.enumType[i]))];
    }
    for i := 0 to |resolved.service|
      invariant |decls| == m + e + i
      invariant forall k :: 0 <= k < m + e + i ==> decls[k] == (DeclName(all[k]), all[k])
    {
      decls := decls + [(ServiceName(resolved.service[i]), ServiceDecl(resolved.service[i]))];
    }
    meta := MetaOf(resolved);
  }

  /** Collecting named blobs into the store: a later blob replaces an earlier one of the same name. */
  function Store(decls: seq<Decl>, encode: Decl -> Bytes): map<string, Bytes> {
    if decls == [] then map[]
    else
      var last := decls[|decls| - 1];
      Store(decls[..|decls| - 1], encode)[DeclName(last) := encode(last)]
  }

  function SplitAndStore(source: FileDescriptor): SchemaObjects {
    var file := ResolveLocal(source);
    SchemaObjects(EncodeMeta(MetaOf(file)), Store(DeclsOf(file), EncodeDecl))
  }

  // ----- restoring declaration order -----

  function ByName<T>(items: seq<T>, name: T -> string): map<string, T> {
    if items == [] then map[]
    else
      var last := items[|items| - 1];
      ByName(items[..|items| - 1], name)[name(last) := last]
  }

  /** The items named by `order`, each taken out of `byName` once. */
  function Pick<T>(order: seq<string>, byName: map<string, T>): seq<T> {
    if order == [] then []
    else if order[0] in byName then [byName[order[0]]] + Pick(order[1..], byName - {order[0]})
    else Pick(order[1..], byName)
  }

  /** The last item of each name that `order` does not mention. */
  function Unlisted<T>(items: seq<T>, order: seq<string>, name: T -> string): seq<T> {
    if items == [] then []
    else
      var rest := Unlisted(items[1..], order, name);
      if name(items[0]) in order || name(items[0]) in Names(items[1..], name) then rest else [items[0]] + rest
  }

  function Reordered<T>(items: seq<T>, order: seq<string>, name: T -> string): seq<T> {
    if order == [] then items
    else Pick(order, ByName(items, name)) + SortByName(Unlisted(items, order, name), name)
  }

  lemma {:induction false} ByNameHolds<T(!new)>(items: seq<T>, name: T -> string)
    ensures forall k :: k in ByName(items, name) ==>
              ByName(items, name)[k] in items && name(ByName(items, name)[k]) == k
    ensures forall x :: x in items ==> name(x) in ByName(items, name)
  {
    if items != [] {
      ByNameHolds(items[..|items| - 1], name);
      assert items == items[..|items| - 1] + [items[|items| - 1]];
    }
  }

  lemma {:induction false} ByNameFront<T(!new)>(items: seq<T>, name: T -> string)
    requires items != []
    ensures ByName(items, name) == map[name(items[0]) := items[0]] + ByName(items[1..], name)
  {
    var last := |items| - 1;
    if last > 0 {
      ByNameFront(items[..last], name);
      assert items[1..][..last - 1] == items[..last][1..];
    }
  }

  /** What `order` leaves behind. */
  ghost predicate Leftover<T(!new)>(byName: map<string, T>, order: seq<string>, name: T -> string, x: T) {
    name(x) in byName && byName[name(x)] == x && name(x) !in order
  }

  lemma NamedMeansIndexed<T(!new)>(items: seq<T>, name: T -> string, key: string)
    ensures key in Names(items, name) <==> key in ByName(items, name)
  {
    ByNameHolds(items, name);
    if key in Names(items, name) {
      var i :| 0 <= i < |items| && name(items[i]) == key;
      assert items[i] in items;
    }
    if key in ByName(items, name) {
      var i :| 0 <= i < |items| && items[i] == ByName(items, name)[key];
      assert Names(items, name)[i] == key;
    }
  }

  lemma LeftoverStep<T(!new)>(items: seq<T>, order: seq<string>, name: T -> string, x: T)
    requires items != []
    ensures var first, rest := items[0], ByName(items[1..], name);
            Leftover(ByName(items, name), order, name, x) <==>
            Leftover(rest, order, name, x) || (x == first && name(first) !in order && name(first) !in rest)
  {
    ByNameFront(items, name);
  }

  lemma {:induction false} UnlistedHolds<T(!new)>(items: seq<T>, order: seq<string>, name: T -> string)
    ensures DistinctNames(Unlisted(items, order, name), name)
    ensures forall x :: x in Unlisted(items, order, name) <==> Leftover(ByName(items, name), order, name, x)
  {
    if items == [] {
    } else {
      var rest := Unlisted(items[1..], order, name);
      UnlistedHolds(items[1..], order, name);
      NamedMeansIndexed(items[1..], name, name(items[0]));
      forall x ensures x in Unlisted(items, order, name) <==> Leftover(ByName(items, name), order, name, x) {
        LeftoverStep(items, order, name, x);
      }
      assert forall i :: 0 <= i < |rest| ==> rest[i] in rest;
    }
  }

  /** The tail of a reordered list: the last item of each name that is not recorded, sorted by name. */
  lemma UnlistedSorted<T(!new)>(items: seq<T>, order: seq<string>, name: T -> string)
    ensures SortedByName(SortByName(Unlisted(items, order, name), name), name)
    ensures forall x :: x in SortByName(Unlisted(items, order, name), name) <==>
            Leftover(ByName(items, name), order, name, x)
  {
    UnlistedHolds(items, order, name);
    SortSorts(Unlisted(items, order, name), name);
  }

  /** Empties a map of named items into a list sorted by name, whatever order the map gives them out in. */
  method SortedRest<T(!new)>(byName: map<string, T>, name: T -> string) returns (rest: seq<T>)
    requires forall k :: k in byName ==> name(byName[k]) == k
    ensures SortedByName(rest, name)
    ensures forall x :: x in rest <==> name(x) in byName && byName[name(x)] == x
  {
    rest := [];
    var left := byName.Keys;
    while left != {}
      invariant left <= byName.Keys && SortedByName(rest, name)
      invariant forall x :: x in rest <==> name(x) in byName && byName[name(x)] == x && name(x) !in left
      decreases left
    {
      var key :| key in left;
      InsertSorts(byName[key], rest, name);
      rest := InsertByName(byName[key], rest, name);
      left := left - {key};
    }
  }

  /** Takes the recorded names out of the map, in order. */
  method TakeListed<T>(order: seq<string>, byName: map<string, T>) returns (out: seq<T>, left: map<string, T>)
    ensures out == Pick(order, byName)
    ensures forall k :: k in left <==> k in byName && k !in order
    ensures forall k :: k in left ==> left[k] == byName[k]
  {
    out, left := [], byName;
    for i := 0 to |order|
      invariant out + Pick(order[i..], left) == Pick(order, byName)
      invariant forall k :: k in left <==> k in byName && k !in order[..i]
      invariant forall k :: k in left ==> left[k] == byName[k]
    {
      assert order[i..][1..] == order[i + 1..] && order[..i + 1] == order[..i] + [order[i]];
      if order[i] in left {
        assert out + ([left[order[i]]] + Pick(order[i + 1..], left - {order[i]}))
            == out + [left[order[i]]] + Pick(order[i + 1..], left - {order[i]});
        out := out + [left[order[i]]];
        left := left - {order[i]};
      }
    }
    assert order[|order|..] == [] && order[..|order|] == order;
  }

  /** `reorder_by_name`: a map by name, emptied in recorded order, then the rest sorted by name. */
  method ReorderByName<T(!new)>(items: seq<T>, order: seq<string>, name: T -> string) returns (out: seq<T>)
    ensures out == Reordered(items, order, name)
  {
    if order == [] {
      return items;
    }
    var byName: map<string, T> := map[];
    for i := 0 to |items|
      invariant byName == ByName(items[..i], name)
    {
      assert items[..i + 1][..i] == items[..i];
      byName := byName[name(items[i]) := items[i]];
    }
    assert items[..|items|] == items;
    ByNameHolds(items, name);
    var left;
    out, left := TakeListed(order, byName);
    var rest := SortedRest(left, name);
    UnlistedSorted(items, order, name);
    SortedUnique(rest, SortByName(Unlisted(items, order, name), name), name);
    out := out + rest;
  }

  // ----- comment paths -----

  /** Name to position in the rebuilt list; the first position wins, and an unnamed item ends the scan. */
  function NewIndex(names: seq<Option<string>>): map<string, i32> {
    NewIndexFrom(names, 0, map[])
  }

  function NewIndexFrom(names: seq<Option<string>>, i: nat, seen: map<string, i32>): map<string, i32>
    requires i <= |names|
    decreases |names| - i
  {
    if i == |names| || names[i].None? then seen
    else NewIndexFrom(names, i + 1, if names[i].value in seen then seen else seen[names[i].value := Wrap32(i)])
  }

  /** Recorded position to rebuilt position, over the first `n` recorded names. */
  function IndexMap(order: seq<string>, n: nat, newIndex: map<string, i32>): map<i32, i32>
    requires n <= |order|
  {
    if n == 0 then map[]
    else
      var m := IndexMap(order, n - 1, newIndex);
      if order[n - 1] in newIndex then m[Wrap32(n - 1) := newIndex[order[n - 1]]] else m
  }

  method BuildIndexMap(order: seq<string>, names: seq<Option<string>>) returns (m: map<i32, i32>)
    ensures m == IndexMap(order, |order|, NewIndex(names))
  {
    var newIndex: map<string, i32> := map[];
    var i := 0;
    while i < |names| && names[i].Some?
      invariant 0 <= i <= |names|
      invariant NewIndexFrom(names, i, newIndex) == NewIndex(names)
    {
      if names[i].value !in newIndex {
        newIndex := newIndex[names[i].value := Wrap32(i)];
      }
      i := i + 1;
    }
    m := map[];
    for old_i := 0 to |order|
      invariant m == IndexMap(order, old_i, newIndex)
    {
      if order[old_i] in newIndex {
        m := m[Wrap32(old_i) := newIndex[order[old_i]]];
      }
    }
  }

  function RemapPath(path: seq<i32>, messages: map<i32, i32>, enums: map<i32, i32>, services: map<i32, i32>): seq<i32> {
    if |path| < 2 then path
    else if path[0] == FILE_MESSAGE_TYPE then (if path[1] in messages then path[1 := messages[path[1]]] else path)
    else if path[0] == FILE_ENUM_TYPE then (if path[1] in enums then path[1 := enums[path[1]]] else path)
    else if path[0] == FILE_SERVICE then (if path[1] in services then path[1 := services[path[1]]] else path)
    else path
  }

  function Remapped(info: seq<SourceLocation>, messages: map<i32, i32>, enums: map<i32, i32>,
                    services: map<i32, i32>): (r: seq<SourceLocation>)
    ensures |r| == |info|
    ensures forall i :: 0 <= i < |info| ==> r[i] == info[i].(path := RemapPath(info[i].path, messages, enums, services))
  {
    seq(|info|, i requires 0 <= i < |info| => info[i].(path := RemapPath(info[i].path, messages, enums, services)))
  }

  /** `remap_source_info`: overwrite the second path entry of every top-level location. */
  method RemapSourceInfo(info: seq<SourceLocation>, messages: map<i32, i32>, enums: map<i32, i32>,
                         services: map<i32, i32>) returns (out: seq<SourceLocation>)
    ensures out == Remapped(info, messages, enums, services)
  {
    out := info;
    for i := 0 to |info|
      invariant |out| == |info|
      invariant forall k :: 0 <= k < i ==> out[k] == Remapped(info, messages, enums, services)[k]
      invariant forall k :: i <= k < |info| ==> out[k] == info[k]
    {
      var path := out[i].path;
      if |path| >= 2 {
        var kind, old_idx := path[0], path[1];
        if kind == FILE_MESSAGE_TYPE || kind == FILE_ENUM_TYPE || kind == FILE_SERVICE {
          var table :=
            if kind == FILE_MESSAGE_TYPE then messages else if kind == FILE_ENUM_TYPE then enums else services;
          if old_idx in table {
            out := out[i := out[i].(path := path[1 := table[old_idx]])];
          }
        }
      }
    }
  }

  // ----- rebuilding -----

  function MessagesIn(ds: seq<Decl>): seq<Message> {
    if ds == [] then []
    else MessagesIn(ds[..|ds| - 1]) + (if ds[|ds| - 1].MessageDecl? then [ds[|ds| - 1].message] else [])
  }

  function EnumsIn(ds: seq<Decl>): seq<Enum> {
    if ds == [] then []
    else EnumsIn(ds[..|ds| - 1]) + (if ds[|ds| - 1].EnumDecl? then [ds[|ds| - 1].enumeration] else [])
  }

  function ServicesIn(ds: seq<Decl>): seq<Service> {
    if ds == [] then []
    else ServicesIn(ds[..|ds| - 1]) + (if ds[|ds| - 1].ServiceDecl? then [ds[|ds| - 1].service] else [])
  }

  function Options<T>(items: seq<T>, name: T -> Option<string>): (r: seq<Option<string>>)
    ensures |r| == |items|
    ensures forall i :: 0 <= i < |items| ==> r[i] == name(items[i])
  {
    seq(|items|, i requires 0 <= i < |items| => name(items[i]))
  }

  function MessageOptionName(m: Message): Option<string> { m.name }
  function EnumOptionName(e: Enum): Option<string> { e.name }
  function ServiceOptionName(s: Service): Option<string> { s.name }

  function AssembleParts(meta: Meta, ms: seq<Message>, es: seq<Enum>, ss: seq<Service>): FileDescriptor {
    var messages := Reordered(ms, meta.messageOrder, MessageName);
    var enums := Reordered(es, meta.enumOrder, EnumName);
    var services := Reordered(ss, meta.serviceOrder, ServiceName);
    var info := if meta.sourceInfo.None? then None else
      Some(Remapped(meta.sourceInfo.value,
                    IndexMap(meta.messageOrder, |meta.messageOrder|, NewIndex(Options(messages, MessageOptionName))),
                    IndexMap(meta.enumOrder, |meta.enumOrder|, NewIndex(Options(enums, EnumOptionName))),
                    IndexMap(meta.serviceOrder, |meta.serviceOrder|, NewIndex(Options(services, ServiceOptionName)))));
    FileDescriptor(meta.name, meta.package, meta.dependency, meta.publicDependency, meta.weakDependency,
                   meta.optionDependency, messages, enums, services, meta.extension, meta.options, info,
                   meta.syntax, meta.edition)
  }

  /** The file for decoded metadata and declarations taken in any order. */
  function Assemble(meta: Meta, ds: seq<Decl>): FileDescriptor {
    AssembleParts(meta, MessagesIn(ds), EnumsIn(ds), ServicesIn(ds))
  }

  function DecodeKeys(keys: seq<string>, store: map<string, Bytes>, decode: Bytes -> Result<Decl, BlobError>)
    : Result<seq<Decl>, BlobError>
    requires forall k :: k in keys ==> k in store
  {
    if keys == [] then Success([])
    else
      var ds :- DecodeKeys(keys[..|keys| - 1], store, decode);
      var d :- decode(store[keys[|keys| - 1]]);
      Success(ds + [d])
  }

  /** `keys` lists the stored names once each: the store's iteration order. */
  ghost predicate Enumerates(keys: seq<string>, store: map<string, Bytes>) {
    && (forall k :: k in keys <==> k in store)
    && forall i, j :: 0 <= i < j < |keys| ==> keys[i] != keys[j]
  }

  function Reassembled(schema: SchemaObjects, keys: seq<string>): Result<FileDescriptor, BlobError>
    requires forall k :: k in keys ==> k in schema.decls
  {
    var meta :- DecodeMeta(schema.meta);
    var ds :- DecodeKeys(keys, schema.decls, DecodeDecl);
    Success(Assemble(meta, ds))
  }

  /** The decoding loop of `reassemble`: sort the decoded payloads by kind. */
  method LoadDecls(keys: seq<string>, store: map<string, Bytes>, decode: Bytes -> Result<Decl, BlobError>)
      returns (r: Result<(seq<Message>, seq<Enum>, seq<Service>), BlobError>)
    requires forall k :: k in keys ==> k in store
    ensures match DecodeKeys(keys, store, decode)
            case Failure(e) => r == Failure(e)
            case Success(ds) => r == Success((MessagesIn(ds), EnumsIn(ds), ServicesIn(ds)))
  {
    var messages: seq<Message>, enums: seq<Enum>, services: seq<Service> := [], [], [];
    ghost var ds: seq<Decl> := [];
    for i := 0 to |keys|
      invariant DecodeKeys(keys[..i], store, decode) == Success(ds)
      invariant messages == MessagesIn(ds) && enums == EnumsIn(ds) && services == ServicesIn(ds)
    {
      assert keys[..i + 1][..i] == keys[..i];
      var payload := decode(store[keys[i]]);
      if payload.Failure? {
        DecodeKeysFails(keys, i + 1, store, decode);
        return Failure(payload.error);
      }
      assert (ds + [payload.value])[..|ds|] == ds;
      match payload.value {
        case MessageDecl(m) => messages := messages + [m];
        case EnumDecl(e) => enums := enums + [e];
        case ServiceDecl(s) => services := services + [s];
      }
      ds := ds + [payload.value];
    }
    assert keys[..|keys|] == keys;
    r := Success((messages, enums, services));
  }

  /** The rest of `reassemble`: restore the recorded order, then rewrite the comment paths. */
  method Rebuild(meta: Meta, ms: seq<Message>, es: seq<Enum>, ss: seq<Service>) returns (file: FileDescriptor)
    ensures file == AssembleParts(meta, ms, es, ss)
  {
    var messages := ReorderByName(ms, meta.messageOrder, MessageName);
    var enums := ReorderByName(es, meta.enumOrder, EnumName);
    var services := ReorderByName(ss, meta.serviceOrder, ServiceName);
    var info := None;
    if meta.sourceInfo.Some? {
      var m := BuildIndexMap(meta.messageOrder, Options(messages, MessageOptionName));
      var e := BuildIndexMap(meta.enumOrder, Options(enums, EnumOptionName));
      var s := BuildIndexMap(meta.serviceOrder, Options(services, ServiceOptionName));
      var remapped := RemapSourceInfo(meta.sourceInfo.value, m, e, s);
      info := Some(remapped);
    }
    file := FileDescriptor(meta.name, meta.package, meta.dependency, meta.publicDependency, meta.weakDependency,
                           meta.optionDependency, messages, enums, services, meta.extension, meta.options, info,
                           meta.syntax, meta.edition);
  }

  method Reassemble(schema: SchemaObjects, keys: seq<string>) returns (r: Result<FileDescriptor, BlobError>)
    requires forall k :: k in keys ==> k in schema.decls
    ensures r == Reassembled(schema, keys)
  {
    var meta :- DecodeMeta(schema.meta);
    var loaded := LoadDecls(keys, schema.decls, DecodeDecl);
    if loaded.Failure? {
      return Failure(loaded.error);
    }
    var file := Rebuild(meta, loaded.value.0, loaded.value.1, loaded.value.2);
    r := Success(file);
  }

  /** The first undecodable blob decides the error. */
  lemma {:induction false} DecodeKeysFails(keys: seq<string>, n: nat, store: map<string, Bytes>,
                                           decode: Bytes -> Result<Decl, BlobError>)
    requires forall k :: k in keys ==> k in store
    requires n <= |keys| && DecodeKeys(keys[..n], store, decode).Failure?
    ensures DecodeKeys(keys, store, decode) == Failure(DecodeKeys(keys[..n], store, decode).error)
    decreases |keys|
  {
    if n < |keys| {
      var init := keys[..|keys| - 1];
      assert init[..n] == keys[..n];
      DecodeKeysFails(init, n, store, decode);
    } else {
      assert keys[..n] == keys;
    }
  }

  // ----- the round trip -----

  lemma {:induction false} PickInOrder<T(!new)>(wanted: seq<T>, byName: map<string, T>, name: T -> string)
    requires DistinctNames(wanted, name)
    requires forall x :: x in wanted ==> name(x) in byName && byName[name(x)] == x
    ensures Pick(Names(wanted, name), byName) == wanted
  {
    if wanted != [] {
      var order := Names(wanted, name);
      var rest := byName - {order[0]};
      assert order[1..] == Names(wanted[1..], name);
      forall x | x in wanted[1..] ensures name(x) in rest && rest[name(x)] == x {
        var i :| 0 <= i < |wanted[1..]| && wanted[1..][i] == x;
        assert name(wanted[0]) != name(wanted[i + 1]);
      }
      PickInOrder(wanted[1..], rest, name);
      assert [wanted[0]] + wanted[1..] == wanted;
    }
  }

  lemma {:induction false} NothingUnlisted<T(!new)>(items: seq<T>, order: seq<string>, name: T -> string)
    requires forall x :: x in items ==> name(x) in order
    ensures Unlisted(items, order, name) == []
  {
    if items != [] {
      NothingUnlisted(items[1..], order, name);
    }
  }

  /** Whatever order the store yields the declarations in, the recorded order is restored exactly. */
  lemma ReorderedRestores<T(!new)>(items: seq<T>, wanted: seq<T>, name: T -> string)
    requires DistinctNames(wanted, name)
    requires forall x :: x in items <==> x in wanted
    ensures Reordered(items, Names(wanted, name), name) == wanted
  {
    var order := Names(wanted, name);
    if order == [] {
      HasMember(items);
    } else {
      ByNameHolds(items, name);
      var byName := ByName(items, name);
      forall x | x in wanted ensures name(x) in byName && byName[name(x)] == x {
        var y := byName[name(x)];
        var i :| 0 <= i < |wanted| && wanted[i] == x;
        var j :| 0 <= j < |wanted| && wanted[j] == y;
        assert i == j;
      }
      PickInOrder(wanted, byName, name);
      forall x | x in items ensures name(x) in order {
        var i :| 0 <= i < |wanted| && wanted[i] == x;
        assert order[i] == name(x);
      }
      NothingUnlisted(items, order, name);
      assert wanted + [] == wanted;
    }
  }

  lemma {:induction false} NewIndexSound(names: seq<Option<string>>, i: nat, seen: map<string, i32>)
    requires i <= |names|
    requires forall k :: k in seen ==> exists j :: 0 <= j < i && names[j] == Some(k) && seen[k] == Wrap32(j)
    ensures forall k :: k in NewIndexFrom(names, i, seen) ==>
              exists j :: 0 <= j < |names| && names[j] == Some(k) && NewIndexFrom(names, i, seen)[k] == Wrap32(j)
    decreases |names| - i
  {
    if i < |names| && names[i].Some? {
      var n := names[i].value;
      var seen' := if n in seen then seen else seen[n := Wrap32(i)];
      forall k | k in seen' ensures exists j :: 0 <= j < i + 1 && names[j] == Some(k) && seen'[k] == Wrap32(j) {
        if k in seen {
          var j :| 0 <= j < i && names[j] == Some(k) && seen[k] == Wrap32(j);
        } else {
          assert names[i] == Some(k);
        }
      }
      NewIndexSound(names, i + 1, seen');
    }
  }

  ghost predicate Identity(m: map<i32, i32>) {
    forall k :: k in m ==> m[k] == k
  }

  /** When the rebuilt list is the recorded one, every position maps to itself. */
  lemma {:induction false} IndexMapIdentity<T(!new)>(wanted: seq<T>, name: T -> string, opt: T -> Option<string>,
                                                     n: nat)
    requires DistinctNames(wanted, name)
    requires forall x :: opt(x).Some? ==> name(x) == opt(x).value
    requires n <= |wanted|
    ensures Identity(IndexMap(Names(wanted, name), n, NewIndex(Options(wanted, opt))))
  {
    if n > 0 {
      IndexMapIdentity(wanted, name, opt, n - 1);
      var order, names := Names(wanted, name), Options(wanted, opt);
      NewIndexSound(names, 0, map[]);
      var index := NewIndex(names);
      if order[n - 1] in index {
        var j :| 0 <= j < |names| && names[j] == Some(order[n - 1]) && index[order[n - 1]] == Wrap32(j);
        assert name(wanted[j]) == name(wanted[n - 1]);
        assert j == n - 1;
      }
    }
  }

  /** Every name up to the first unnamed item is found, and stands where the index says. */
  lemma {:induction false} NewIndexComplete(names: seq<Option<string>>, i: nat, seen: map<string, i32>, k: string)
    requires i <= |names| && forall j :: 0 <= j < |names| ==> names[j].Some?
    requires k in seen || exists j :: i <= j < |names| && names[j] == Some(k)
    ensures k in NewIndexFrom(names, i, seen)
    decreases |names| - i
  {
    if i < |names| {
      var n := names[i].value;
      NewIndexComplete(names, i + 1, if n in seen then seen else seen[n := Wrap32(i)], k);
    }
  }

  lemma {:induction false} IndexMapAt(order: seq<string>, n: nat, newIndex: map<string, i32>, at: nat)
    requires at < n <= |order| <= I32_MAX + 1
    ensures at in IndexMap(order, n, newIndex) <==> order[at] in newIndex
    ensures order[at] in newIndex ==> IndexMap(order, n, newIndex)[at] == newIndex[order[at]]
    decreases n
  {
    if at < n - 1 {
      IndexMapAt(order, n - 1, newIndex, at);
    } else {
      IndexMapBelow(order, n - 1, newIndex);
    }
  }

  lemma {:induction false} IndexMapBelow(order: seq<string>, n: nat, newIndex: map<string, i32>)
    requires n <= |order| <= I32_MAX + 1
    ensures forall k :: k in IndexMap(order, n, newIndex) ==> 0 <= k < n
    decreases n
  {
    if n > 0 {
      IndexMapBelow(order, n - 1, newIndex);
    }
  }

  /** A recorded position is sent to an item of the name recorded there, and only if there is one. */
  ghost predicate Sends(order: seq<string>, names: seq<Option<string>>, from: int, to: int) {
    if 0 <= from < |order| && Some(order[from]) in names then 0 <= to < |names| && names[to] == Some(order[from])
    else to == from
  }

  lemma IndexSends(order: seq<string>, names: seq<Option<string>>, from: i32)
    requires |order| <= I32_MAX + 1 && |names| <= I32_MAX + 1
    requires forall j :: 0 <= j < |names| ==> names[j].Some?
    ensures var m := IndexMap(order, |order|, NewIndex(names));
            Sends(order, names, from, if from in m then m[from] else from)
  {
    NewIndexSound(names, 0, map[]);
    if 0 <= from < |order| {
      IndexMapAt(order, |order|, NewIndex(names), from);
      if Some(order[from]) in names {
        NewIndexComplete(names, 0, map[], order[from]);
      }
    } else {
      IndexMapBelow(order, |order|, NewIndex(names));
    }
  }

  /** A comment path keeps all but the position of a top-level message, enum or service, which follows its name. */
  ghost predicate PathFollows(meta: Meta, file: FileDescriptor, path: seq<i32>, out: seq<i32>) {
    if |path| < 2 || path[0] !in [4, 5, 6] then out == path
    else
      && |out| == |path| && out[0] == path[0] && out[2..] == path[2..]
      && match path[0] {
           case 4 => Sends(meta.messageOrder, Options(file.messageType, MessageOptionName), path[1], out[1])
           case 5 => Sends(meta.enumOrder, Options(file.enumType, EnumOptionName), path[1], out[1])
           case _ => Sends(meta.serviceOrder, Options(file.service, ServiceOptionName), path[1], out[1])
         }
  }

  /** Every item of the file has a name, and positions fit 32 bits. */
  ghost predicate Positioned(names: seq<Option<string>>, order: seq<string>) {
    |order| <= I32_MAX + 1 && |names| <= I32_MAX + 1 && forall j :: 0 <= j < |names| ==> names[j].Some?
  }

  /** The comments of a rebuilt file stay with the declarations they were written for. */
  lemma CommentsFollow(meta: Meta, ms: seq<Message>, es: seq<Enum>, ss: seq<Service>, i: nat)
    requires meta.sourceInfo.Some? && i < |meta.sourceInfo.value|
    requires var file := AssembleParts(meta, ms, es, ss);
             && Positioned(Options(file.messageType, MessageOptionName), meta.messageOrder)
             && Positioned(Options(file.enumType, EnumOptionName), meta.enumOrder)
             && Positioned(Options(file.service, ServiceOptionName), meta.serviceOrder)
    ensures var file, from := AssembleParts(meta, ms, es, ss), meta.sourceInfo.value[i];
            && file.sourceInfo.Some? && |file.sourceInfo.value| == |meta.sourceInfo.value|
            && file.sourceInfo.value[i] == from.(path := file.sourceInfo.value[i].path)
            && PathFollows(meta, file, from.path, file.sourceInfo.value[i].path)
  {
    var file, path := AssembleParts(meta, ms, es, ss), meta.sourceInfo.value[i].path;
    if |path| >= 2 {
      IndexSends(meta.messageOrder, Options(file.messageType, MessageOptionName), path[1]);
      IndexSends(meta.enumOrder, Options(file.enumType, EnumOptionName), path[1]);
      IndexSends(meta.serviceOrder, Options(file.service, ServiceOptionName), path[1]);
    }
  }

  lemma RemappedIdentity(info: seq<SourceLocation>, m: map<i32, i32>, e: map<i32, i32>, s: map<i32, i32>)
    requires Identity(m) && Identity(e) && Identity(s)
    ensures Remapped(info, m, e, s) == info
  {
    forall i | 0 <= i < |info| ensures Remapped(info, m, e, s)[i] == info[i] {
      var path := info[i].path;
      assert |path| >= 2 ==> path[1 := path[1]] == path;
    }
  }

  lemma {:induction false} PartsOf(ds: seq<Decl>)
    ensures forall m :: m in MessagesIn(ds) <==> MessageDecl(m) in ds
    ensures forall e :: e in EnumsIn(ds) <==> EnumDecl(e) in ds
    ensures forall s :: s in ServicesIn(ds) <==> ServiceDecl(s) in ds
  {
    if ds != [] {
      PartsOf(ds[..|ds| - 1]);
      assert ds == ds[..|ds| - 1] + [ds[|ds| - 1]];
    }
  }

  lemma {:induction false} StoreHolds(decls: seq<Decl>, encode: Decl -> Bytes)
    ensures forall k :: k in Store(decls, encode) ==>
              exists d :: d in decls && DeclName(d) == k && Store(decls, encode)[k] == encode(d)
    ensures forall d :: d in decls ==> DeclName(d) in Store(decls, encode)
  {
    if decls != [] {
      var init, last := decls[..|decls| - 1], decls[|decls| - 1];
      StoreHolds(init, encode);
      assert decls == init + [last];
      forall k | k in Store(decls, encode)
        ensures exists d :: d in decls && DeclName(d) == k && Store(decls, encode)[k] == encode(d)
      {
        if k == DeclName(last) {
          assert last in decls;
        } else {
          var d :| d in init && DeclName(d) == k && Store(init, encode)[k] == encode(d);
          assert d in decls;
        }
      }
    }
  }

  lemma {:induction false} DecodeKeysAll(keys: seq<string>, store: map<string, Bytes>,
                                         decode: Bytes -> Result<Decl, BlobError>)
    requires forall k :: k in keys ==> k in store && decode(store[k]).Success?
    ensures DecodeKeys(keys, store, decode).Success?
    ensures var ds := DecodeKeys(keys, store, decode).value;
            |ds| == |keys| && forall i :: 0 <= i < |ds| ==> decode(store[keys[i]]) == Success(ds[i])
  {
    if keys != [] {
      DecodeKeysAll(keys[..|keys| - 1], store, decode);
    }
  }

  /** Blobs come back as their declarations, spans cleared, under the key they were stored by. */
  ghost predicate Decodes(decls: seq<Decl>, encode: Decl -> Bytes, decode: Bytes -> Result<Decl, BlobError>) {
    forall d :: d in decls ==> decode(encode(d)) == Success(ClearDecl(d))
  }

  /** Every decoded declaration is one that was split off, and carries its key as its name. */
  lemma LoadedAreSplit(decls: seq<Decl>, keys: seq<string>, encode: Decl -> Bytes,
                       decode: Bytes -> Result<Decl, BlobError>)
    requires Decodes(decls, encode, decode)
    requires Enumerates(keys, Store(decls, encode))
    ensures var r := DecodeKeys(keys, Store(decls, encode), decode);
            && r.Success? && |r.value| == |keys|
            && forall i :: 0 <= i < |keys| ==>
                 DeclName(r.value[i]) == keys[i] && exists d :: d in decls && r.value[i] == ClearDecl(d)
  {
    var store := Store(decls, encode);
    StoreHolds(decls, encode);
    forall k | k in keys
      ensures k in store && exists d :: d in decls && DeclName(d) == k && decode(store[k]) == Success(ClearDecl(d))
    {
      var d :| d in decls && DeclName(d) == k && store[k] == encode(d);
      assert decode(store[k]) == Success(ClearDecl(d));
    }
    DecodeKeysAll(keys, store, decode);
    var ds := DecodeKeys(keys, store, decode).value;
    forall i | 0 <= i < |keys|
      ensures DeclName(ds[i]) == keys[i] && exists d :: d in decls && ds[i] == ClearDecl(d)
    {
      assert keys[i] in keys;
      var d :| d in decls && DeclName(d) == keys[i] && decode(store[keys[i]]) == Success(ClearDecl(d));
      assert ds[i] == ClearDecl(d);
    }
  }

  /** With distinct names nothing is lost: the decoded declarations are exactly the split ones. */
  lemma NothingLost(decls: seq<Decl>, keys: seq<string>, encode: Decl -> Bytes,
                    decode: Bytes -> Result<Decl, BlobError>, a: nat)
    requires Decodes(decls, encode, decode)
    requires Enumerates(keys, Store(decls, encode))
    requires DistinctNames(decls, DeclName) && a < |decls|
    ensures var r := DecodeKeys(keys, Store(decls, encode), decode);
            r.Success? && ClearDecl(decls[a]) in r.value
  {
    LoadedAreSplit(decls, keys, encode, decode);
    var ds := DecodeKeys(keys, Store(decls, encode), decode).value;
    var i := KeyOf(decls, keys, encode, a);
    var e :| e in decls && ds[i] == ClearDecl(e);
    var b :| 0 <= b < |decls| && decls[b] == e;
    assert DeclName(decls[b]) == DeclName(decls[a]);
    assert a == b;
  }

  lemma KeyOf(decls: seq<Decl>, keys: seq<string>, encode: Decl -> Bytes, a: nat) returns (i: nat)
    requires Enumerates(keys, Store(decls, encode)) && a < |decls|
    ensures i < |keys| && keys[i] == DeclName(decls[a])
  {
    StoreHolds(decls, encode);
    assert decls[a] in decls;
    i :| 0 <= i < |keys| && keys[i] == DeclName(decls[a]);
  }

  function ClearFile(file: FileDescriptor): FileDescriptor {
    file.(messageType := MapSeq(ClearMessage, file.messageType), enumType := MapSeq(ClearEnum, file.enumType),
          extension := MapSeq(ClearField, file.extension))
  }

  lemma ClearedDecls(file: FileDescriptor)
    ensures DeclsOf(ClearFile(file)) == MapSeq(ClearDecl, DeclsOf(file))
    ensures UniqueNames(ClearFile(file)) <==> UniqueNames(file)
  {
    var all, cleared := DeclsOf(file), DeclsOf(ClearFile(file));
    forall i | 0 <= i < |all| ensures cleared[i] == ClearDecl(all[i]) {}
    forall i | 0 <= i < |all| ensures DeclName(cleared[i]) == DeclName(all[i]) {}
  }

  /** Every top-level name, an absent one counting as the empty name, is used once. */
  ghost predicate UniqueNames(file: FileDescriptor) {
    DistinctNames(DeclsOf(file), DeclName)
  }

  ghost predicate SameDecls(file: FileDescriptor, ds: seq<Decl>) {
    forall d :: d in ds <==> d in DeclsOf(file)
  }

  lemma DeclsOfParts(file: FileDescriptor)
    ensures forall m :: MessageDecl(m) in DeclsOf(file) <==> m in file.messageType
    ensures forall e :: EnumDecl(e) in DeclsOf(file) <==> e in file.enumType
    ensures forall s :: ServiceDecl(s) in DeclsOf(file) <==> s in file.service
  {
    var all := DeclsOf(file);
    var m, e := |file.messageType|, |file.enumType|;
    assert forall i :: 0 <= i < m ==> all[i] == MessageDecl(file.messageType[i]);
    assert forall i :: 0 <= i < e ==> all[m + i] == EnumDecl(file.enumType[i]);
    assert forall i :: 0 <= i < |file.service| ==> all[m + e + i] == ServiceDecl(file.service[i]);
    forall x | EnumDecl(x) in all ensures x in file.enumType {
      var i :| 0 <= i < |all| && all[i] == EnumDecl(x);
      assert x == file.enumType[i - m];
    }
    forall x | ServiceDecl(x) in all ensures x in file.service {
      var i :| 0 <= i < |all| && all[i] == ServiceDecl(x);
      assert x == file.service[i - m - e];
    }
  }

  lemma KindNamesDistinct(file: FileDescriptor)
    requires UniqueNames(file)
    ensures DistinctNames(file.messageType, MessageName)
    ensures DistinctNames(file.enumType, EnumName)
    ensures DistinctNames(file.service, ServiceName)
  {
    var all := DeclsOf(file);
    var m, e := |file.messageType|, |file.enumType|;
    forall i, j | 0 <= i < j < m ensures MessageName(file.messageType[i]) != MessageName(file.messageType[j]) {
      assert DeclName(all[i]) != DeclName(all[j]);
    }
    forall i, j | 0 <= i < j < e ensures EnumName(file.enumType[i]) != EnumName(file.enumType[j]) {
      assert DeclName(all[m + i]) != DeclName(all[m + j]);
    }
    forall i, j | 0 <= i < j < |file.service| ensures ServiceName(file.service[i]) != ServiceName(file.service[j]) {
      assert DeclName(all[m + e + i]) != DeclName(all[m + e + j]);
    }
  }

  /** Rebuilding from the file's own declarations, in any order, gives the file with every comment path unchanged. */
  lemma AssembleRestores(file: FileDescriptor, ds: seq<Decl>)
    requires UniqueNames(file) && SameDecls(file, ds)
    ensures Assemble(MetaOf(file), ds) == file
  {
    PartsOf(ds);
    DeclsOfParts(file);
    KindNamesDistinct(file);
    ReorderedRestores(MessagesIn(ds), file.messageType, MessageName);
    ReorderedRestores(EnumsIn(ds), file.enumType, EnumName);
    ReorderedRestores(ServicesIn(ds), file.service, ServiceName);
    IndexMapIdentity(file.messageType, MessageName, MessageOptionName, |file.messageType|);
    IndexMapIdentity(file.enumType, EnumName, EnumOptionName, |file.enumType|);
    IndexMapIdentity(file.service, ServiceName, ServiceOptionName, |file.service|);
    if file.sourceInfo.Some? {
      RemappedIdentity(file.sourceInfo.value,
        IndexMap(Names(file.messageType, MessageName), |file.messageType|,
                 NewIndex(Options(file.messageType, MessageOptionName))),
        IndexMap(Names(file.enumType, EnumName), |file.enumType|, NewIndex(Options(file.enumType, EnumOptionName))),
        IndexMap(Names(file.service, ServiceName), |file.service|, NewIndex(Options(file.service, ServiceOptionName))));
    }
  }

  /** Every blob of the split file fits the address space. */
  ghost predicate Fits(source: FileDescriptor) {
    && |EncodeMeta(MetaOf(ResolveLocal(source)))| < U64_LIMIT
    && forall d :: d in DeclsOf(ResolveLocal(source)) ==> |EncodeDecl(d)| < U64_LIMIT
  }

  lemma BlobsDecode(decls: seq<Decl>)
    requires forall d :: d in decls ==> |EncodeDecl(d)| < U64_LIMIT
    ensures Decodes(decls, EncodeDecl, DecodeDecl)
  {
    forall d | d in decls ensures DecodeDecl(EncodeDecl(d)) == Success(ClearDecl(d)) {
      DeclRoundTrip(d);
    }
  }

  lemma NothingInvented(decls: seq<Decl>, keys: seq<string>, loaded: seq<Decl>, d: Decl)
    requires |loaded| == |keys| && d in loaded
    requires forall i :: 0 <= i < |keys| ==> exists e :: e in decls && loaded[i] == ClearDecl(e)
    ensures d in MapSeq(ClearDecl, decls)
  {
    var i :| 0 <= i < |loaded| && loaded[i] == d;
    var e :| e in decls && loaded[i] == ClearDecl(e);
    var b :| 0 <= b < |decls| && decls[b] == e;
    assert MapSeq(ClearDecl, decls)[b] == d;
  }

  lemma LoadedAreSame(file: FileDescriptor, keys: seq<string>, encode: Decl -> Bytes,
                      decode: Bytes -> Result<Decl, BlobError>)
    requires UniqueNames(file) && Decodes(DeclsOf(file), encode, decode)
    requires Enumerates(keys, Store(DeclsOf(file), encode))
    ensures var r := DecodeKeys(keys, Store(DeclsOf(file), encode), decode);
            r.Success? && SameDecls(ClearFile(file), r.value)
  {
    var decls := DeclsOf(file);
    var r := DecodeKeys(keys, Store(decls, encode), decode);
    LoadedAreSplit(decls, keys, encode, decode);
    ClearedDecls(file);
    var cleared := MapSeq(ClearDecl, decls);
    forall d | d in cleared ensures d in r.value {
      var a :| 0 <= a < |cleared| && cleared[a] == d;
      NothingLost(decls, keys, encode, decode, a);
    }
    forall d | d in r.value ensures d in cleared {
      NothingInvented(decls, keys, r.value, d);
    }
  }

  lemma ClearedMeta(file: FileDescriptor)
    ensures ClearMeta(MetaOf(file)) == MetaOf(ClearFile(file))
  {}

  lemma ResolvedRoundTrip(source: FileDescriptor, keys: seq<string>)
    requires UniqueNames(ResolveLocal(source)) && Fits(source)
    requires Enumerates(keys, SplitAndStore(source).decls)
    ensures Reassembled(SplitAndStore(source), keys) == Success(ClearFile(ResolveLocal(source)))
  {
    var file := ResolveLocal(source);
    BlobsDecode(DeclsOf(file));
    LoadedAreSame(file, keys, EncodeDecl, DecodeDecl);
    MetaRoundTrip(MetaOf(file));
    ClearedMeta(file);
    ClearedDecls(file);
    AssembleRestores(ClearFile(file), DecodeKeys(keys, SplitAndStore(source).decls, DecodeDecl).value);
  }

  // ----- and only then -----

  lemma {:induction false} PickDistinct<T(!new)>(order: seq<string>, byName: map<string, T>, name: T -> string)
    requires forall k :: k in byName ==> name(byName[k]) == k
    ensures forall x :: x in Pick(order, byName) ==> name(x) in byName && byName[name(x)] == x && name(x) in order
    ensures DistinctNames(Pick(order, byName), name)
  {
    if order != [] {
      if order[0] in byName {
        PickDistinct(order[1..], byName - {order[0]}, name);
      } else {
        PickDistinct(order[1..], byName, name);
      }
    }
  }

  lemma ConcatDistinct<T(!new)>(a: seq<T>, b: seq<T>, order: seq<string>, name: T -> string)
    requires DistinctNames(a, name) && forall x :: x in a ==> name(x) in order
    requires DistinctNames(b, name) && forall x :: x in b ==> name(x) !in order
    ensures DistinctNames(a + b, name)
  {}

  /** Reordering drops duplicates and invents nothing. */
  lemma ReorderedDistinct<T(!new)>(items: seq<T>, order: seq<string>, name: T -> string)
    requires DistinctNames(items, name)
    ensures forall x :: x in Reordered(items, order, name) ==> x in items
    ensures DistinctNames(Reordered(items, order, name), name)
  {
    if order != [] {
      ByNameHolds(items, name);
      PickDistinct(order, ByName(items, name), name);
      UnlistedSorted(items, order, name);
      SortedIsDistinct(SortByName(Unlisted(items, order, name), name), name);
      ConcatDistinct(Pick(order, ByName(items, name)), SortByName(Unlisted(items, order, name), name), order, name);
    }
  }

  /** The declarations before the last have other names. */
  lemma LastIsNew(ds: seq<Decl>, d: Decl)
    requires DistinctNames(ds, DeclName) && ds != [] && d in ds[..|ds| - 1]
    ensures DeclName(d) != DeclName(ds[|ds| - 1])
  {
    var i :| 0 <= i < |ds| - 1 && ds[i] == d;
  }

  lemma {:induction false} MessagesDistinct(ds: seq<Decl>)
    requires DistinctNames(ds, DeclName)
    ensures DistinctNames(MessagesIn(ds), MessageName)
  {
    if ds != [] {
      var init := ds[..|ds| - 1];
      MessagesDistinct(init);
      PartsOf(init);
      forall i | 0 <= i < |MessagesIn(init)| ensures MessageName(MessagesIn(init)[i]) != DeclName(ds[|ds| - 1]) {
        assert MessagesIn(init)[i] in MessagesIn(init);
        LastIsNew(ds, MessageDecl(MessagesIn(init)[i]));
      }
    }
  }

  lemma {:induction false} EnumsDistinct(ds: seq<Decl>)
    requires DistinctNames(ds, DeclName)
    ensures DistinctNames(EnumsIn(ds), EnumName)
  {
    if ds != [] {
      var init := ds[..|ds| - 1];
      EnumsDistinct(init);
      PartsOf(init);
      forall i | 0 <= i < |EnumsIn(init)| ensures EnumName(EnumsIn(init)[i]) != DeclName(ds[|ds| - 1]) {
        assert EnumsIn(init)[i] in EnumsIn(init);
        LastIsNew(ds, EnumDecl(EnumsIn(init)[i]));
      }
    }
  }

  lemma {:induction false} ServicesDistinct(ds: seq<Decl>)
    requires DistinctNames(ds, DeclName)
    ensures DistinctNames(ServicesIn(ds), ServiceName)
  {
    if ds != [] {
      var init := ds[..|ds| - 1];
      ServicesDistinct(init);
      PartsOf(init);
      forall i | 0 <= i < |ServicesIn(init)| ensures ServiceName(ServicesIn(init)[i]) != DeclName(ds[|ds| - 1]) {
        assert ServicesIn(init)[i] in ServicesIn(init);
        LastIsNew(ds, ServiceDecl(ServicesIn(init)[i]));
      }
    }
  }

  lemma DifferentNames<T(!new)>(ds: seq<T>, name: T -> string, x: T, y: T)
    requires DistinctNames(ds, name) && x in ds && y in ds && x != y
    ensures name(x) != name(y)
  {}

  lemma AssembledPartsDistinct(file: FileDescriptor, ds: seq<Decl>)
    requires DistinctNames(ds, DeclName)
    requires DistinctNames(file.messageType, MessageName)
    requires DistinctNames(file.enumType, EnumName)
    requires DistinctNames(file.service, ServiceName)
    requires forall d :: d in DeclsOf(file) ==> d in ds
    ensures UniqueNames(file)
  {
    var all := DeclsOf(file);
    var m, e := |file.messageType|, |file.enumType|;
    forall i, j | 0 <= i < j < |all| ensures DeclName(all[i]) != DeclName(all[j]) {
      assert all[i] in ds && all[j] in ds;
      if j < m {
        assert MessageName(file.messageType[i]) != MessageName(file.messageType[j]);
      } else if m <= i && j < m + e {
        assert EnumName(file.enumType[i - m]) != EnumName(file.enumType[j - m]);
      } else if m + e <= i {
        assert ServiceName(file.service[i - m - e]) != ServiceName(file.service[j - m - e]);
      }
      DifferentNames(ds, DeclName, all[i], all[j]);
    }
  }

  /** A rebuilt file never repeats a name, whatever its metadata says. */
  lemma AssembledUnique(meta: Meta, ds: seq<Decl>)
    requires DistinctNames(ds, DeclName)
    ensures UniqueNames(Assemble(meta, ds))
  {
    var file := Assemble(meta, ds);
    MessagesDistinct(ds);
    EnumsDistinct(ds);
    ServicesDistinct(ds);
    PartsOf(ds);
    ReorderedDistinct(MessagesIn(ds), meta.messageOrder, MessageName);
    ReorderedDistinct(EnumsIn(ds), meta.enumOrder, EnumName);
    ReorderedDistinct(ServicesIn(ds), meta.serviceOrder, ServiceName);
    DeclsOfParts(file);
    forall d | d in DeclsOf(file) ensures d in ds {
      match d
      case MessageDecl(m) => assert m in file.messageType;
      case EnumDecl(e) => assert e in file.enumType;
      case ServiceDecl(s) => assert s in file.service;
    }
    AssembledPartsDistinct(file, ds);
  }

  lemma LoadedDistinct(decls: seq<Decl>, keys: seq<string>, encode: Decl -> Bytes,
                       decode: Bytes -> Result<Decl, BlobError>)
    requires Decodes(decls, encode, decode)
    requires Enumerates(keys, Store(decls, encode))
    ensures var r := DecodeKeys(keys, Store(decls, encode), decode);
            r.Success? && DistinctNames(r.value, DeclName)
  {
    LoadedAreSplit(decls, keys, encode, decode);
  }

  lemma ResolvedExactly(source: FileDescriptor, keys: seq<string>)
    requires Fits(source)
    requires Enumerates(keys, SplitAndStore(source).decls)
    ensures Reassembled(SplitAndStore(source), keys) == Success(ClearFile(ResolveLocal(source)))
       <==> UniqueNames(source)
  {
    var file := ResolveLocal(source);
    NamesResolved(source);
    if UniqueNames(source) {
      ResolvedRoundTrip(source, keys);
    } else {
      BlobsDecode(DeclsOf(file));
      LoadedDistinct(DeclsOf(file), keys, EncodeDecl, DecodeDecl);
      MetaRoundTrip(MetaOf(file));
      var ds := DecodeKeys(keys, SplitAndStore(source).decls, DecodeDecl).value;
      AssembledUnique(ClearMeta(MetaOf(file)), ds);
      ClearedDecls(file);
    }
  }

  /**
   Splitting a file whose top-level names are used once, storing the blobs by name and rebuilding in whatever
   order the store yields them gives back the file: local field kinds resolved, declarations in source order,
   comment paths unchanged.
   */
  lemma SplitReassembleRoundTrip(source: FileDescriptor, file: FileDescriptor, keys: seq<string>)
    requires KindsFilled(source, file) && UniqueNames(file) && Fits(source)
    requires Enumerates(keys, SplitAndStore(source).decls)
    ensures Reassembled(SplitAndStore(source), keys) == Success(ClearFile(file))
  {
    KindsFilledOnce(source, file);
    ResolvedRoundTrip(source, keys);
  }

  /** The round trip holds exactly for the files whose top-level names are used once. */
  lemma SplitReassembleExactly(source: FileDescriptor, file: FileDescriptor, keys: seq<string>)
    requires KindsFilled(source, file) && Fits(source)
    requires Enumerates(keys, SplitAndStore(source).decls)
    ensures Reassembled(SplitAndStore(source), keys) == Success(ClearFile(file)) <==> UniqueNames(source)
  {
    KindsFilledOnce(source, file);
    ResolvedExactly(source, keys);
  }

  lemma NamesResolved(source: FileDescriptor)
    ensures UniqueNames(ResolveLocal(source)) <==> UniqueNames(source)
  {
    var all, resolved := DeclsOf(source), DeclsOf(ResolveLocal(source));
    forall i | 0 <= i < |all| ensures DeclName(resolved[i]) == DeclName(all[i]) {}
  }
}
