/** Resolving written type references to absolute names across a closure of Protobuf files. */
module SymbolResolution {
  import opened Wrappers
  import opened Text
  import opened Descriptors
  import opened Reassembly

  datatype SymbolKind = MessageSymbol | EnumSymbol

  type Symbols = map<string, SymbolKind>

  datatype ResolveError =
    | MissingName | DuplicateSymbol(name: string) | Unresolved(name: string) | NotAMessage(name: string)

  function JoinName(prefix: string, name: string): string {
    if prefix == "" then name else if name == "" then prefix else prefix + "." + name
  }

  // ----- registration -----

  function RegisterSymbol(symbols: Symbols, name: string, kind: SymbolKind): Result<Symbols, ResolveError> {
    if name == "" then Failure(MissingName)
    else if name in symbols then Failure(DuplicateSymbol(name))
    else Success(symbols[name := kind])
  }

  function RegisterEnums(es: seq<Enum>, parent: string, symbols: Symbols): Result<Symbols, ResolveError> {
    if es == [] then Success(symbols)
    else
      var next :- RegisterSymbol(symbols, JoinName(parent, EnumName(es[0])), EnumSymbol);
      RegisterEnums(es[1..], parent, next)
  }

  function RegisterMessage(m: Message, parent: string, symbols: Symbols): Result<Symbols, ResolveError>
    decreases m, 1
  {
    var name := JoinName(parent, MessageName(m));
    var own :- RegisterSymbol(symbols, name, MessageSymbol);
    var nested :- RegisterMessages(m.nestedType, name, own);
    RegisterEnums(m.enumType, name, nested)
  }

  function RegisterMessages(ms: seq<Message>, parent: string, symbols: Symbols): Result<Symbols, ResolveError>
    decreases ms, 0
  {
    if ms == [] then Success(symbols)
    else
      var next :- RegisterMessage(ms[0], parent, symbols);
      RegisterMessages(ms[1..], parent, next)
  }

  function RegisterFile(file: FileDescriptor, symbols: Symbols): Result<Symbols, ResolveError> {
    var package := file.package.GetOr("");
    var messages :- RegisterMessages(file.messageType, package, symbols);
    RegisterEnums(file.enumType, package, messages)
  }

  function RegisterFiles(files: seq<FileDescriptor>, symbols: Symbols): Result<Symbols, ResolveError> {
    if files == [] then Success(symbols)
    else
      var next :- RegisterFile(files[0], symbols);
      RegisterFiles(files[1..], next)
  }

  // ----- what the files declare -----

  type Declaration = (string, SymbolKind)

  function EnumDeclarations(es: seq<Enum>, parent: string): seq<Declaration> {
    if es == [] then [] else [(JoinName(parent, EnumName(es[0])), EnumSymbol)] + EnumDeclarations(es[1..], parent)
  }

  /** The absolute names a message declares with their kinds: its own, its nested messages' and its enums'. */
  function Declarations(m: Message, parent: string): seq<Declaration>
    decreases m, 1
  {
    var name := JoinName(parent, MessageName(m));
    [(name, MessageSymbol)] + (NestedDeclarations(m.nestedType, name) + EnumDeclarations(m.enumType, name))
  }

  function NestedDeclarations(ms: seq<Message>, parent: string): seq<Declaration>
    decreases ms, 0
  {
    if ms == [] then [] else Declarations(ms[0], parent) + NestedDeclarations(ms[1..], parent)
  }

  function FileDeclarations(file: FileDescriptor): seq<Declaration> {
    var package := file.package.GetOr("");
    NestedDeclarations(file.messageType, package) + EnumDeclarations(file.enumType, package)
  }

  function AllDeclarations(files: seq<FileDescriptor>): seq<Declaration> {
    if files == [] then [] else FileDeclarations(files[0]) + AllDeclarations(files[1..])
  }

  function RegisterAll(ds: seq<Declaration>, symbols: Symbols): Result<Symbols, ResolveError> {
    if ds == [] then Success(symbols)
    else
      var next :- RegisterSymbol(symbols, ds[0].0, ds[0].1);
      RegisterAll(ds[1..], next)
  }

  function Then(a: Result<Symbols, ResolveError>, ds: seq<Declaration>): Result<Symbols, ResolveError> {
    match a
    case Failure(e) => Failure(e)
    case Success(symbols) => RegisterAll(ds, symbols)
  }

  lemma {:induction false} RegisterInTwo(a: seq<Declaration>, b: seq<Declaration>, symbols: Symbols)
    ensures RegisterAll(a + b, symbols) == Then(RegisterAll(a, symbols), b)
  {
    if a == [] {
      assert a + b == b;
    } else {
      assert (a + b)[1..] == a[1..] + b;
      var next := RegisterSymbol(symbols, a[0].0, a[0].1);
      if next.Success? {
        RegisterInTwo(a[1..], b, next.value);
      }
    }
  }

  lemma {:induction false} EnumsRegistered(es: seq<Enum>, parent: string, symbols: Symbols)
    ensures RegisterEnums(es, parent, symbols) == RegisterAll(EnumDeclarations(es, parent), symbols)
  {
    if es != [] {
      var next := RegisterSymbol(symbols, JoinName(parent, EnumName(es[0])), EnumSymbol);
      assert EnumDeclarations(es, parent)[1..] == EnumDeclarations(es[1..], parent);
      if next.Success? {
        EnumsRegistered(es[1..], parent, next.value);
      }
    }
  }

  lemma {:induction false} MessageRegistered(m: Message, parent: string, symbols: Symbols)
    ensures RegisterMessage(m, parent, symbols) == RegisterAll(Declarations(m, parent), symbols)
    decreases m, 1
  {
    var name := JoinName(parent, MessageName(m));
    var nested, enums := NestedDeclarations(m.nestedType, name), EnumDeclarations(m.enumType, name);
    assert Declarations(m, parent)[1..] == nested + enums;
    var own := RegisterSymbol(symbols, name, MessageSymbol);
    if own.Success? {
      NestedRegistered(m.nestedType, name, own.value);
      RegisterInTwo(nested, enums, own.value);
      var inner := RegisterAll(nested, own.value);
      if inner.Success? {
        EnumsRegistered(m.enumType, name, inner.value);
      }
    }
  }

  lemma {:induction false} NestedRegistered(ms: seq<Message>, parent: string, symbols: Symbols)
    ensures RegisterMessages(ms, parent, symbols) == RegisterAll(NestedDeclarations(ms, parent), symbols)
    decreases ms, 0
  {
    if ms != [] {
      MessageRegistered(ms[0], parent, symbols);
      RegisterInTwo(Declarations(ms[0], parent), NestedDeclarations(ms[1..], parent), symbols);
      var next := RegisterMessage(ms[0], parent, symbols);
      if next.Success? {
        NestedRegistered(ms[1..], parent, next.value);
      }
    }
  }

  lemma FileRegistered(file: FileDescriptor, symbols: Symbols)
    ensures RegisterFile(file, symbols) == RegisterAll(FileDeclarations(file), symbols)
  {
    var package := file.package.GetOr("");
    NestedRegistered(file.messageType, package, symbols);
    RegisterInTwo(NestedDeclarations(file.messageType, package), EnumDeclarations(file.enumType, package), symbols);
    var messages := RegisterMessages(file.messageType, package, symbols);
    if messages.Success? {
      EnumsRegistered(file.enumType, package, messages.value);
    }
  }

  lemma {:induction false} FilesRegistered(files: seq<FileDescriptor>, symbols: Symbols)
    ensures RegisterFiles(files, symbols) == RegisterAll(AllDeclarations(files), symbols)
  {
    if files != [] {
      FileRegistered(files[0], symbols);
      RegisterInTwo(FileDeclarations(files[0]), AllDeclarations(files[1..]), symbols);
      var next := RegisterFile(files[0], symbols);
      if next.Success? {
        FilesRegistered(files[1..], next.value);
      }
    }
  }

  /** The declarations as a table. */
  function Table(ds: seq<Declaration>): Symbols {
    if ds == [] then map[] else map[ds[0].0 := ds[0].1] + Table(ds[1..])
  }

  /** Every declared name is non-empty, new to `symbols`, and declared once. */
  ghost predicate DeclaredOnce(ds: seq<Declaration>, symbols: Symbols) {
    && (forall i :: 0 <= i < |ds| ==> ds[i].0 != "" && ds[i].0 !in symbols)
    && (forall i, j :: 0 <= i < j < |ds| ==> ds[i].0 != ds[j].0)
  }

  lemma {:induction false} RegisterAllExactly(ds: seq<Declaration>, symbols: Symbols)
    ensures RegisterAll(ds, symbols).Success? <==> DeclaredOnce(ds, symbols)
    ensures RegisterAll(ds, symbols).Success? ==> RegisterAll(ds, symbols).value == symbols + Table(ds)
  {
    if ds != [] {
      var rest := ds[1..];
      var next := RegisterSymbol(symbols, ds[0].0, ds[0].1);
      if next.Success? {
        RegisterAllExactly(rest, next.value);
        assert forall i :: 0 <= i < |rest| ==> rest[i] == ds[i + 1];
        assert forall i :: 1 <= i < |ds| ==> ds[i] == rest[i - 1];
      }
    }
  }

  lemma {:induction false} TableHolds(ds: seq<Declaration>)
    requires DeclaredOnce(ds, map[])
    ensures forall d: Declaration :: d in ds <==> d.0 in Table(ds) && Table(ds)[d.0] == d.1
  {
    if ds != [] {
      assert forall i :: 0 <= i < |ds[1..]| ==> ds[1..][i] == ds[i + 1];
      TableHolds(ds[1..]);
      assert forall d: Declaration :: d in ds[1..] ==> d.0 != ds[0].0;
      assert ds[0].0 in Table(ds[1..]) ==> (ds[0].0, Table(ds[1..])[ds[0].0]) in ds[1..];
      forall d: Declaration ensures d in ds <==> d.0 in Table(ds) && Table(ds)[d.0] == d.1 {
        assert d in ds <==> d == ds[0] || d in ds[1..];
      }
    }
  }

  /**
   Registration of a closure succeeds exactly when every absolute name, at any nesting, is non-empty and declared
   once; the symbol map then holds exactly the declared names, each with its kind. A declaration without a name of its
   own takes the absolute name of its scope.
   */
  lemma RegisterFilesExactly(files: seq<FileDescriptor>)
    ensures RegisterFiles(files, map[]).Success? <==> DeclaredOnce(AllDeclarations(files), map[])
    ensures RegisterFiles(files, map[]).Success? ==>
              && RegisterFiles(files, map[]).value == Table(AllDeclarations(files))
              && forall d: Declaration :: d in AllDeclarations(files) <==>
                   d.0 in RegisterFiles(files, map[]).value && RegisterFiles(files, map[]).value[d.0] == d.1
  {
    var ds := AllDeclarations(files);
    FilesRegistered(files, map[]);
    RegisterAllExactly(ds, map[]);
    if DeclaredOnce(ds, map[]) {
      TableHolds(ds);
      assert map[] + Table(ds) == Table(ds);
    }
  }

  // ----- scoped lookup -----

  function Parent(scope: string): string
    requires LastIndex(scope, '.') >= 0
  {
    scope[..LastIndex(scope, '.')]
  }

  function Lookup(name: string, symbols: Symbols): Option<(string, SymbolKind)> {
    if name in symbols then Some((name, symbols[name])) else None
  }

  /** Outward search: the scope itself, its ancestors, then the bare name. */
  function LookupFrom(name: string, scope: string, symbols: Symbols): Option<(string, SymbolKind)>
    decreases |scope|
  {
    if JoinName(scope, name) in symbols then Lookup(JoinName(scope, name), symbols)
    else if LastIndex(scope, '.') >= 0 then LookupFrom(name, Parent(scope), symbols)
    else Lookup(name, symbols)
  }

  function ResolveName(name: string, scope: string, symbols: Symbols): Option<(string, SymbolKind)> {
    if name != "" && name[0] == '.' then Lookup(name[1..], symbols) else LookupFrom(name, scope, symbols)
  }

  /** `resolve_symbol`: the scope loop. */
  method ResolveSymbol(name: string, scope: string, symbols: Symbols) returns (r: Option<(string, SymbolKind)>)
    ensures r == ResolveName(name, scope, symbols)
  {
    if name != "" && name[0] == '.' {
      var absolute := name[1..];
      return if absolute in symbols then Some((absolute, symbols[absolute])) else None;
    }
    var candidateScope := scope;
    while true
      invariant LookupFrom(name, candidateScope, symbols) == LookupFrom(name, scope, symbols)
      decreases |candidateScope|
    {
      var candidate := JoinName(candidateScope, name);
      if candidate in symbols {
        return Some((candidate, symbols[candidate]));
      }
      var dot := LastIndex(candidateScope, '.');
      if dot < 0 {
        break;
      }
      candidateScope := candidateScope[..dot];
    }
    r := if name in symbols then Some((name, symbols[name])) else None;
  }

  /** `p` is `scope` itself, the root, or a dotted ancestor of `scope`. */
  predicate Encloses(p: string, scope: string) {
    p == scope || p == "" || p + "." <= scope
  }

  lemma EnclosingScopes(p: string, scope: string)
    requires LastIndex(scope, '.') >= 0
    ensures Encloses(p, scope) <==> p == scope || Encloses(p, Parent(scope))
  {}

  lemma NoAncestors(p: string, scope: string)
    requires LastIndex(scope, '.') < 0
    ensures Encloses(p, scope) <==> p == scope || p == ""
  {}

  /** A declaration opens one scope: its own, inside all that enclose it. */
  lemma ScopeOpens(p: string, scope: string, name: string)
    requires name != "" && DotFree(name)
    ensures Encloses(p, JoinName(scope, name)) <==> p == JoinName(scope, name) || Encloses(p, scope)
  {
    var inner := JoinName(scope, name);
    if scope == "" {
      NoAncestors(p, inner);
    } else {
      assert forall i :: |scope| < i < |inner| ==> inner[i] == name[i - |scope| - 1];
      assert inner[|scope|] == '.' && LastIndex(inner, '.') == |scope|;
      EnclosingScopes(p, inner);
      assert Parent(inner) == scope;
    }
  }

  /** An absolute name does not depend on how its parts are joined. */
  lemma JoinAssociative(a: string, b: string, c: string)
    ensures JoinName(JoinName(a, b), c) == JoinName(a, JoinName(b, c))
  {
    if a != "" && b != "" && c != "" {
      assert a + "." + b + "." + c == a + "." + (b + "." + c);
    }
  }

  /** No enclosing scope longer than `bound` declares `name`. */
  ghost predicate NoneInside(name: string, scope: string, bound: int, symbols: Symbols) {
    forall q :: Encloses(q, scope) && |q| > bound ==> JoinName(q, name) !in symbols
  }

  /** `s` is what `name` written in `scope` stands for: itself when absolute, else the innermost enclosing match. */
  ghost predicate StandsFor(name: string, scope: string, symbols: Symbols, s: string) {
    && s in symbols
    && if name != "" && name[0] == '.' then s == name[1..]
       else exists p :: Encloses(p, scope) && s == JoinName(p, name) && NoneInside(name, scope, |p|, symbols)
  }

  lemma {:induction false} LookupInnermost(name: string, scope: string, symbols: Symbols)
    ensures var r := LookupFrom(name, scope, symbols);
            match r
            case None => NoneInside(name, scope, -1, symbols)
            case Some(found) =>
              && found.0 in symbols && found.1 == symbols[found.0]
              && exists p :: Encloses(p, scope) && found.0 == JoinName(p, name) && NoneInside(name, scope, |p|, symbols)
    decreases |scope|
  {
    if JoinName(scope, name) in symbols {
      assert Encloses(scope, scope);
    } else if LastIndex(scope, '.') >= 0 {
      var up := Parent(scope);
      LookupInnermost(name, up, symbols);
      forall q ensures Encloses(q, scope) <==> q == scope || Encloses(q, up) {
        EnclosingScopes(q, scope);
      }
      var r := LookupFrom(name, up, symbols);
      if r.Some? {
        var p :| Encloses(p, up) && r.value.0 == JoinName(p, name) && NoneInside(name, up, |p|, symbols);
        assert Encloses(p, scope) && NoneInside(name, scope, |p|, symbols);
      }
    } else {
      forall q ensures Encloses(q, scope) <==> q == scope || q == "" {
        NoAncestors(q, scope);
      }
      if name in symbols {
        assert Encloses("", scope) && JoinName("", name) == name && NoneInside(name, scope, 0, symbols);
      }
    }
  }

  /** Two references stand for at most one symbol: resolution is a function of scope and spelling. */
  lemma StandsForUnique(name: string, scope: string, symbols: Symbols, s: string, t: string)
    requires StandsFor(name, scope, symbols, s) && StandsFor(name, scope, symbols, t)
    ensures s == t
  {
    if !(name != "" && name[0] == '.') {
      var p :| Encloses(p, scope) && s == JoinName(p, name) && NoneInside(name, scope, |p|, symbols);
      var q :| Encloses(q, scope) && t == JoinName(q, name) && NoneInside(name, scope, |q|, symbols);
      assert |p| == |q|;
      SameLengthScopes(p, q, scope);
    }
  }

  lemma SameLengthScopes(p: string, q: string, scope: string)
    requires Encloses(p, scope) && Encloses(q, scope) && |p| == |q|
    ensures p == q
  {
    assert p == scope[..|p|] && q == scope[..|q|];
  }

  /** The lookup answers exactly when some symbol is meant, and answers with that symbol and its kind. */
  lemma ResolveNameCorrect(name: string, scope: string, symbols: Symbols)
    ensures forall s :: ResolveName(name, scope, symbols).Some? && ResolveName(name, scope, symbols).value.0 == s
                   <==> StandsFor(name, scope, symbols, s)
    ensures ResolveName(name, scope, symbols).Some? ==>
              var found := ResolveName(name, scope, symbols).value;
              found.0 in symbols && found.1 == symbols[found.0]
  {
    if !(name != "" && name[0] == '.') {
      LookupInnermost(name, scope, symbols);
      forall s | StandsFor(name, scope, symbols, s)
        ensures ResolveName(name, scope, symbols).Some? && ResolveName(name, scope, symbols).value.0 == s
      {
        var r := LookupFrom(name, scope, symbols);
        if r.Some? {
          StandsForUnique(name, scope, symbols, s, r.value.0);
        }
      }
    }
  }

  // ----- rewriting the references -----

  function KindOf(current: Option<FieldType>, kind: SymbolKind): FieldType {
    if kind == EnumSymbol then TEnum else if current == Some(TGroup) then TGroup else TMessage
  }

  function ResolveField(f: Field, scope: string, symbols: Symbols): Result<Field, ResolveError> {
    if f.typeName.None? then Success(f)
    else
      match ResolveName(f.typeName.value, scope, symbols)
      case None => Failure(Unresolved(f.typeName.value))
      case Some(found) =>
        Success(f.(typeName := Some("." + found.0), fieldType := Some(KindOf(f.fieldType, found.1))))
  }

  function ResolveReference(r: Option<string>, scope: string, symbols: Symbols): Result<Option<string>, ResolveError> {
    if r.None? then Success(None)
    else
      match ResolveName(r.value, scope, symbols)
      case None => Failure(Unresolved(r.value))
      case Some(found) =>
        if found.1 == MessageSymbol then Success(Some("." + found.0)) else Failure(NotAMessage(r.value))
  }

  function ResolveExtension(f: Field, scope: string, symbols: Symbols): Result<Field, ResolveError> {
    var typed :- ResolveField(f, scope, symbols);
    var extendee :- ResolveReference(typed.extendee, scope, symbols);
    Success(typed.(extendee := extendee))
  }

  function ResolveMethod(m: RpcMethod, scope: string, symbols: Symbols): Result<RpcMethod, ResolveError> {
    var input :- ResolveReference(m.inputType, scope, symbols);
    var output :- ResolveReference(m.outputType, scope, symbols);
    Success(m.(inputType := input, outputType := output))
  }

  /** Apply a fallible rewrite to each element, stopping at the first failure. */
  function Each<T>(xs: seq<T>, f: T -> Result<T, ResolveError>): (r: Result<seq<T>, ResolveError>)
    ensures r.Success? ==> |r.value| == |xs| && forall i :: 0 <= i < |xs| ==> f(xs[i]) == Success(r.value[i])
    ensures r.Success? <==> forall i :: 0 <= i < |xs| ==> f(xs[i]).Success?
  {
    if xs == [] then Success([])
    else
      match f(xs[0])
      case Failure(e) => Failure(e)
      case Success(head) =>
        var rest := Each(xs[1..], f);
        assert forall i :: 0 <= i < |xs[1..]| ==> xs[1..][i] == xs[i + 1];
        match rest
        case Failure(e) => Failure(e)
        case Success(tail) => Success([head] + tail)
  }

  function ResolveMessageTypes(m: Message, scope: string, symbols: Symbols): (r: Result<Message, ResolveError>)
    decreases m, 1
  {
    var field :- Each(m.field, (f: Field) => ResolveField(f, scope, symbols));
    var extension :- Each(m.extension, (f: Field) => ResolveExtension(f, scope, symbols));
    var nested :- ResolveNested(m.nestedType, scope, symbols);
    Success(m.(field := field, extension := extension, nestedType := nested))
  }

  /** Each message resolves in the scope its own name opens. */
  function ResolveNested(ms: seq<Message>, scope: string, symbols: Symbols): (r: Result<seq<Message>, ResolveError>)
    ensures r.Success? ==> |r.value| == |ms|
    decreases ms, 0
  {
    if ms == [] then Success([])
    else
      var head :- ResolveMessageTypes(ms[0], JoinName(scope, MessageName(ms[0])), symbols);
      var tail :- ResolveNested(ms[1..], scope, symbols);
      Success([head] + tail)
  }

  function ResolveService(s: Service, package: string, symbols: Symbols): Result<Service, ResolveError> {
    var rpcs :- Each(s.rpcs, (m: RpcMethod) => ResolveMethod(m, package, symbols));
    Success(s.(rpcs := rpcs))
  }

  function ResolveFile(file: FileDescriptor, symbols: Symbols): Result<FileDescriptor, ResolveError> {
    var package := file.package.GetOr("");
    var messages :- ResolveNested(file.messageType, package, symbols);
    var extension :- Each(file.extension, (f: Field) => ResolveExtension(f, package, symbols));
    var services :- Each(file.service, (s: Service) => ResolveService(s, package, symbols));
    Success(file.(messageType := messages, extension := extension, service := services))
  }

  function ResolveNamedTypes(files: seq<FileDescriptor>): Result<seq<FileDescriptor>, ResolveError> {
    var symbols :- RegisterFiles(files, map[]);
    Each(files, (file: FileDescriptor) => ResolveFile(file, symbols))
  }

  // ----- what success means -----

  /** An enum field for an enum; for a message the group it was, or else a message field. */
  predicate KindFits(written: Option<FieldType>, kind: SymbolKind, ty: Option<FieldType>) {
    && (ty == Some(TEnum) <==> kind == EnumSymbol)
    && (ty == Some(TGroup) <==> kind == MessageSymbol && written == Some(TGroup))
    && (ty == Some(TMessage) <==> kind == MessageSymbol && written != Some(TGroup))
  }

  ghost predicate FieldResolved(f: Field, g: Field, scope: string, symbols: Symbols) {
    if f.typeName.None? then g == f
    else
      && g.typeName.Some? && |g.typeName.value| > 0 && g.typeName.value[0] == '.'
      && var s := g.typeName.value[1..];
         && StandsFor(f.typeName.value, scope, symbols, s)
         && g == f.(typeName := g.typeName, fieldType := g.fieldType) && KindFits(f.fieldType, symbols[s], g.fieldType)
  }

  ghost predicate ReferenceResolved(r: Option<string>, t: Option<string>, scope: string, symbols: Symbols) {
    if r.None? then t.None?
    else
      && t.Some? && |t.value| > 0 && t.value[0] == '.'
      && StandsFor(r.value, scope, symbols, t.value[1..])
      && symbols[t.value[1..]] == MessageSymbol
  }

  ghost predicate ExtensionResolved(f: Field, g: Field, scope: string, symbols: Symbols) {
    && FieldResolved(f, g.(extendee := f.extendee), scope, symbols)
    && ReferenceResolved(f.extendee, g.extendee, scope, symbols)
  }

  ghost predicate MethodResolved(m: RpcMethod, n: RpcMethod, scope: string, symbols: Symbols) {
    && n == m.(inputType := n.inputType, outputType := n.outputType)
    && ReferenceResolved(m.inputType, n.inputType, scope, symbols)
    && ReferenceResolved(m.outputType, n.outputType, scope, symbols)
  }

  /** Every field type and extendee of `m`, at any depth, was replaced by the absolute name it stands for. */
  ghost predicate MessageResolved(m: Message, n: Message, scope: string, symbols: Symbols)
    decreases m, 1
  {
    && |n.field| == |m.field| && |n.extension| == |m.extension|
    && n == m.(field := n.field, extension := n.extension, nestedType := n.nestedType)
    && (forall i :: 0 <= i < |m.field| ==> FieldResolved(m.field[i], n.field[i], scope, symbols))
    && (forall i :: 0 <= i < |m.extension| ==> ExtensionResolved(m.extension[i], n.extension[i], scope, symbols))
    && NestedResolved(m.nestedType, n.nestedType, scope, symbols)
  }

  ghost predicate NestedResolved(ms: seq<Message>, ns: seq<Message>, scope: string, symbols: Symbols)
    decreases ms, 0
  {
    if ms == [] then ns == []
    else
      && ns != []
      && MessageResolved(ms[0], ns[0], JoinName(scope, MessageName(ms[0])), symbols)
      && NestedResolved(ms[1..], ns[1..], scope, symbols)
  }

  ghost predicate ServiceResolved(s: Service, t: Service, package: string, symbols: Symbols) {
    && |t.rpcs| == |s.rpcs| && t == s.(rpcs := t.rpcs)
    && forall j :: 0 <= j < |s.rpcs| ==> MethodResolved(s.rpcs[j], t.rpcs[j], package, symbols)
  }

  ghost predicate FileResolved(file: FileDescriptor, out: FileDescriptor, symbols: Symbols) {
    var package := file.package.GetOr("");
    && |out.extension| == |file.extension| && |out.service| == |file.service|
    && out == file.(messageType := out.messageType, extension := out.extension, service := out.service)
    && NestedResolved(file.messageType, out.messageType, package, symbols)
    && (forall i :: 0 <= i < |file.extension| ==>
          ExtensionResolved(file.extension[i], out.extension[i], package, symbols))
    && (forall i :: 0 <= i < |file.service| ==> ServiceResolved(file.service[i], out.service[i], package, symbols))
  }

  lemma ResolveFieldSound(f: Field, scope: string, symbols: Symbols)
    ensures ResolveField(f, scope, symbols).Success? ==>
              FieldResolved(f, ResolveField(f, scope, symbols).value, scope, symbols)
  {
    if f.typeName.Some? && ResolveField(f, scope, symbols).Success? {
      ResolveNameCorrect(f.typeName.value, scope, symbols);
      var found := ResolveName(f.typeName.value, scope, symbols).value;
      assert ("." + found.0)[1..] == found.0;
    }
  }

  lemma ResolveReferenceSound(r: Option<string>, scope: string, symbols: Symbols)
    ensures ResolveReference(r, scope, symbols).Success? ==>
              ReferenceResolved(r, ResolveReference(r, scope, symbols).value, scope, symbols)
  {
    if r.Some? && ResolveReference(r, scope, symbols).Success? {
      ResolveNameCorrect(r.value, scope, symbols);
      var found := ResolveName(r.value, scope, symbols).value;
      assert ("." + found.0)[1..] == found.0;
    }
  }

  lemma ResolveExtensionSound(f: Field, scope: string, symbols: Symbols)
    ensures ResolveExtension(f, scope, symbols).Success? ==>
              ExtensionResolved(f, ResolveExtension(f, scope, symbols).value, scope, symbols)
  {
    ResolveFieldSound(f, scope, symbols);
    ResolveReferenceSound(f.extendee, scope, symbols);
  }

  lemma {:induction false} ResolveMessageSound(m: Message, scope: string, symbols: Symbols)
    requires ResolveMessageTypes(m, scope, symbols).Success?
    ensures MessageResolved(m, ResolveMessageTypes(m, scope, symbols).value, scope, symbols)
    decreases m, 1
  {
    var n := ResolveMessageTypes(m, scope, symbols).value;
    forall i | 0 <= i < |m.field| ensures FieldResolved(m.field[i], n.field[i], scope, symbols) {
      ResolveFieldSound(m.field[i], scope, symbols);
    }
    forall i | 0 <= i < |m.extension| ensures ExtensionResolved(m.extension[i], n.extension[i], scope, symbols) {
      ResolveExtensionSound(m.extension[i], scope, symbols);
    }
    ResolveNestedSound(m.nestedType, scope, symbols);
  }

  lemma {:induction false} ResolveNestedSound(ms: seq<Message>, scope: string, symbols: Symbols)
    requires ResolveNested(ms, scope, symbols).Success?
    ensures NestedResolved(ms, ResolveNested(ms, scope, symbols).value, scope, symbols)
    decreases ms, 0
  {
    if ms != [] {
      ResolveMessageSound(ms[0], JoinName(scope, MessageName(ms[0])), symbols);
      ResolveNestedSound(ms[1..], scope, symbols);
      var ns := ResolveNested(ms, scope, symbols).value;
      assert ns[1..] == ResolveNested(ms[1..], scope, symbols).value;
    }
  }

  lemma ResolveServiceSound(s: Service, package: string, symbols: Symbols)
    requires ResolveService(s, package, symbols).Success?
    ensures ServiceResolved(s, ResolveService(s, package, symbols).value, package, symbols)
  {
    var t := ResolveService(s, package, symbols).value;
    forall j | 0 <= j < |s.rpcs| ensures MethodResolved(s.rpcs[j], t.rpcs[j], package, symbols) {
      ResolveReferenceSound(s.rpcs[j].inputType, package, symbols);
      ResolveReferenceSound(s.rpcs[j].outputType, package, symbols);
    }
  }

  lemma ResolveFileSound(file: FileDescriptor, symbols: Symbols)
    requires ResolveFile(file, symbols).Success?
    ensures FileResolved(file, ResolveFile(file, symbols).value, symbols)
  {
    var package := file.package.GetOr("");
    var out := ResolveFile(file, symbols).value;
    ResolveNestedSound(file.messageType, package, symbols);
    forall i | 0 <= i < |file.extension|
      ensures ExtensionResolved(file.extension[i], out.extension[i], package, symbols)
    {
      ResolveExtensionSound(file.extension[i], package, symbols);
    }
    forall i | 0 <= i < |file.service| ensures ServiceResolved(file.service[i], out.service[i], package, symbols) {
      ResolveServiceSound(file.service[i], package, symbols);
    }
  }

  /** When resolution of a closure succeeds, every reference in it was replaced by the absolute name it stands for. */
  lemma ResolveNamedTypesSound(files: seq<FileDescriptor>)
    requires ResolveNamedTypes(files).Success?
    ensures RegisterFiles(files, map[]).Success?
    ensures var out := ResolveNamedTypes(files).value;
            |out| == |files| &&
            forall i :: 0 <= i < |files| ==> FileResolved(files[i], out[i], RegisterFiles(files, map[]).value)
  {
    var symbols := RegisterFiles(files, map[]).value;
    forall i | 0 <= i < |files|
      ensures FileResolved(files[i], ResolveNamedTypes(files).value[i], symbols)
    {
      ResolveFileSound(files[i], symbols);
    }
  }

  // ----- a second resolution changes nothing -----

  lemma {:induction false} EachFixed<T(!new)>(xs: seq<T>, f: T -> Result<T, ResolveError>)
    requires forall i :: 0 <= i < |xs| ==> f(xs[i]) == Success(xs[i])
    ensures Each(xs, f) == Success(xs)
  {
    var r := Each(xs, f);
    assert r.Success? && r.value == xs;
  }

  lemma ResolvedFieldFixed(f: Field, g: Field, scope: string, again: string, symbols: Symbols)
    requires FieldResolved(f, g, scope, symbols)
    ensures ResolveField(g, again, symbols) == Success(g)
  {
    if f.typeName.Some? {
      var s := g.typeName.value[1..];
      assert g.typeName.value == "." + s;
    }
  }

  lemma ResolvedReferenceFixed(r: Option<string>, t: Option<string>, scope: string, again: string, symbols: Symbols)
    requires ReferenceResolved(r, t, scope, symbols)
    ensures ResolveReference(t, again, symbols) == Success(t)
  {
    if r.Some? {
      assert t.value == "." + t.value[1..];
    }
  }

  lemma ResolvedExtensionFixed(f: Field, g: Field, scope: string, again: string, symbols: Symbols)
    requires ExtensionResolved(f, g, scope, symbols)
    ensures ResolveExtension(g, again, symbols) == Success(g)
  {
    var h := g.(extendee := f.extendee);
    ResolvedFieldFixed(f, h, scope, again, symbols);
    assert ResolveField(g, again, symbols) == Success(g);
    ResolvedReferenceFixed(f.extendee, g.extendee, scope, again, symbols);
  }

  lemma {:induction false} ResolvedMessageFixed(m: Message, n: Message, scope: string, again: string, symbols: Symbols)
    requires MessageResolved(m, n, scope, symbols)
    ensures ResolveMessageTypes(n, again, symbols) == Success(n)
    decreases m, 1
  {
    forall i | 0 <= i < |n.field| ensures ResolveField(n.field[i], again, symbols) == Success(n.field[i]) {
      ResolvedFieldFixed(m.field[i], n.field[i], scope, again, symbols);
    }
    EachFixed(n.field, (f: Field) => ResolveField(f, again, symbols));
    forall i | 0 <= i < |n.extension|
      ensures ResolveExtension(n.extension[i], again, symbols) == Success(n.extension[i])
    {
      ResolvedExtensionFixed(m.extension[i], n.extension[i], scope, again, symbols);
    }
    EachFixed(n.extension, (f: Field) => ResolveExtension(f, again, symbols));
    ResolvedNestedFixed(m.nestedType, n.nestedType, scope, again, symbols);
  }

  lemma {:induction false} ResolvedNestedFixed(ms: seq<Message>, ns: seq<Message>, scope: string, again: string,
                                               symbols: Symbols)
    requires NestedResolved(ms, ns, scope, symbols)
    ensures ResolveNested(ns, again, symbols) == Success(ns)
    decreases ms, 0
  {
    if ms != [] {
      ResolvedMessageFixed(ms[0], ns[0], JoinName(scope, MessageName(ms[0])), JoinName(again, MessageName(ns[0])),
                           symbols);
      ResolvedNestedFixed(ms[1..], ns[1..], scope, again, symbols);
      assert ns == [ns[0]] + ns[1..];
    }
  }

  lemma ResolvedServiceFixed(s: Service, t: Service, package: string, symbols: Symbols)
    requires ServiceResolved(s, t, package, symbols)
    ensures ResolveService(t, package, symbols) == Success(t)
  {
    forall j | 0 <= j < |t.rpcs| ensures ResolveMethod(t.rpcs[j], package, symbols) == Success(t.rpcs[j]) {
      ResolvedReferenceFixed(s.rpcs[j].inputType, t.rpcs[j].inputType, package, package, symbols);
      ResolvedReferenceFixed(s.rpcs[j].outputType, t.rpcs[j].outputType, package, package, symbols);
    }
    EachFixed(t.rpcs, (m: RpcMethod) => ResolveMethod(m, package, symbols));
  }

  lemma ResolvedFileFixed(file: FileDescriptor, out: FileDescriptor, symbols: Symbols)
    requires FileResolved(file, out, symbols)
    ensures ResolveFile(out, symbols) == Success(out)
  {
    var package := file.package.GetOr("");
    ResolvedNestedFixed(file.messageType, out.messageType, package, package, symbols);
    forall i | 0 <= i < |out.extension|
      ensures ResolveExtension(out.extension[i], package, symbols) == Success(out.extension[i])
    {
      ResolvedExtensionFixed(file.extension[i], out.extension[i], package, package, symbols);
    }
    EachFixed(out.extension, (f: Field) => ResolveExtension(f, package, symbols));
    forall i | 0 <= i < |out.service|
      ensures ResolveService(out.service[i], package, symbols) == Success(out.service[i])
    {
      ResolvedServiceFixed(file.service[i], out.service[i], package, symbols);
    }
    EachFixed(out.service, (s: Service) => ResolveService(s, package, symbols));
  }

  lemma {:induction false} SameMessageSymbols(m: Message, n: Message, scope: string, all: Symbols, parent: string,
                                              symbols: Symbols)
    requires MessageResolved(m, n, scope, all)
    ensures RegisterMessage(n, parent, symbols) == RegisterMessage(m, parent, symbols)
    decreases m, 1
  {
    var name := JoinName(parent, MessageName(m));
    var own := RegisterSymbol(symbols, name, MessageSymbol);
    if own.Success? {
      SameNestedSymbols(m.nestedType, n.nestedType, scope, all, name, own.value);
    }
  }

  lemma {:induction false} SameNestedSymbols(ms: seq<Message>, ns: seq<Message>, scope: string, all: Symbols,
                                             parent: string, symbols: Symbols)
    requires NestedResolved(ms, ns, scope, all)
    ensures RegisterMessages(ns, parent, symbols) == RegisterMessages(ms, parent, symbols)
    decreases ms, 0
  {
    if ms != [] {
      SameMessageSymbols(ms[0], ns[0], JoinName(scope, MessageName(ms[0])), all, parent, symbols);
      var next := RegisterMessage(ms[0], parent, symbols);
      if next.Success? {
        SameNestedSymbols(ms[1..], ns[1..], scope, all, parent, next.value);
      }
    }
  }

  lemma {:induction false} SameFileSymbols(files: seq<FileDescriptor>, outs: seq<FileDescriptor>, all: Symbols,
                                           symbols: Symbols)
    requires |outs| == |files| && forall i :: 0 <= i < |files| ==> FileResolved(files[i], outs[i], all)
    ensures RegisterFiles(outs, symbols) == RegisterFiles(files, symbols)
  {
    if files != [] {
      var package := files[0].package.GetOr("");
      SameNestedSymbols(files[0].messageType, outs[0].messageType, package, all, package, symbols);
      var next := RegisterFile(files[0], symbols);
      if next.Success? {
        SameFileSymbols(files[1..], outs[1..], all, next.value);
      }
    }
  }

  /** Resolving a resolved closure gives it back unchanged. */
  lemma ResolveNamedTypesIdempotent(files: seq<FileDescriptor>)
    requires ResolveNamedTypes(files).Success?
    ensures ResolveNamedTypes(ResolveNamedTypes(files).value) == ResolveNamedTypes(files)
  {
    ResolveNamedTypesSound(files);
    var symbols := RegisterFiles(files, map[]).value;
    var out := ResolveNamedTypes(files).value;
    SameFileSymbols(files, out, symbols, map[]);
    forall i | 0 <= i < |out| ensures ResolveFile(out[i], symbols) == Success(out[i]) {
      ResolvedFileFixed(files[i], out[i], symbols);
    }
    EachFixed(out, (file: FileDescriptor) => ResolveFile(file, symbols));
  }

  // ----- when resolution succeeds -----

  ghost predicate Meant(r: Option<string>, scope: string, symbols: Symbols) {
    r.Some? ==> exists s :: StandsFor(r.value, scope, symbols, s)
  }

  ghost predicate MeantMessage(r: Option<string>, scope: string, symbols: Symbols) {
    r.Some? ==> exists s :: StandsFor(r.value, scope, symbols, s) && symbols[s] == MessageSymbol
  }

  /** Every reference in `m`, at any depth, stands for a symbol, and every extendee for a message. */
  ghost predicate MessageMeant(m: Message, scope: string, symbols: Symbols)
    decreases m, 1
  {
    && (forall i :: 0 <= i < |m.field| ==> Meant(m.field[i].typeName, scope, symbols))
    && (forall i :: 0 <= i < |m.extension| ==>
          Meant(m.extension[i].typeName, scope, symbols) && MeantMessage(m.extension[i].extendee, scope, symbols))
    && NestedMeant(m.nestedType, scope, symbols)
  }

  ghost predicate NestedMeant(ms: seq<Message>, scope: string, symbols: Symbols)
    decreases ms, 0
  {
    ms == [] ||
    (MessageMeant(ms[0], JoinName(scope, MessageName(ms[0])), symbols) && NestedMeant(ms[1..], scope, symbols))
  }

  ghost predicate FileMeant(file: FileDescriptor, symbols: Symbols) {
    var package := file.package.GetOr("");
    && NestedMeant(file.messageType, package, symbols)
    && (forall i :: 0 <= i < |file.extension| ==>
          && Meant(file.extension[i].typeName, package, symbols)
          && MeantMessage(file.extension[i].extendee, package, symbols))
    && (forall i, j :: 0 <= i < |file.service| && 0 <= j < |file.service[i].rpcs| ==>
          MeantMessage(file.service[i].rpcs[j].inputType, package, symbols)
          && MeantMessage(file.service[i].rpcs[j].outputType, package, symbols))
  }

  lemma ResolveFieldExactly(f: Field, scope: string, symbols: Symbols)
    ensures ResolveField(f, scope, symbols).Success? <==> Meant(f.typeName, scope, symbols)
  {
    if f.typeName.Some? {
      ResolveNameCorrect(f.typeName.value, scope, symbols);
      var found := ResolveName(f.typeName.value, scope, symbols);
      if found.Some? {
        assert StandsFor(f.typeName.value, scope, symbols, found.value.0);
      }
    }
  }

  lemma ResolveReferenceExactly(r: Option<string>, scope: string, symbols: Symbols)
    ensures ResolveReference(r, scope, symbols).Success? <==> MeantMessage(r, scope, symbols)
  {
    if r.Some? {
      ResolveNameCorrect(r.value, scope, symbols);
      var found := ResolveName(r.value, scope, symbols);
      if found.Some? {
        assert StandsFor(r.value, scope, symbols, found.value.0);
      }
    }
  }

  lemma ResolveExtensionExactly(f: Field, scope: string, symbols: Symbols)
    ensures ResolveExtension(f, scope, symbols).Success?
       <==> Meant(f.typeName, scope, symbols) && MeantMessage(f.extendee, scope, symbols)
  {
    ResolveFieldExactly(f, scope, symbols);
    ResolveReferenceExactly(f.extendee, scope, symbols);
  }

  lemma {:induction false} ResolveMessageExactly(m: Message, scope: string, symbols: Symbols)
    ensures ResolveMessageTypes(m, scope, symbols).Success? <==> MessageMeant(m, scope, symbols)
    decreases m, 1
  {
    forall f: Field ensures ResolveField(f, scope, symbols).Success? <==> Meant(f.typeName, scope, symbols) {
      ResolveFieldExactly(f, scope, symbols);
    }
    forall f: Field
      ensures ResolveExtension(f, scope, symbols).Success?
         <==> Meant(f.typeName, scope, symbols) && MeantMessage(f.extendee, scope, symbols)
    {
      ResolveExtensionExactly(f, scope, symbols);
    }
    ResolveNestedExactly(m.nestedType, scope, symbols);
  }

  lemma {:induction false} ResolveNestedExactly(ms: seq<Message>, scope: string, symbols: Symbols)
    ensures ResolveNested(ms, scope, symbols).Success? <==> NestedMeant(ms, scope, symbols)
    decreases ms, 0
  {
    if ms != [] {
      ResolveMessageExactly(ms[0], JoinName(scope, MessageName(ms[0])), symbols);
      ResolveNestedExactly(ms[1..], scope, symbols);
    }
  }

  lemma ResolveServiceExactly(s: Service, package: string, symbols: Symbols)
    ensures ResolveService(s, package, symbols).Success?
       <==> forall j :: 0 <= j < |s.rpcs| ==>
              && MeantMessage(s.rpcs[j].inputType, package, symbols)
              && MeantMessage(s.rpcs[j].outputType, package, symbols)
  {
    forall m: RpcMethod
      ensures ResolveMethod(m, package, symbols).Success?
         <==> MeantMessage(m.inputType, package, symbols) && MeantMessage(m.outputType, package, symbols)
    {
      ResolveReferenceExactly(m.inputType, package, symbols);
      ResolveReferenceExactly(m.outputType, package, symbols);
    }
  }

  /** A file resolves exactly when every reference in it stands for a symbol of the right kind. */
  lemma ResolveFileExactly(file: FileDescriptor, symbols: Symbols)
    ensures ResolveFile(file, symbols).Success? <==> FileMeant(file, symbols)
  {
    var package := file.package.GetOr("");
    ResolveNestedExactly(file.messageType, package, symbols);
    forall f: Field
      ensures ResolveExtension(f, package, symbols).Success?
         <==> Meant(f.typeName, package, symbols) && MeantMessage(f.extendee, package, symbols)
    {
      ResolveExtensionExactly(f, package, symbols);
    }
    forall i | 0 <= i < |file.service|
      ensures ResolveService(file.service[i], package, symbols).Success?
         <==> forall j :: 0 <= j < |file.service[i].rpcs| ==>
                MeantMessage(file.service[i].rpcs[j].inputType, package, symbols)
                && MeantMessage(file.service[i].rpcs[j].outputType, package, symbols)
    {
      ResolveServiceExactly(file.service[i], package, symbols);
    }
  }

  /**
   A closure resolves exactly when every absolute name is non-empty and declared once and every reference in every file
   stands for a declaration of the right kind.
   */
  lemma ResolveNamedTypesExactly(files: seq<FileDescriptor>)
    ensures ResolveNamedTypes(files).Success? <==>
            && DeclaredOnce(AllDeclarations(files), map[])
            && forall i :: 0 <= i < |files| ==> FileMeant(files[i], Table(AllDeclarations(files)))
  {
    RegisterFilesExactly(files);
    var symbols := Table(AllDeclarations(files));
    forall i | 0 <= i < |files| ensures ResolveFile(files[i], symbols).Success? <==> FileMeant(files[i], symbols) {
      ResolveFileExactly(files[i], symbols);
    }
  }
}
