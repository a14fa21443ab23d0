/**
 OpenAPI component references: parsing, canonical rendering, the compact stored form, and the JSON Pointer escapes of
 section 3 of RFC 6901.
 */
module OpenApiReference {
  import opened Wrappers
  import opened Text

  datatype ComponentReference = Local(name: string) | External(path: string, commit: string, declName: string)

  datatype RefError = UnsupportedReference | UnsupportedPath | BadName | BadStored

  // ----- pointer segments -----

  /** `replace`: every `c` becomes `with`. */
  function Replace(s: string, c: char, with: string): string {
    if s == "" then "" else (if s[0] == c then with else [s[0]]) + Replace(s[1..], c, with)
  }

  /** The two passes the renderer makes. */
  function EncodeSegment(name: string): string {
    Replace(Replace(name, '~', "~0"), '/', "~1")
  }

  /** Section 3 of RFC 6901: each `~` and each `/` escaped where it stands. */
  function Escape(name: string): string {
    if name == "" then ""
    else (if name[0] == '~' then "~0" else if name[0] == '/' then "~1" else [name[0]]) + Escape(name[1..])
  }

  lemma {:induction false} ReplaceConcat(a: string, b: string, c: char, with: string)
    ensures Replace(a + b, c, with) == Replace(a, c, with) + Replace(b, c, with)
  {
    if a == "" {
      assert a + b == b;
    } else {
      ReplaceConcat(a[1..], b, c, with);
      assert (a + b)[0] == a[0] && (a + b)[1..] == a[1..] + b;
      var head := if a[0] == c then with else [a[0]];
      assert Replace(a + b, c, with) == head + Replace(a[1..] + b, c, with);
      assert head + (Replace(a[1..], c, with) + Replace(b, c, with))
        == (head + Replace(a[1..], c, with)) + Replace(b, c, with);
    }
  }

  /** The two passes do not disturb each other. */
  lemma {:induction false} TwoPassIsOnePass(name: string)
    ensures EncodeSegment(name) == Escape(name)
  {
    if name != "" {
      TwoPassIsOnePass(name[1..]);
      var first := if name[0] == '~' then "~0" else [name[0]];
      ReplaceConcat(first, Replace(name[1..], '~', "~0"), '/', "~1");
      ReplaceShort(first);
    }
  }

  lemma ReplaceShort(s: string)
    requires s == "~0" || (|s| == 1 && s != "~")
    ensures Replace(s, '/', "~1") == if s == "/" then "~1" else s
  {}

  /** Undo the escapes; none for a `~` followed by anything but 0 or 1. */
  function Unescape(s: string): Option<string>
    decreases |s|
  {
    if s == "" then Some("")
    else if s[0] != '~' then
      var rest :- Unescape(s[1..]);
      Some([s[0]] + rest)
    else if |s| >= 2 && (s[1] == '0' || s[1] == '1') then
      var rest :- Unescape(s[2..]);
      Some([if s[1] == '0' then '~' else '/'] + rest)
    else None
  }

  lemma {:induction false} UnescapeEscape(name: string)
    ensures Unescape(Escape(name)) == Some(name)
    ensures '/' !in Escape(name)
    ensures '#' in Escape(name) <==> '#' in name
    ensures Escape(name) == "" <==> name == ""
  {
    if name != "" {
      UnescapeEscape(name[1..]);
      var e := Escape(name);
      if name[0] == '~' || name[0] == '/' {
        assert e[2..] == Escape(name[1..]);
      } else {
        assert e[1..] == Escape(name[1..]);
      }
      assert name == [name[0]] + name[1..];
    }
  }

  lemma {:induction false} EscapeUnescape(s: string)
    requires '/' !in s && Unescape(s).Some?
    ensures Escape(Unescape(s).value) == s
    ensures s != "" ==> Unescape(s).value != ""
    decreases |s|
  {
    if s != "" {
      var name := Unescape(s).value;
      if s[0] != '~' {
        EscapeUnescape(s[1..]);
        assert name[1..] == Unescape(s[1..]).value;
        assert s == [s[0]] + s[1..];
      } else {
        EscapeUnescape(s[2..]);
        assert name[1..] == Unescape(s[2..]).value;
        assert s == s[..2] + s[2..];
      }
    }
  }

  function DecodedName(encoded: string): Result<string, RefError> {
    if encoded == "" || '/' in encoded || '#' in encoded then Failure(BadName)
    else
      match Unescape(encoded)
      case Some(name) => Success(name)
      case None => Failure(BadName)
  }

  function Behind(s: string, rest: Option<string>): Option<string> {
    if rest.Some? then Some(s + rest.value) else None
  }

  lemma BehindNothing(rest: Option<string>)
    ensures Behind("", rest) == rest
  {
    if rest.Some? {
      assert "" + rest.value == rest.value;
    }
  }

  lemma BehindOne(s: string, c: char, rest: Option<string>)
    ensures Behind(s, Behind([c], rest)) == Behind(s + [c], rest)
  {
    if rest.Some? {
      assert s + ([c] + rest.value) == s + [c] + rest.value;
    }
  }

  /** `decode_component_name`: one character at a time. */
  method DecodeComponentName(encoded: string) returns (r: Result<string, RefError>)
    ensures r == DecodedName(encoded)
  {
    if encoded == "" || '/' in encoded || '#' in encoded {
      return Failure(BadName);
    }
    var decoded, i := "", 0;
    assert encoded[0..] == encoded;
    BehindNothing(Unescape(encoded));
    while i < |encoded|
      invariant 0 <= i <= |encoded|
      invariant Unescape(encoded) == Behind(decoded, Unescape(encoded[i..]))
    {
      ghost var before := decoded;
      var c := encoded[i];
      i := i + 1;
      if c != '~' {
        assert encoded[i - 1..][1..] == encoded[i..];
        decoded := decoded + [c];
        BehindOne(before, c, Unescape(encoded[i..]));
      } else {
        if i == |encoded| {
          return Failure(BadName);
        }
        assert encoded[i - 1..][2..] == encoded[i + 1..];
        if encoded[i] == '0' {
          decoded := decoded + ['~'];
        } else if encoded[i] == '1' {
          decoded := decoded + ['/'];
        } else {
          return Failure(BadName);
        }
        i := i + 1;
        BehindOne(before, decoded[|before|], Unescape(encoded[i..]));
      }
    }
    assert decoded + "" == decoded;
    return Success(decoded);
  }

  // ----- references -----

  function LocalPrefix(component: string): string { "#/components/" + component + "/" }

  /** A path inside the registry: relative, no scheme, query, blank, control character or empty segment. */
  predicate ValidPath(path: string) {
    && path != "" && path[0] != '/' && ':' !in path && '?' !in path && '\\' !in path
    && (forall i :: 0 <= i < |path| ==> !IsControl(path[i]) && !IsWhitespace(path[i]))
    && "" !in Split(path, '/')
  }

  /** An empty segment: a slash at either end, or two in a row. */
  ghost predicate EmptySegment(path: string) {
    || path == "" || path[0] == '/' || path[|path| - 1] == '/'
    || exists i :: 0 <= i < |path| - 1 && path[i] == '/' && path[i + 1] == '/'
  }

  /** An empty segment other than the first one. */
  ghost predicate EmptyAfter(path: string) {
    || (path != "" && path[|path| - 1] == '/')
    || exists i :: 0 <= i < |path| - 1 && path[i] == '/' && path[i + 1] == '/'
  }

  lemma FirstSegment(path: string)
    ensures Split(path, '/')[0] == "" <==> path == "" || path[0] == '/'
  {}

  lemma {:induction false} LaterEmpty(path: string)
    ensures "" in Split(path, '/')[1..] <==> EmptyAfter(path)
    decreases |path|
  {
    if path != "" {
      var rest := path[1..];
      var r := Split(rest, '/');
      LaterEmpty(rest);
      FirstSegment(rest);
      assert r == [r[0]] + r[1..];
      if path[0] == '/' {
        assert Split(path, '/')[1..] == r;
        if i :| 0 <= i < |path| - 1 && path[i] == '/' && path[i + 1] == '/' {
          assert i > 0 ==> rest[i - 1] == '/' && rest[i] == '/';
        }
        if i :| 0 <= i < |rest| - 1 && rest[i] == '/' && rest[i + 1] == '/' {
          assert path[i + 1] == '/' && path[i + 2] == '/';
        }
        assert rest != "" && rest[0] == '/' ==> path[0] == '/' && path[1] == '/';
      } else {
        assert Split(path, '/')[1..] == r[1..];
        LaterMoved(path);
      }
    }
  }

  lemma LaterMoved(path: string)
    requires path != "" && path[0] != '/'
    ensures EmptyAfter(path[1..]) <==> EmptyAfter(path)
  {
    var rest := path[1..];
    if i :| 0 <= i < |path| - 1 && path[i] == '/' && path[i + 1] == '/' {
      assert rest[i - 1] == '/' && rest[i] == '/';
    }
    if i :| 0 <= i < |rest| - 1 && rest[i] == '/' && rest[i + 1] == '/' {
      assert path[i + 1] == '/' && path[i + 2] == '/';
    }
  }

  /** A valid path said character by character. */
  lemma ValidPathExactly(path: string)
    ensures ValidPath(path) <==>
            && !EmptySegment(path)
            && forall i :: 0 <= i < |path| ==>
                 path[i] !in {':', '?', '\\'} && !IsControl(path[i]) && !IsWhitespace(path[i])
  {
    var segments := Split(path, '/');
    assert segments == [segments[0]] + segments[1..];
    FirstSegment(path);
    LaterEmpty(path);
  }

  function Parse(reference: string, component: string): Result<ComponentReference, RefError> {
    var local := StripPrefix(reference, LocalPrefix(component));
    if local.Some? then
      var name :- DecodedName(local.value);
      Success(Local(name))
    else if reference != "" && reference[0] == '#' then Failure(UnsupportedReference)
    else
      match FirstIndex(reference, '#')
      case None => Failure(UnsupportedReference)
      case Some(hash) =>
        var path, fragment := reference[..hash], reference[hash + 1..];
        if !ValidPath(path) then Failure(UnsupportedPath)
        else
          match StripPrefix(fragment, LocalPrefix(component)[1..])
          case None => Failure(UnsupportedReference)
          case Some(encoded) =>
            var name :- DecodedName(encoded);
            Success(External(path, "", name))
  }

  function Render(r: ComponentReference, component: string): string {
    match r
    case Local(name) => LocalPrefix(component) + EncodeSegment(name)
    case External(path, _, name) => path + LocalPrefix(component) + EncodeSegment(name)
  }

  lemma DecodedAgain(encoded: string)
    requires DecodedName(encoded).Success?
    ensures EncodeSegment(DecodedName(encoded).value) == encoded
  {
    EscapeUnescape(encoded);
    TwoPassIsOnePass(Unescape(encoded).value);
  }

  lemma AroundHash(s: string, hash: nat, p: string, encoded: string)
    requires hash < |s| && s[hash] == '#' && p != "" && p[0] == '#'
    requires StripPrefix(s[hash + 1..], p[1..]) == Some(encoded)
    ensures s == s[..hash] + p + encoded
  {}

  /** Rendering undoes parsing. */
  lemma RenderParse(s: string, component: string)
    requires Parse(s, component).Success?
    ensures Render(Parse(s, component).value, component) == s
  {
    var p := LocalPrefix(component);
    var local := StripPrefix(s, p);
    if local.Some? {
      DecodedAgain(local.value);
      assert s == p + local.value;
    } else {
      var hash := FirstIndex(s, '#').value;
      var encoded := StripPrefix(s[hash + 1..], p[1..]).value;
      DecodedAgain(encoded);
      AroundHash(s, hash, p, encoded);
    }
  }

  /**
   What can be written as a source reference: a non-empty `#`-free name, and for another file a valid path and no pin.
   */
  predicate Writable(r: ComponentReference) {
    match r
    case Local(name) => name != "" && '#' !in name
    case External(path, commit, name) => ValidPath(path) && '#' !in path && commit == "" && name != "" && '#' !in name
  }

  lemma EncodedName(name: string)
    ensures DecodedName(EncodeSegment(name)) == if name != "" && '#' !in name then Success(name) else Failure(BadName)
  {
    TwoPassIsOnePass(name);
    UnescapeEscape(name);
  }

  lemma ParseLocal(name: string, component: string)
    ensures Parse(Render(Local(name), component), component)
         == if name != "" && '#' !in name then Success(Local(name)) else Failure(BadName)
  {
    var s, p := Render(Local(name), component), LocalPrefix(component);
    assert p <= s && s[|p|..] == EncodeSegment(name);
    EncodedName(name);
  }

  lemma AroundTheHash(path: string, p: string, e: string, s: string)
    requires '#' !in path && path != "" && p != "" && p[0] == '#' && s == path + p + e
    ensures s[0] != '#' && !(p <= s) && FirstIndex(s, '#') == Some(|path|)
    ensures s[..|path|] == path && s[|path| + 1..] == p[1..] + e
  {
    assert s[0] == path[0] && path[0] in path;
    assert s == path + ['#'] + (p[1..] + e);
    FirstIndexAfter(path, '#', p[1..] + e);
  }

  /** A reference with a path is read around its first `#`. */
  lemma ParseAround(path: string, e: string, component: string, s: string)
    requires '#' !in path && path != "" && s == path + LocalPrefix(component) + e
    ensures Parse(s, component)
         == if !ValidPath(path) then Failure(UnsupportedPath)
            else if DecodedName(e).Failure? then Failure(DecodedName(e).error)
            else Success(External(path, "", DecodedName(e).value))
  {
    var p := LocalPrefix(component);
    AroundTheHash(path, p, e, s);
    assert StripPrefix(p[1..] + e, p[1..]) == Some(e);
  }

  lemma ParseExternal(path: string, commit: string, name: string, component: string)
    requires '#' !in path
    ensures Parse(Render(External(path, commit, name), component), component)
         == if path == "" then Parse(Render(Local(name), component), component)
            else if !ValidPath(path) then Failure(UnsupportedPath)
            else if name != "" && '#' !in name then Success(External(path, "", name))
            else Failure(BadName)
  {
    var s := Render(External(path, commit, name), component);
    if path == "" {
      assert s == Render(Local(name), component);
    } else {
      ParseAround(path, EncodeSegment(name), component, s);
      EncodedName(name);
    }
  }

  /** Parsing undoes rendering exactly for the writable references. */
  lemma ParseRenderExactly(r: ComponentReference, component: string)
    ensures Parse(Render(r, component), component) == Success(r) <==> Writable(r)
  {
    match r
    case Local(name) => ParseLocal(name, component);
    case External(path, commit, name) =>
      if '#' in path {
        HashInPath(Render(r, component), component, path);
      } else {
        ParseExternal(path, commit, name, component);
        ParseLocal(name, component);
      }
  }

  /** A parsed path never holds a `#`. */
  lemma HashInPath(s: string, component: string, path: string)
    requires '#' in path
    ensures Parse(s, component).Success? && Parse(s, component).value.External? ==>
              Parse(s, component).value.path != path
  {}

  // ----- what a reference says, without the parser -----

  /** The escape is made character by character: `~` becomes `~0`, `/` becomes `~1`, anything else stays. */
  lemma {:induction false} EscapeByCharacter(a: string, b: string, c: char)
    ensures Escape("") == "" && Escape(a + b) == Escape(a) + Escape(b)
    ensures Escape([c]) == if c == '~' then "~0" else if c == '/' then "~1" else [c]
  {
    assert [c][1..] == "";
    if a == "" {
      assert a + b == b;
    } else {
      EscapeByCharacter(a[1..], b, c);
      assert (a + b)[0] == a[0] && (a + b)[1..] == a[1..] + b;
    }
  }

  /** A name that can be written in a reference. */
  predicate Nameable(name: string) { name != "" && '#' !in name }

  /** The JSON Pointer to a component. */
  function Fragment(component: string, name: string): string { "/components/" + component + "/" + Escape(name) }

  ghost predicate WrittenLocal(s: string, component: string, name: string) {
    Nameable(name) && s == "#" + Fragment(component, name)
  }

  ghost predicate WrittenExternal(s: string, component: string, path: string, name: string) {
    && ValidPath(path) && '#' !in path && Nameable(name)
    && s == path + "#" + Fragment(component, name)
  }

  /** Parsing finds exactly the component that is written. */
  lemma ParseExactly(s: string, component: string, r: ComponentReference)
    ensures Parse(s, component) == Success(r) <==>
            match r
            case Local(name) => WrittenLocal(s, component, name)
            case External(path, commit, name) => commit == "" && WrittenExternal(s, component, path, name)
  {
    RenderedWritten(r, component);
    ParseRenderExactly(r, component);
    if Parse(s, component) == Success(r) {
      RenderParse(s, component);
    }
  }

  lemma PrefixedFragment(component: string, name: string)
    ensures LocalPrefix(component) + EncodeSegment(name) == "#" + Fragment(component, name)
  {
    TwoPassIsOnePass(name);
    assert "#/components/" == "#" + "/components/";
  }

  lemma RenderedWritten(r: ComponentReference, component: string)
    ensures match r
            case Local(name) => Render(r, component) == "#" + Fragment(component, name)
            case External(path, _, name) => Render(r, component) == path + "#" + Fragment(component, name)
  {
    PrefixedFragment(component, if r.Local? then r.name else r.declName);
    if r.External? {
      Regrouped(r.path, LocalPrefix(component), EncodeSegment(r.declName));
      Regrouped(r.path, "#", Fragment(component, r.declName));
    }
  }

  lemma Regrouped(a: string, b: string, c: string)
    ensures a + b + c == a + (b + c)
  {}

  // ----- the stored form -----

  predicate ControlFree(s: string) { forall i :: 0 <= i < |s| ==> !IsControl(s[i]) }

  /** What the parser stores: a local name decoded, anything else as written. */
  function Stored(r: ComponentReference, source: string): string {
    match r
    case Local(name) => name
    case External(_, _, _) => source
  }

  function ParseStored(stored: string, component: string): Result<ComponentReference, RefError> {
    if '#' in stored then Parse(stored, component)
    else if stored == "" || !ControlFree(stored) then Failure(BadStored)
    else Success(Local(stored))
  }

  lemma ParsedName(s: string, component: string)
    requires Parse(s, component).Success? && Parse(s, component).value.Local?
    ensures Parse(s, component).value.name != "" && '#' !in Parse(s, component).value.name
  {
    var encoded := StripPrefix(s, LocalPrefix(component)).value;
    EscapeUnescape(encoded);
    UnescapeEscape(Unescape(encoded).value);
  }

  /**
   The compact form of a parsed reference reads back as that reference exactly when a local name has no control
   character.
   */
  lemma StoredReadsBackExactly(s: string, component: string)
    requires Parse(s, component).Success?
    ensures var r := Parse(s, component).value;
            ParseStored(Stored(r, s), component) == Success(r) <==> (r.Local? ==> ControlFree(r.name))
  {
    var r := Parse(s, component).value;
    if r.Local? {
      ParsedName(s, component);
    } else {
      assert s[FirstIndex(s, '#').value] == '#';
    }
  }

  /** A reference to a schema keeps an import apart from a local name, pin included. */
  datatype SchemaRef = SchemaRef(localName: string, import_: Option<ComponentReference>)

  function StoredSchema(r: ComponentReference): SchemaRef {
    match r
    case Local(name) => SchemaRef(name, None)
    case External(_, _, _) => SchemaRef("", Some(r))
  }

  function ParseStoredSchema(ref: SchemaRef): Result<ComponentReference, RefError> {
    if ref.import_.None? || ref.import_.value.Local? then ParseStored(ref.localName, "schemas")
    else
      var r :- Parse(Render(ref.import_.value, "schemas"), "schemas");
      if r.Local? then Failure(BadStored)
      else Success(r.(commit := ref.import_.value.commit))
  }

  /** A stored import keeps its pin through validation. */
  lemma StoredImportReadsBack(path: string, commit: string, name: string)
    ensures ParseStoredSchema(StoredSchema(External(path, commit, name))) == Success(External(path, commit, name))
            <==> Writable(External(path, "", name))
  {
    ParseRenderExactly(External(path, "", name), "schemas");
    if '#' in path {
      HashInPath(Render(External(path, commit, name), "schemas"), "schemas", path);
    } else {
      ParseExternal(path, commit, name, "schemas");
      ParseLocal(name, "schemas");
    }
  }

  /** A stored value stands for a local component: its name, or the reference written out. */
  ghost predicate StandsForLocal(stored: string, component: string, name: string) {
    || (stored == name && Nameable(name) && ControlFree(name))
    || WrittenLocal(stored, component, name)
  }

  lemma ParseStoredExactly(stored: string, component: string, r: ComponentReference)
    ensures ParseStored(stored, component) == Success(r) <==>
            match r
            case Local(name) => StandsForLocal(stored, component, name)
            case External(path, commit, name) => commit == "" && WrittenExternal(stored, component, path, name)
  {
    ParseExactly(stored, component, r);
    match r
    case Local(name) =>
      assert WrittenLocal(stored, component, name) ==> stored[0] == '#';
    case External(path, _, name) =>
      assert WrittenExternal(stored, component, path, name) ==> stored[|path|] == '#';
  }

  lemma ParseStoredSchemaExactly(ref: SchemaRef, r: ComponentReference)
    ensures ParseStoredSchema(ref) == Success(r) <==>
            if ref.import_.Some? && ref.import_.value.External? then
              r == ref.import_.value && ValidPath(r.path) && '#' !in r.path && Nameable(r.declName)
            else
              match r
              case Local(name) => StandsForLocal(ref.localName, "schemas", name)
              case External(path, commit, name) => commit == "" && WrittenExternal(ref.localName, "schemas", path, name)
  {
    if ref.import_.Some? && ref.import_.value.External? {
      ImportValidated(ref.import_.value);
    } else {
      ParseStoredExactly(ref.localName, "schemas", r);
    }
  }

  ghost predicate OneHash(s: string) {
    forall i, j :: 0 <= i < j < |s| && s[i] == '#' ==> s[j] != '#'
  }

  lemma OneHashBetween(a: string, b: string)
    requires '#' !in a && '#' !in b
    ensures OneHash(a + "#" + b)
  {
    var s := a + "#" + b;
    forall i | 0 <= i < |s| && i != |a| ensures s[i] != '#' {
      assert if i < |a| then s[i] == a[i] else s[i] == b[i - |a| - 1];
    }
  }

  lemma FragmentHasNone(component: string, name: string)
    requires '#' !in component && '#' !in name
    ensures '#' !in Fragment(component, name)
  {
    UnescapeEscape(name);
  }

  lemma ParsedHasOneHash(s: string, component: string)
    requires Parse(s, component).Success? && '#' !in component
    ensures OneHash(s)
  {
    var r := Parse(s, component).value;
    ParseExactly(s, component, r);
    var path, fragment := if r.Local? then "" else r.path, Fragment(component, if r.Local? then r.name else r.declName);
    FragmentHasNone(component, if r.Local? then r.name else r.declName);
    OneHashBetween(path, fragment);
    assert s == path + "#" + fragment;
  }

  lemma TwoHashes(e: ComponentReference, s: string)
    requires e.External? && '#' in e.path && s == Render(e, "schemas")
    ensures !OneHash(s)
  {
    var i :| 0 <= i < |e.path| && e.path[i] == '#';
    assert s[i] == '#' && s[|e.path|] == '#';
  }

  /** An import is validated by writing it out and reading it again. */
  lemma ImportValidated(e: ComponentReference)
    requires e.External?
    ensures ParseStoredSchema(SchemaRef("", Some(e))).Success? <==>
            ValidPath(e.path) && '#' !in e.path && Nameable(e.declName)
    ensures ParseStoredSchema(SchemaRef("", Some(e))).Success? ==> ParseStoredSchema(SchemaRef("", Some(e))).value == e
  {
    var s := Render(e, "schemas");
    if '#' in e.path {
      TwoHashes(e, s);
      if Parse(s, "schemas").Success? {
        ParsedHasOneHash(s, "schemas");
      }
    } else {
      ParseExternal(e.path, e.commit, e.declName, "schemas");
      ParseLocal(e.declName, "schemas");
    }
  }
}
