/** From the path an import is written with to the schema it names. */
module ImportPaths {
  import opened Wrappers
  import opened Text

  datatype SchemaPath = SchemaPath(project: string, repo: string, name: string)

  datatype PathError = FailedPrecondition

  datatype Format = Protobuf | FlatBuffers | OpenApi

  function DetectFormat(name: string): Option<Format> {
    if EndsWith(name, ".proto") then Some(Protobuf)
    else if EndsWith(name, ".fbs") then Some(FlatBuffers)
    else if EndsWith(name, ".yaml") || EndsWith(name, ".yml") || EndsWith(name, ".json") then Some(OpenApi)
    else None
  }

  /** `project/repo/schema`, the schema part keeping its own slashes. */
  function ParseLogical(path: string): Option<SchemaPath> {
    match FirstIndex(path, '/')
    case None => None
    case Some(i) =>
      var rest := path[i + 1..];
      match FirstIndex(rest, '/')
      case None => None
      case Some(j) =>
        if i == 0 || j == 0 || rest[j + 1..] == "" then None
        else Some(SchemaPath(path[..i], rest[..j], rest[j + 1..]))
  }

  function Logical(s: SchemaPath): string { s.project + ['/'] + (s.repo + ['/'] + s.name) }

  /** A path whose project and repository are non-empty single segments and whose name is not empty. */
  predicate Addressable(s: SchemaPath) {
    s.project != "" && '/' !in s.project && s.repo != "" && '/' !in s.repo && s.name != ""
  }

  /** Exactly the addressable paths read back from their logical form. */
  lemma LogicalReadsBackExactly(s: SchemaPath)
    ensures ParseLogical(Logical(s)) == Some(s) <==> Addressable(s)
  {
    var path := Logical(s);
    if Addressable(s) {
      FirstIndexAfter(s.project, '/', s.repo + ['/'] + s.name);
      var rest := path[|s.project| + 1..];
      assert rest == s.repo + ['/'] + s.name;
      FirstIndexAfter(s.repo, '/', s.name);
      assert path[..|s.project|] == s.project && rest[..|s.repo|] == s.repo && rest[|s.repo| + 1..] == s.name;
    }
  }

  /** What is read as a logical path is that path, written out. */
  lemma LogicalWritesBack(path: string)
    requires ParseLogical(path).Some?
    ensures Addressable(ParseLogical(path).value) && Logical(ParseLogical(path).value) == path
  {
    var i := FirstIndex(path, '/').value;
    var rest := path[i + 1..];
    CutAtFirst(path, '/', i);
    CutAtFirst(rest, '/', FirstIndex(rest, '/').value);
  }

  // ----- dot segments -----

  /** A segment that names something. */
  predicate Proper(segment: string) { segment != "" && segment != "." && segment != ".." }

  predicate AllProper(segments: seq<string>) { forall i :: 0 <= i < |segments| ==> Proper(segments[i]) }

  /** Follow segments from a directory; an empty segment or a step above the root fails. */
  function Walk(stack: seq<string>, segments: seq<string>): Result<seq<string>, PathError>
    decreases |segments|
  {
    if segments == [] then Success(stack)
    else if segments[0] == "." then Walk(stack, segments[1..])
    else if segments[0] == ".." then
      if stack == [] then Failure(FailedPrecondition) else Walk(stack[..|stack| - 1], segments[1..])
    else if segments[0] == "" then Failure(FailedPrecondition)
    else Walk(stack + [segments[0]], segments[1..])
  }

  function DotRelative(importer: string, path: string): Result<string, PathError> {
    var own := Split(importer, '/');
    if !AllProper(own) then Failure(FailedPrecondition)
    else
      var segments :- Walk(own[..|own| - 1], Split(path, '/'));
      if segments == [] then Failure(FailedPrecondition) else Success(Join(segments, '/'))
  }

  /** `normalize_openapi_dot_relative_import`: pushing and popping segments. */
  method NormalizeDotRelative(importer: string, path: string) returns (r: Result<string, PathError>)
    ensures r == DotRelative(importer, path)
  {
    var segments := Split(importer, '/');
    if !AllProper(segments) {
      return Failure(FailedPrecondition);
    }
    segments := segments[..|segments| - 1];
    ghost var start := segments;
    var parts, i := Split(path, '/'), 0;
    while i < |parts|
      invariant 0 <= i <= |parts|
      invariant Walk(start, parts) == Walk(segments, parts[i..])
    {
      assert parts[i..][1..] == parts[i + 1..];
      if parts[i] == ".." {
        if segments == [] {
          return Failure(FailedPrecondition);
        }
        segments := segments[..|segments| - 1];
      } else if parts[i] == "" {
        return Failure(FailedPrecondition);
      } else if parts[i] != "." {
        segments := segments + [parts[i]];
      }
      i := i + 1;
    }
    if segments == [] {
      return Failure(FailedPrecondition);
    }
    return Success(Join(segments, '/'));
  }

  lemma {:induction false} WalkProper(stack: seq<string>, segments: seq<string>)
    requires AllProper(stack) && Walk(stack, segments).Success?
    requires forall i :: 0 <= i < |stack| ==> '/' !in stack[i]
    requires forall i :: 0 <= i < |segments| ==> '/' !in segments[i]
    ensures AllProper(Walk(stack, segments).value)
    ensures forall i :: 0 <= i < |Walk(stack, segments).value| ==> '/' !in Walk(stack, segments).value[i]
    decreases |segments|
  {
    if segments != [] {
      var next :=
        if segments[0] == "." then stack
        else if segments[0] == ".." then stack[..|stack| - 1]
        else stack + [segments[0]];
      WalkProper(next, segments[1..]);
    }
  }

  /** A normalized path holds no dot segment and no empty one: it names a schema inside the repository. */
  lemma DotRelativeProper(importer: string, path: string)
    requires DotRelative(importer, path).Success?
    ensures AllProper(Split(DotRelative(importer, path).value, '/'))
  {
    var own := Split(importer, '/');
    JoinSplit(importer, '/');
    JoinSplit(path, '/');
    WalkProper(own[..|own| - 1], Split(path, '/'));
    var segments := Walk(own[..|own| - 1], Split(path, '/')).value;
    SplitJoin(segments, '/');
  }

  lemma {:induction false} WalkConcat(stack: seq<string>, a: seq<string>, b: seq<string>)
    ensures Walk(stack, a + b) == if Walk(stack, a).Failure? then Walk(stack, a) else Walk(Walk(stack, a).value, b)
    decreases |a|
  {
    if a == [] {
      assert a + b == b;
    } else {
      assert (a + b)[0] == a[0] && (a + b)[1..] == a[1..] + b;
      if a[0] == "." {
        WalkConcat(stack, a[1..], b);
      } else if a[0] == ".." {
        if stack != [] {
          WalkConcat(stack[..|stack| - 1], a[1..], b);
        }
      } else if a[0] != "" {
        WalkConcat(stack + [a[0]], a[1..], b);
      }
    }
  }

  /** Going into a directory and out again, or staying put, leads nowhere: such segments can be inserted anywhere. */
  lemma DetoursCancel(stack: seq<string>, a: seq<string>, b: seq<string>, dir: string)
    requires Proper(dir)
    ensures Walk(stack, a + [dir, ".."] + b) == Walk(stack, a + b)
    ensures Walk(stack, a + ["."] + b) == Walk(stack, a + b)
  {
    WalkConcat(stack, a, b);
    WalkConcat(stack, a, [dir, ".."]);
    WalkConcat(stack, a + [dir, ".."], b);
    WalkConcat(stack, a, ["."]);
    WalkConcat(stack, a + ["."], b);
    if Walk(stack, a).Success? {
      var s := Walk(stack, a).value;
      assert [dir, ".."][1..] == [".."] && [".."][1..] == [] && ["."][1..] == [];
      assert (s + [dir])[..|s|] == s;
      assert Walk(s + [dir], [".."]) == Walk(s, []);
      assert Walk(s, ["."]) == Walk(s, []);
    }
  }

  // ----- any import path -----

  function OwnPrefix(importer: SchemaPath): string { importer.project + "/" + importer.repo + "/" }

  predicate HasDotSegment(path: string) {
    exists i :: 0 <= i < |Split(path, '/')| && (Split(path, '/')[i] == "." || Split(path, '/')[i] == "..")
  }

  /** `normalize_import_path`; `names` are the schemas of the importing snapshot. */
  function Normalize(importer: SchemaPath, path: string, names: set<string>): Result<SchemaPath, PathError> {
    var own := StripPrefix(path, OwnPrefix(importer));
    if path == "" then Failure(FailedPrecondition)
    else if own.Some? then
      if own.value == "" then Failure(FailedPrecondition) else Success(importer.(name := own.value))
    else if DetectFormat(importer.name) == Some(OpenApi) && HasDotSegment(path) then
      var name :- DotRelative(importer.name, path);
      Success(importer.(name := name))
    else if path in names then Success(importer.(name := path))
    else Success(ParseLogical(path).GetOr(importer.(name := path)))
  }

  // ----- what a path names, said without the algorithm -----

  /** The segments of a path, in order. */
  ghost predicate Segments(path: string, segments: seq<string>) {
    && segments != [] && (forall i :: 0 <= i < |segments| ==> '/' !in segments[i])
    && Join(segments, '/') == path
  }

  ghost predicate IsOpenApi(name: string) {
    exists stem :: name == stem + ".yaml" || name == stem + ".yml" || name == stem + ".json"
  }

  ghost predicate IsDotted(path: string) {
    exists segments :: Segments(path, segments) && ("." in segments || ".." in segments)
  }

  /** One segment leads from a directory to the next. */
  ghost predicate Leads(here: seq<string>, segment: string, there: seq<string>) {
    || (segment == "." && there == here)
    || (segment == ".." && exists last :: here == there + [last])
    || (Proper(segment) && there == here + [segment])
  }

  /** The directories passed on the way. */
  ghost predicate Trail(trail: seq<seq<string>>, segments: seq<string>) {
    |trail| == |segments| + 1 && forall i :: 0 <= i < |segments| ==> Leads(trail[i], segments[i], trail[i + 1])
  }

  ghost predicate Arrives(start: seq<string>, segments: seq<string>, end: seq<string>) {
    exists trail :: Trail(trail, segments) && trail[0] == start && trail[|segments|] == end
  }

  /** Relative to the directory of the importing schema, the path arrives at `name`. */
  ghost predicate NamesRelative(importer: string, path: string, name: string) {
    exists own, last, segments, end ::
      && Segments(importer, own + [last]) && AllProper(own + [last])
      && Segments(path, segments) && Arrives(own, segments, end) && Segments(name, end)
  }

  /** `project/repository/name` with non-empty parts, the first two single segments. */
  ghost predicate NamesLogical(path: string, target: SchemaPath) {
    Addressable(target) && path == target.project + "/" + target.repo + "/" + target.name
  }

  /**
   What an import path names. Its own repository's prefix is dropped; a dotted path of an OpenAPI file is followed from
   the file's directory; a schema of the importing snapshot is named as it is written; then a path may name another
   repository's schema; anything else is a schema of the importing repository again.
   */
  ghost predicate Names(importer: SchemaPath, path: string, names: set<string>, target: SchemaPath) {
    var prefix := importer.project + "/" + importer.repo + "/";
    if path == "" then
      false
    else if exists rest :: path == prefix + rest then
      target.name != "" && path == prefix + target.name && target == importer.(name := target.name)
    else if IsOpenApi(importer.name) && IsDotted(path) then
      NamesRelative(importer.name, path, target.name) && target == importer.(name := target.name)
    else if path in names then
      target == importer.(name := path)
    else if exists other :: NamesLogical(path, other) then
      NamesLogical(path, target)
    else
      target == importer.(name := path)
  }

  lemma SegmentsAreSplit(path: string, segments: seq<string>)
    ensures Segments(path, segments) <==> segments == Split(path, '/')
  {
    JoinSplit(path, '/');
    if Segments(path, segments) {
      SplitJoin(segments, '/');
    }
  }

  lemma FormatByEnding(name: string)
    ensures IsOpenApi(name) <==> DetectFormat(name) == Some(OpenApi)
  {
    if EndsWith(name, ".yaml") {
      assert name == name[..|name| - 5] + ".yaml";
    }
    if EndsWith(name, ".yml") {
      assert name == name[..|name| - 4] + ".yml";
    }
    if EndsWith(name, ".json") {
      assert name == name[..|name| - 5] + ".json";
    }
    assert name != "" && EndsWith(name, ".proto") ==> name[|name| - 1] == 'o';
    assert name != "" && EndsWith(name, ".fbs") ==> name[|name| - 1] == 's';
    if stem :| name == stem + ".yaml" || name == stem + ".yml" || name == stem + ".json" {
      assert EndsWith(name, ".yaml") || EndsWith(name, ".yml") || EndsWith(name, ".json");
      assert name[|name| - 1] == 'l' || name[|name| - 1] == 'n';
    }
  }

  lemma DottedSegments(path: string)
    ensures IsDotted(path) <==> HasDotSegment(path)
  {
    var split := Split(path, '/');
    SegmentsAreSplit(path, split);
    if IsDotted(path) {
      var segments :| Segments(path, segments) && ("." in segments || ".." in segments);
      SegmentsAreSplit(path, segments);
    }
  }

  /** The walk is the trail. */
  lemma {:induction false} WalkArrives(start: seq<string>, segments: seq<string>, end: seq<string>)
    ensures Walk(start, segments) == Success(end) <==> Arrives(start, segments, end)
    decreases |segments|
  {
    if segments == [] {
      if Walk(start, segments) == Success(end) {
        assert Trail([start], segments) && [start][0] == start;
      }
    } else {
      if Walk(start, segments) == Success(end) {
        var next := FirstStep(start, segments, end);
        WalkArrives(next, segments[1..], end);
        TrailLonger(start, next, segments, end);
      }
      if trail :| Trail(trail, segments) && trail[0] == start && trail[|segments|] == end {
        TrailShorter(trail, segments);
        WalkArrives(trail[1], segments[1..], end);
        StepWalks(start, segments, trail[1]);
      }
    }
  }

  lemma FirstStep(start: seq<string>, segments: seq<string>, end: seq<string>) returns (next: seq<string>)
    requires segments != [] && Walk(start, segments) == Success(end)
    ensures Leads(start, segments[0], next) && Walk(next, segments[1..]) == Success(end)
  {
    if segments[0] == "." {
      next := start;
    } else if segments[0] == ".." {
      next := start[..|start| - 1];
      assert start == next + [start[|start| - 1]];
    } else {
      next := start + [segments[0]];
    }
  }

  lemma StepWalks(start: seq<string>, segments: seq<string>, next: seq<string>)
    requires segments != [] && Leads(start, segments[0], next)
    ensures Walk(start, segments) == Walk(next, segments[1..])
  {
    if segments[0] == ".." {
      var last :| start == next + [last];
      assert start[..|start| - 1] == next;
    }
  }

  lemma TrailLonger(start: seq<string>, next: seq<string>, segments: seq<string>, end: seq<string>)
    requires segments != [] && Leads(start, segments[0], next) && Arrives(next, segments[1..], end)
    ensures Arrives(start, segments, end)
  {
    var trail :| Trail(trail, segments[1..]) && trail[0] == next && trail[|segments| - 1] == end;
    var longer := [start] + trail;
    forall i | 0 <= i < |segments| ensures Leads(longer[i], segments[i], longer[i + 1]) {
      if i > 0 {
        assert Leads(trail[i - 1], segments[1..][i - 1], trail[i]);
      }
    }
    assert Trail(longer, segments) && longer[|segments|] == end;
  }

  lemma TrailShorter(trail: seq<seq<string>>, segments: seq<string>)
    requires segments != [] && Trail(trail, segments)
    ensures Arrives(trail[1], segments[1..], trail[|segments|])
  {
    var rest := trail[1..];
    forall i | 0 <= i < |segments| - 1 ensures Leads(rest[i], segments[1..][i], rest[i + 1]) {
      assert Leads(trail[i + 1], segments[i + 1], trail[i + 2]);
    }
    assert Trail(rest, segments[1..]) && rest[0] == trail[1] && rest[|segments| - 1] == trail[|segments|];
  }

  /** `normalize_openapi_dot_relative_import` finds exactly the schema the path arrives at. */
  lemma DotRelativeExactly(importer: string, path: string, name: string)
    ensures DotRelative(importer, path) == Success(name) <==> NamesRelative(importer, path, name)
  {
    if DotRelative(importer, path) == Success(name) {
      RelativeFound(importer, path, name);
    }
    if NamesRelative(importer, path, name) {
      RelativeWalked(importer, path, name);
    }
  }

  lemma RelativeFound(importer: string, path: string, name: string)
    requires DotRelative(importer, path) == Success(name)
    ensures NamesRelative(importer, path, name)
  {
    var all, segments := Split(importer, '/'), Split(path, '/');
    var own, last := all[..|all| - 1], all[|all| - 1];
    var end := Walk(own, segments).value;
    assert all == own + [last];
    SegmentsAreSplit(importer, own + [last]);
    SegmentsAreSplit(path, segments);
    WalkArrives(own, segments, end);
    WalkProper(own, segments);
    assert Segments(name, end);
  }

  lemma RelativeWalked(importer: string, path: string, name: string)
    requires NamesRelative(importer, path, name)
    ensures DotRelative(importer, path) == Success(name)
  {
    var own, last, segments, end :|
      && Segments(importer, own + [last]) && AllProper(own + [last])
      && Segments(path, segments) && Arrives(own, segments, end) && Segments(name, end);
    SegmentsAreSplit(importer, own + [last]);
    assert (own + [last])[..|own + [last]| - 1] == own;
    SegmentsAreSplit(path, segments);
    WalkArrives(own, segments, end);
  }

  lemma WrittenLogical(target: SchemaPath)
    ensures Logical(target) == target.project + "/" + target.repo + "/" + target.name
  {}

  lemma LogicalIsWritten(path: string, target: SchemaPath)
    ensures NamesLogical(path, target) <==> ParseLogical(path) == Some(target)
  {
    WrittenLogical(target);
    LogicalReadsBackExactly(target);
    if ParseLogical(path).Some? {
      LogicalWritesBack(path);
    }
  }

  lemma OwnPrefixStripped(importer: SchemaPath, path: string)
    ensures var prefix := importer.project + "/" + importer.repo + "/";
            && (StripPrefix(path, OwnPrefix(importer)).Some? <==> exists rest :: path == prefix + rest)
            && forall rest :: path == prefix + rest ==> StripPrefix(path, OwnPrefix(importer)) == Some(rest)
  {
    var prefix := importer.project + "/" + importer.repo + "/";
    var own := StripPrefix(path, prefix);
    if own.Some? {
      assert path == prefix + own.value;
    }
    forall rest | path == prefix + rest ensures own == Some(rest) {
      assert path[|prefix|..] == rest;
    }
  }

  /** Normalization answers with a schema exactly when the path names it, and fails exactly when it names none. */
  lemma NormalizeExactly(importer: SchemaPath, path: string, names: set<string>)
    ensures forall target ::
              Normalize(importer, path, names) == Success(target) <==> Names(importer, path, names, target)
    ensures Normalize(importer, path, names).Failure? <==> !exists target :: Names(importer, path, names, target)
  {
    forall target
      ensures Normalize(importer, path, names) == Success(target) <==> Names(importer, path, names, target)
    {
      NormalizeNames(importer, path, names, target);
    }
    var r := Normalize(importer, path, names);
    if r.Success? {
      assert Names(importer, path, names, r.value);
    }
  }

  lemma NormalizeNames(importer: SchemaPath, path: string, names: set<string>, target: SchemaPath)
    ensures Normalize(importer, path, names) == Success(target) <==> Names(importer, path, names, target)
  {
    OwnPrefixStripped(importer, path);
    FormatByEnding(importer.name);
    DottedSegments(path);
    DotRelativeExactly(importer.name, path, target.name);
    forall other ensures NamesLogical(path, other) <==> ParseLogical(path) == Some(other) {
      LogicalIsWritten(path, other);
    }
  }

  ghost predicate TwoSlashes(path: string) {
    exists i, j :: 0 <= i < j < |path| && path[i] == '/' && path[j] == '/'
  }

  lemma LogicalHasTwo(path: string, other: SchemaPath)
    requires NamesLogical(path, other)
    ensures TwoSlashes(path)
  {
    var at := |other.project|;
    assert path[at] == '/' && path[at + 1 + |other.repo|] == '/';
  }

  /** A path with fewer than two slashes names no other repository's schema. */
  lemma FewSlashesStay(importer: SchemaPath, path: string, names: set<string>, target: SchemaPath)
    requires !TwoSlashes(path) && Names(importer, path, names, target)
    ensures target.project == importer.project && target.repo == importer.repo
  {
    forall other ensures NamesLogical(path, other) ==> TwoSlashes(path) {
      if NamesLogical(path, other) {
        LogicalHasTwo(path, other);
      }
    }
  }

  lemma {:induction false} StaysBelow(start: seq<string>, segments: seq<string>, end: seq<string>)
    requires Arrives(start, segments, end) && ".." !in segments
    ensures start <= end
    decreases |segments|
  {
    var trail :| Trail(trail, segments) && trail[0] == start && trail[|segments|] == end;
    if segments != [] {
      assert Leads(trail[0], segments[0], trail[1]) && segments[0] in segments;
      TrailShorter(trail, segments);
      StaysBelow(trail[1], segments[1..], end);
    }
  }

  /** A relative path without dot-dot stays under the directory of the importing schema. */
  lemma RelativeStaysBelow(importer: string, own: seq<string>, last: string, path: string, name: string)
    requires Segments(importer, own + [last]) && ".." !in Split(path, '/') && NamesRelative(importer, path, name)
    ensures own <= Split(name, '/')
  {
    var own', last', segments, end :|
      && Segments(importer, own' + [last']) && AllProper(own' + [last'])
      && Segments(path, segments) && Arrives(own', segments, end) && Segments(name, end);
    SegmentsAreSplit(importer, own + [last]);
    SegmentsAreSplit(importer, own' + [last']);
    assert own == (own + [last])[..|own|] == own';
    SegmentsAreSplit(path, segments);
    SegmentsAreSplit(name, end);
    StaysBelow(own, segments, end);
  }

  /**
   A schema of the importing repository is found under its logical path, and another repository's unless the importer
   has a schema of that very name.
   */
  lemma NormalizeLogical(importer: SchemaPath, target: SchemaPath, names: set<string>)
    requires Addressable(target) && Addressable(importer) && Logical(target) !in names
    requires DetectFormat(importer.name) == Some(OpenApi) ==> !HasDotSegment(Logical(target))
    ensures Normalize(importer, Logical(target), names) == Success(target)
  {
    LogicalReadsBackExactly(target);
    var own := StripPrefix(Logical(target), OwnPrefix(importer));
    if own.Some? {
      assert Logical(target) == Logical(importer.(name := own.value));
      if own.value != "" {
        LogicalReadsBackExactly(importer.(name := own.value));
      } else {
        EmptyName(importer.project, importer.repo, target);
      }
    }
  }

  lemma EmptyName(project: string, repo: string, target: SchemaPath)
    requires Addressable(target) && '/' !in project && '/' !in repo && project != "" && repo != ""
    ensures Logical(target) != Logical(SchemaPath(project, repo, ""))
  {
    LogicalReadsBackExactly(target);
    LogicalReadsBackExactly(SchemaPath(project, repo, ""));
    var path := Logical(SchemaPath(project, repo, ""));
    FirstIndexAfter(project, '/', repo + ['/'] + "");
    assert path[|project| + 1..] == repo + ['/'] + "";
    FirstIndexAfter(repo, '/', "");
    assert ParseLogical(path) == None;
  }
}
