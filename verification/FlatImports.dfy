/** The include list and its pins as a plain map from path to pin: `UpdateImport` is one update of the map. */
module FlatImports {
  import opened Wrappers
  import opened NameLists
  import opened NamedTables
  import opened FlatOps

  datatype Include = Include(path: string, pin: string)

  function PathOf(x: Include): Option<string> { Some(x.path) }

  function PinOf(x: Include): string { x.pin }

  function Pairs(paths: seq<string>, pins: seq<string>): (r: seq<Include>)
    requires |paths| == |pins|
    ensures |r| == |paths| && forall i :: 0 <= i < |r| ==> r[i] == Include(paths[i], pins[i])
  {
    seq(|paths|, i requires 0 <= i < |paths| => Include(paths[i], pins[i]))
  }

  /** The includes in file order; a missing pin is empty. */
  function Includes(m: FlatMeta): seq<Include> {
    Pairs(m.includes, seq(|m.includes|, i => if 0 <= i < |m.includeCommits| then m.includeCommits[i] else ""))
  }

  /** Distinct paths with their pins. */
  ghost predicate Shows(m: FlatMeta, imports: map<string, string>) { Lists(Includes(m), PathOf, PinOf, imports) }

  function Updated(imports: map<string, string>, path: string, commit: string, remove: bool): map<string, string> {
    if remove then imports - {path} else imports[path := commit]
  }

  lemma IncludedExactly(m: FlatMeta, imports: map<string, string>, path: string)
    requires Shows(m, imports)
    ensures path in imports <==> path in m.includes
  {
    if path in imports {
      var i := ItemOfRow(Includes(m), PathOf, PinOf, imports, path);
      assert m.includes[i] == path;
    }
    if i :| 0 <= i < |m.includes| && m.includes[i] == path {
      assert Includes(m)[i].path == path;
    }
  }

  lemma IncludesArePairs(m: FlatMeta)
    ensures Includes(m) == Pairs(m.includes, Resized(m.includeCommits, |m.includes|))
  {
    var pins := seq(|m.includes|, i => if 0 <= i < |m.includeCommits| then m.includeCommits[i] else "");
    assert pins == Resized(m.includeCommits, |m.includes|);
  }

  lemma WholePins(pins: seq<string>)
    ensures Resized(pins, |pins|) == pins
  {}

  lemma PairsDropped(paths: seq<string>, pins: seq<string>, i: nat)
    requires |paths| == |pins| && i < |paths|
    ensures Pairs(paths[..i] + paths[i + 1..], pins[..i] + pins[i + 1..]) ==
            Pairs(paths, pins)[..i] + Pairs(paths, pins)[i + 1..]
  {}

  lemma PairsPinned(paths: seq<string>, pins: seq<string>, i: nat, pin: string)
    requires |paths| == |pins| && i < |paths|
    ensures Pairs(paths, pins[i := pin]) == Pairs(paths, pins)[i := Include(paths[i], pin)]
  {}

  lemma PairsAppended(paths: seq<string>, pins: seq<string>, path: string, pin: string)
    requires |paths| == |pins|
    ensures Pairs(paths + [path], pins + [pin]) == Pairs(paths, pins) + [Include(path, pin)]
  {}

  /** The list after an UpdateImport. */
  function After(xs: seq<Include>, at: Option<nat>, path: string, commit: string, remove: bool): seq<Include>
    requires at.Some? ==> at.value < |xs|
  {
    match at
    case Some(i) => if remove then xs[..i] + xs[i + 1..] else xs[i := Include(path, commit)]
    case None => if remove then xs else xs + [Include(path, commit)]
  }

  lemma IncludesAfter(m: FlatMeta, path: string, commit: string, remove: bool)
    ensures IndexOf(m.includes, path).Some? ==> IndexOf(m.includes, path).value < |Includes(m)|
    ensures Includes(UpdateImportIn(m, path, commit, remove)) ==
            After(Includes(m), IndexOf(m.includes, path), path, commit, remove)
  {
    var next, pins := UpdateImportIn(m, path, commit, remove), Resized(m.includeCommits, |m.includes|);
    IncludesArePairs(m);
    IncludesArePairs(next);
    WholePins(next.includeCommits);
    match IndexOf(m.includes, path)
    case Some(i) =>
      PairsDropped(m.includes, pins, i);
      PairsPinned(m.includes, pins, i, commit);
    case None =>
      PairsAppended(m.includes, pins, path, commit);
  }

  lemma OthersStay(m: FlatMeta, path: string, commit: string, remove: bool)
    ensures var next := UpdateImportIn(m, path, commit, remove);
            && |next.includeCommits| == |next.includes|
            && next == m.(includes := next.includes, includeCommits := next.includeCommits)
  {}

  lemma DropAgrees(xs: seq<Include>, imports: map<string, string>, i: nat, path: string)
    requires Lists(xs, PathOf, PinOf, imports) && i < |xs| && xs[i].path == path
    ensures Lists(xs[..i] + xs[i + 1..], PathOf, PinOf, imports - {path})
    ensures InOrder(xs, xs[..i] + xs[i + 1..], PathOf, path)
  {
    Dropped(xs, PathOf, PinOf, imports, i);
  }

  lemma PinAgrees(xs: seq<Include>, imports: map<string, string>, i: nat, path: string, pin: string)
    requires Lists(xs, PathOf, PinOf, imports) && i < |xs| && xs[i].path == path
    ensures Lists(xs[i := Include(path, pin)], PathOf, PinOf, imports[path := pin])
    ensures InOrder(xs, xs[i := Include(path, pin)], PathOf, path)
  {
    Replaced(xs, PathOf, PinOf, imports, i, Include(path, pin));
  }

  lemma AddAgrees(xs: seq<Include>, imports: map<string, string>, path: string, pin: string)
    requires Lists(xs, PathOf, PinOf, imports) && path !in imports
    ensures Lists(xs + [Include(path, pin)], PathOf, PinOf, imports[path := pin])
    ensures InOrder(xs, xs + [Include(path, pin)], PathOf, path)
  {
    Appended(xs, PathOf, PinOf, imports, Include(path, pin));
  }

  lemma AfterAgrees(xs: seq<Include>, imports: map<string, string>, at: Option<nat>, path: string, commit: string,
                    remove: bool)
    requires Lists(xs, PathOf, PinOf, imports)
    requires if at.Some? then at.value < |xs| && xs[at.value].path == path else path !in imports
    ensures Lists(After(xs, at, path, commit, remove), PathOf, PinOf, Updated(imports, path, commit, remove))
    ensures InOrder(xs, After(xs, at, path, commit, remove), PathOf, path)
  {
    if remove {
      if at.Some? {
        DropAgrees(xs, imports, at.value, path);
      } else {
        assert imports - {path} == imports;
      }
    } else if at.Some? {
      PinAgrees(xs, imports, at.value, path, commit);
    } else {
      AddAgrees(xs, imports, path, commit);
    }
  }

  /** One UpdateImport is a map update, in list order. */
  lemma UpdateAgrees(m: FlatMeta, imports: map<string, string>, path: string, commit: string, remove: bool)
    requires Shows(m, imports)
    ensures var next := UpdateImportIn(m, path, commit, remove);
            && Shows(next, Updated(imports, path, commit, remove)) && |next.includeCommits| == |next.includes|
            && InOrder(Includes(m), Includes(next), PathOf, path)
            && next == m.(includes := next.includes, includeCommits := next.includeCommits)
  {
    OthersStay(m, path, commit, remove);
    IncludesAfter(m, path, commit, remove);
    IncludedExactly(m, imports, path);
    AfterAgrees(Includes(m), imports, IndexOf(m.includes, path), path, commit, remove);
  }

  datatype Update = Update(path: string, commit: string, remove: bool)

  function UpdateAll(m: FlatMeta, updates: seq<Update>): FlatMeta
    decreases |updates|
  {
    if updates == [] then m
    else UpdateAll(UpdateImportIn(m, updates[0].path, updates[0].commit, updates[0].remove), updates[1..])
  }

  function UpdatedAll(imports: map<string, string>, updates: seq<Update>): map<string, string>
    decreases |updates|
  {
    if updates == [] then imports
    else UpdatedAll(Updated(imports, updates[0].path, updates[0].commit, updates[0].remove), updates[1..])
  }

  /** Every run of UpdateImport on the lists is the same run on the map. */
  lemma {:induction false} RunAgrees(m: FlatMeta, imports: map<string, string>, updates: seq<Update>)
    requires Shows(m, imports)
    ensures Shows(UpdateAll(m, updates), UpdatedAll(imports, updates))
    decreases |updates|
  {
    if updates != [] {
      var u := updates[0];
      UpdateAgrees(m, imports, u.path, u.commit, u.remove);
      RunAgrees(UpdateImportIn(m, u.path, u.commit, u.remove), Updated(imports, u.path, u.commit, u.remove),
                updates[1..]);
    }
  }

  /** An include that no update names keeps its pin. */
  lemma {:induction false} UntouchedEntry(imports: map<string, string>, updates: seq<Update>, path: string)
    requires path in imports && forall i :: 0 <= i < |updates| ==> updates[i].path != path
    ensures path in UpdatedAll(imports, updates) && UpdatedAll(imports, updates)[path] == imports[path]
    decreases |updates|
  {
    if updates != [] {
      var u := updates[0];
      UntouchedEntry(Updated(imports, u.path, u.commit, u.remove), updates[1..], path);
    }
  }
}
