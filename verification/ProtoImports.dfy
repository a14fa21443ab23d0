/** Import lists: paths, their pins and the public and weak markers, kept in step by `UpdateImport`. */
module ProtoImports {
  import opened NameLists
  import opened Wire
  import opened Descriptors
  import opened ProtoOps

  function Shifted(indices: seq<i32>, pos: nat): seq<i32> {
    if indices == [] then []
    else
      var i: int := indices[0];
      [if i > Wrap32(pos) then Wrap32(i - 1) else indices[0]] + Shifted(indices[1..], pos)
  }

  function Kept(indices: seq<i32>, pos: nat): seq<i32> {
    if indices == [] then []
    else if indices[0] == Wrap32(pos) then Kept(indices[1..], pos)
    else [indices[0]] + Kept(indices[1..], pos)
  }

  lemma {:induction false} ShiftedKept(indices: seq<i32>, pos: nat)
    ensures Shifted(Kept(indices, pos), pos) == Reindexed(indices, pos)
  {
    if indices != [] {
      ShiftedKept(indices[1..], pos);
      if indices[0] != Wrap32(pos) {
        assert Kept(indices, pos)[1..] == Kept(indices[1..], pos);
      }
    }
  }

  /** Drop the markers at `pos`, then move the later ones down by one. */
  method Reindex(indices: seq<i32>, pos: nat) returns (r: seq<i32>)
    ensures r == Reindexed(indices, pos)
  {
    var at := Wrap32(pos);
    r := [];
    var i := |indices|;
    while i > 0
      invariant 0 <= i <= |indices|
      invariant r == Kept(indices[i..], pos)
    {
      i := i - 1;
      assert indices[i..] == [indices[i]] + indices[i + 1..];
      if indices[i] != at {
        r := [indices[i]] + r;
      }
    }
    ghost var kept := r;
    assert indices[0..] == indices;
    i := |r|;
    while i > 0
      invariant 0 <= i <= |r| == |kept|
      invariant r[..i] == kept[..i] && r[i..] == Shifted(kept[i..], pos)
    {
      i := i - 1;
      assert kept[i..] == [kept[i]] + kept[i + 1..];
      assert r[i] == r[..i + 1][i] && kept[i] == kept[..i + 1][i];
      var index: int := r[i];
      if index > at {
        r := r[i := Wrap32(index - 1)];
      }
    }
    ShiftedKept(indices, pos);
  }

  // ----- the lists as a map -----

  /** What the file says of one import. */
  datatype Import = Import(pin: string, isPublic: bool, isWeak: bool)

  predicate InRange(indices: seq<i32>, n: nat) {
    forall i :: 0 <= i < |indices| ==> 0 <= indices[i] < n
  }

  /** Distinct paths, markers that point at one of them, and positions that fit a 32-bit marker. */
  predicate Aligned(m: Meta) {
    && Distinct(m.dependency) && |m.dependency| <= I32_MAX + 1
    && InRange(m.publicDependency, |m.dependency|) && InRange(m.weakDependency, |m.dependency|)
  }

  function ImportAt(m: Meta, i: nat): Import
    requires i < |m.dependency|
  {
    Import(Resized(m.dependencyCommit, |m.dependency|)[i], i in m.publicDependency, i in m.weakDependency)
  }

  function Imports(m: Meta): map<string, Import> {
    map p | p in m.dependency :: ImportAt(m, IndexOf(m.dependency, p).value)
  }

  /** UpdateImport on the map. */
  function UpdatedImports(imports: map<string, Import>, path: string, commit: string, remove: bool)
    : map<string, Import>
  {
    if remove then imports - {path}
    else if path in imports then imports[path := imports[path].(pin := commit)]
    else imports[path := Import(commit, false, false)]
  }

  lemma {:induction false} ReindexedMembers(indices: seq<i32>, pos: nat, j: nat)
    requires InRange(indices, I32_MAX + 1) && pos <= I32_MAX && j < I32_MAX
    ensures j in Reindexed(indices, pos) <==> if j < pos then j in indices else j + 1 in indices
  {
    if indices != [] {
      ReindexedMembers(indices[1..], pos, j);
      assert Wrap32(pos) == pos;
      var first: int := indices[0];
      assert first > pos ==> Wrap32(first - 1) == first - 1;
      assert forall x: i32 :: x in indices <==> x == indices[0] || x in indices[1..];
    }
  }

  lemma {:induction false} ReindexedInRange(indices: seq<i32>, pos: nat, n: nat)
    requires InRange(indices, n) && pos < n <= I32_MAX + 1
    ensures InRange(Reindexed(indices, pos), n - 1)
  {
    if indices != [] {
      ReindexedInRange(indices[1..], pos, n);
      assert Wrap32(pos) == pos;
      var first: int := indices[0];
      assert first > pos ==> Wrap32(first - 1) == first - 1;
    }
  }

  lemma ImportsAt(m: Meta, i: nat)
    requires Distinct(m.dependency) && i < |m.dependency|
    ensures Imports(m)[m.dependency[i]] == ImportAt(m, i)
  {}

  /** The map is determined by its entries, position by position. */
  lemma ImportsAre(m: Meta, imports: map<string, Import>)
    requires Distinct(m.dependency)
    requires forall p :: p in imports <==> p in m.dependency
    requires forall i :: 0 <= i < |m.dependency| ==> imports[m.dependency[i]] == ImportAt(m, i)
    ensures Imports(m) == imports
  {}

  function Skip(i: nat, pos: nat): nat { if i < pos then i else i + 1 }

  lemma RemovedAt(xs: seq<string>, pos: nat)
    requires Distinct(xs) && pos < |xs|
    ensures var r := xs[..pos] + xs[pos + 1..];
            && (forall i :: 0 <= i < |r| ==> r[i] == xs[Skip(i, pos)])
            && Distinct(r)
            && (forall x :: x in r <==> x in xs && x != xs[pos])
  {}

  lemma RemovalAligned(m: Meta, path: string, commit: string)
    requires Aligned(m) && path in m.dependency
    ensures var next, pos := UpdateImportIn(m, path, commit, true), IndexOf(m.dependency, path).value;
            && Aligned(next) && |next.dependency| == |m.dependency| - 1
            && (forall i :: 0 <= i < |next.dependency| ==> next.dependency[i] == m.dependency[Skip(i, pos)])
            && (forall p :: p in next.dependency <==> p in m.dependency && p != path)
  {
    var pos := IndexOf(m.dependency, path).value;
    ReindexedInRange(m.publicDependency, pos, |m.dependency|);
    ReindexedInRange(m.weakDependency, pos, |m.dependency|);
    RemovedAt(m.dependency, pos);
  }

  lemma RemovalKeeps(m: Meta, path: string, commit: string, i: nat)
    requires Aligned(m) && path in m.dependency && i < |m.dependency| - 1
    ensures var next, pos := UpdateImportIn(m, path, commit, true), IndexOf(m.dependency, path).value;
            i < |next.dependency| && ImportAt(next, i) == ImportAt(m, Skip(i, pos))
  {
    var pos := IndexOf(m.dependency, path).value;
    ReindexedMembers(m.publicDependency, pos, i);
    ReindexedMembers(m.weakDependency, pos, i);
  }

  lemma RemovalRefines(m: Meta, path: string, commit: string)
    requires Aligned(m) && path in m.dependency
    ensures var next := UpdateImportIn(m, path, commit, true);
            Aligned(next) && Imports(next) == Imports(m) - {path}
  {
    var next := UpdateImportIn(m, path, commit, true);
    var pos := IndexOf(m.dependency, path).value;
    RemovalAligned(m, path, commit);
    forall i | 0 <= i < |next.dependency| ensures (Imports(m) - {path})[next.dependency[i]] == ImportAt(next, i) {
      RemovalKeeps(m, path, commit, i);
      ImportsAt(m, Skip(i, pos));
    }
    ImportsAre(next, Imports(m) - {path});
  }

  lemma PinRefines(m: Meta, path: string, commit: string)
    requires Aligned(m) && path in m.dependency
    ensures var next := UpdateImportIn(m, path, commit, false);
            Aligned(next) && Imports(next) == Imports(m)[path := Imports(m)[path].(pin := commit)]
  {
    var next := UpdateImportIn(m, path, commit, false);
    var pos := IndexOf(m.dependency, path).value;
    var imports := Imports(m)[path := Imports(m)[path].(pin := commit)];
    forall i | 0 <= i < |next.dependency| ensures imports[next.dependency[i]] == ImportAt(next, i) {
      ImportsAt(m, i);
      assert i != pos ==> m.dependency[i] != m.dependency[pos];
    }
    ImportsAre(next, imports);
  }

  lemma AddRefines(m: Meta, path: string, commit: string)
    requires Aligned(m) && path !in m.dependency && |m.dependency| <= I32_MAX
    ensures var next := UpdateImportIn(m, path, commit, false);
            Aligned(next) && Imports(next) == Imports(m)[path := Import(commit, false, false)]
  {
    var next := UpdateImportIn(m, path, commit, false);
    var imports := Imports(m)[path := Import(commit, false, false)];
    forall i | 0 <= i < |next.dependency| ensures imports[next.dependency[i]] == ImportAt(next, i) {
      if i < |m.dependency| {
        ImportsAt(m, i);
      }
    }
    ImportsAre(next, imports);
  }

  /** Removing a path that is not imported only fills up the pins. */
  lemma AbsentRefines(m: Meta, path: string, commit: string)
    requires Aligned(m) && path !in m.dependency
    ensures var next := UpdateImportIn(m, path, commit, true);
            Aligned(next) && Imports(next) == Imports(m) - {path}
  {
    var next := UpdateImportIn(m, path, commit, true);
    forall i | 0 <= i < |next.dependency| ensures (Imports(m) - {path})[next.dependency[i]] == ImportAt(next, i) {
      ImportsAt(m, i);
    }
    ImportsAre(next, Imports(m) - {path});
  }

  lemma PinsFilled(m: Meta, path: string, commit: string, remove: bool)
    ensures var next := UpdateImportIn(m, path, commit, remove); |next.dependencyCommit| == |next.dependency|
  {}

  /** One UpdateImport: the lists stay aligned and in range, and their meaning changes as a map update. */
  lemma UpdateRefines(m: Meta, path: string, commit: string, remove: bool)
    requires Aligned(m) && |m.dependency| <= I32_MAX
    ensures var next := UpdateImportIn(m, path, commit, remove);
            && Aligned(next) && |next.dependencyCommit| == |next.dependency|
            && Imports(next) == UpdatedImports(Imports(m), path, commit, remove)
  {
    PinsFilled(m, path, commit, remove);
    if path in m.dependency {
      if remove {
        RemovalRefines(m, path, commit);
      } else {
        PinRefines(m, path, commit);
      }
    } else if remove {
      AbsentRefines(m, path, commit);
    } else {
      AddRefines(m, path, commit);
    }
  }

  datatype Update = Update(path: string, commit: string, remove: bool)

  function UpdateAll(m: Meta, updates: seq<Update>): Meta
    decreases |updates|
  {
    if updates == [] then m
    else UpdateAll(UpdateImportIn(m, updates[0].path, updates[0].commit, updates[0].remove), updates[1..])
  }

  function UpdatedAll(imports: map<string, Import>, updates: seq<Update>): map<string, Import>
    decreases |updates|
  {
    if updates == [] then imports
    else UpdatedAll(UpdatedImports(imports, updates[0].path, updates[0].commit, updates[0].remove), updates[1..])
  }

  /** Every run of UpdateImport on the index lists is the same run on the plain map. */
  lemma {:induction false} RunRefines(m: Meta, updates: seq<Update>)
    requires Aligned(m) && |m.dependency| + |updates| <= I32_MAX + 1
    ensures Aligned(UpdateAll(m, updates))
    ensures Imports(UpdateAll(m, updates)) == UpdatedAll(Imports(m), updates)
    decreases |updates|
  {
    if updates != [] {
      var u := updates[0];
      UpdateRefines(m, u.path, u.commit, u.remove);
      RunRefines(UpdateImportIn(m, u.path, u.commit, u.remove), updates[1..]);
    }
  }

  lemma {:induction false} UntouchedEntry(imports: map<string, Import>, updates: seq<Update>, path: string)
    requires path in imports && forall i :: 0 <= i < |updates| ==> updates[i].path != path
    ensures path in UpdatedAll(imports, updates) && UpdatedAll(imports, updates)[path] == imports[path]
    decreases |updates|
  {
    if updates != [] {
      var u := updates[0];
      UntouchedEntry(UpdatedImports(imports, u.path, u.commit, u.remove), updates[1..], path);
    }
  }

  /** An import that no update names keeps its pin and its markers, wherever in the lists it ends up. */
  lemma UntouchedImport(m: Meta, updates: seq<Update>, i: nat) returns (j: nat)
    requires Aligned(m) && |m.dependency| + |updates| <= I32_MAX + 1 && i < |m.dependency|
    requires forall k :: 0 <= k < |updates| ==> updates[k].path != m.dependency[i]
    ensures var n := UpdateAll(m, updates);
            j < |n.dependency| && n.dependency[j] == m.dependency[i] && ImportAt(n, j) == ImportAt(m, i)
  {
    RunRefines(m, updates);
    UntouchedEntry(Imports(m), updates, m.dependency[i]);
    j := IndexOf(UpdateAll(m, updates).dependency, m.dependency[i]).value;
    ImportsAt(m, i);
  }
}
