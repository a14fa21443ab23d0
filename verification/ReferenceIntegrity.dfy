/**
 Two checks for live imports of a schema that goes away: one when a deletion is planned, one on the tree about to be
 published. They agree, and what the second accepts leaves no import without its target.
 */
module ReferenceIntegrity {
  import opened Wrappers
  import opened Text
  import opened ImportPaths

  datatype Import = Import(path: string, pin: string)

  /** A schema as the checks see it: its imports, or none when it cannot be read. */
  datatype SchemaState = Readable(imports: seq<Import>) | Unreadable

  type Tree = map<string, SchemaState>

  /** A tree about to be published: `known` names every schema of its inputs and of the tree itself. */
  datatype Publication = Publication(
    project: string, repo: string, isProtected: bool, bookmarkConflicted: bool, conflicts: set<string>, final: Tree,
    known: set<string>)

  datatype CheckError = Refused | CannotRead

  const META_SUFFIX := "/__meta__"

  function TargetOf(project: string, repo: string, name: string, imp: Import, names: set<string>)
    : Result<SchemaPath, PathError>
  {
    Normalize(SchemaPath(project, repo, name), imp.path, names)
  }

  /** An import of schema `name` leads to this schema, by the names in `names`. */
  ghost predicate LeadsTo(project: string, repo: string, name: string, imp: Import, names: set<string>, t: SchemaPath) {
    Names(SchemaPath(project, repo, name), imp.path, names, t)
  }

  /** The import is pinned, or leads somewhere that is not among `gone` schemas of this repository. */
  ghost predicate Safe(project: string, repo: string, name: string, imp: Import, names: set<string>, gone: set<string>)
  {
    || imp.pin != ""
    || exists t ::
         LeadsTo(project, repo, name, imp, names, t) && !(t.project == project && t.repo == repo && t.name in gone)
  }

  /** The import has one target, the one normalization finds. */
  lemma SafeMeans(project: string, repo: string, name: string, imp: Import, names: set<string>, gone: set<string>)
    ensures var t := TargetOf(project, repo, name, imp, names);
            Safe(project, repo, name, imp, names, gone) <==>
            || imp.pin != ""
            || (t.Success? && !(t.value.project == project && t.value.repo == repo && t.value.name in gone))
  {
    NormalizeExactly(SchemaPath(project, repo, name), imp.path, names);
    var t := TargetOf(project, repo, name, imp, names);
    if t.Success? {
      assert LeadsTo(project, repo, name, imp, names, t.value);
    }
  }

  ghost predicate SafeSchema(project: string, repo: string, name: string, s: SchemaState, names: set<string>,
                       gone: set<string>)
  {
    s.Readable? && forall i :: 0 <= i < |s.imports| ==> Safe(project, repo, name, s.imports[i], names, gone)
  }

  // ----- publication -----

  predicate Conflicted(p: Publication) {
    p.isProtected && (p.bookmarkConflicted || p.conflicts != {})
  }

  /** What the publication check accepts. */
  ghost predicate Publishable(p: Publication) {
    && !Conflicted(p)
    && (p.known <= p.final.Keys
        || (&& (forall c :: c in p.conflicts ==> !EndsWith(c, META_SUFFIX))
            && forall n :: n in p.final ==>
                 SafeSchema(p.project, p.repo, n, p.final[n], p.known, p.known - p.final.Keys)))
  }

  lemma NothingGone(a: set<string>, b: set<string>)
    ensures a - b == {} <==> a <= b
  {
    forall x | x in a ensures x in a - b || x in b {}
  }

  /** The first `k` imports are safe. */
  ghost predicate SafePrefix(project: string, repo: string, name: string, imports: seq<Import>, names: set<string>,
                       gone: set<string>, k: nat)
    requires k <= |imports|
  {
    forall i :: 0 <= i < k ==> Safe(project, repo, name, imports[i], names, gone)
  }

  lemma SafeNext(project: string, repo: string, name: string, imports: seq<Import>, names: set<string>,
                 gone: set<string>, k: nat)
    requires k < |imports|
    ensures SafePrefix(project, repo, name, imports, names, gone, k + 1) <==>
            && SafePrefix(project, repo, name, imports, names, gone, k)
            && Safe(project, repo, name, imports[k], names, gone)
  {}

  /** The unpinned imports of one schema that lead to a schema that is gone, or an error. */
  method DanglingImports(project: string, repo: string, name: string, imports: seq<Import>, names: set<string>,
                         gone: set<string>)
    returns (r: Result<set<string>, CheckError>)
    ensures r == Success({}) <==> SafePrefix(project, repo, name, imports, names, gone, |imports|)
  {
    var dangling: set<string> := {};
    var i := 0;
    while i < |imports|
      invariant 0 <= i <= |imports|
      invariant dangling == {} <==> SafePrefix(project, repo, name, imports, names, gone, i)
    {
      SafeNext(project, repo, name, imports, names, gone, i);
      SafeMeans(project, repo, name, imports[i], names, gone);
      if imports[i].pin == "" {
        var target := TargetOf(project, repo, name, imports[i], names);
        if target.Failure? {
          return Failure(Refused);
        }
        if target.value.project == project && target.value.repo == repo && target.value.name in gone {
          dangling := dangling + {target.value.name};
        }
      }
      i := i + 1;
    }
    return Success(dangling);
  }

  /** `validate_publication_snapshot`. */
  method ValidatePublication(p: Publication) returns (r: Result<(), CheckError>)
    ensures r.Success? <==> Publishable(p)
  {
    if p.isProtected && p.bookmarkConflicted {
      return Failure(Refused);
    }
    if p.isProtected && p.conflicts != {} {
      return Failure(Refused);
    }
    var gone := p.known - p.final.Keys;
    NothingGone(p.known, p.final.Keys);
    if gone == {} {
      return Success(());
    }
    if exists c :: c in p.conflicts && EndsWith(c, META_SUFFIX) {
      return Failure(Refused);
    }
    var dangling := false;
    var todo := p.final.Keys;
    while todo != {}
      invariant todo <= p.final.Keys
      invariant !dangling <==>
                forall n :: n in p.final && n !in todo ==> SafeSchema(p.project, p.repo, n, p.final[n], p.known, gone)
      decreases todo
    {
      var name :| name in todo;
      if p.final[name].Unreadable? {
        assert !SafeSchema(p.project, p.repo, name, p.final[name], p.known, gone);
        return Failure(CannotRead);
      }
      var found := DanglingImports(p.project, p.repo, name, p.final[name].imports, p.known, gone);
      assert found == Success({}) <==> SafeSchema(p.project, p.repo, name, p.final[name], p.known, gone);
      if found.Failure? {
        return Failure(found.error);
      }
      dangling := dangling || found.value != {};
      todo := todo - {name};
    }
    if dangling {
      return Failure(Refused);
    }
    return Success(());
  }

  // ----- planning a deletion -----

  /** Planned final states by schema name; none for a schema to be deleted. */
  type Overrides = map<string, Option<SchemaState>>

  function PlannedNames(tree: Tree, overrides: Overrides): set<string> { tree.Keys + overrides.Keys }

  /** The state a schema will have; none if it is deleted. */
  function Planned(tree: Tree, overrides: Overrides, name: string): Option<SchemaState> {
    if name in overrides then overrides[name] else if name in tree then Some(tree[name]) else None
  }

  /** No schema that stays, but the target itself, has an unpinned import of it, and all of them can be read. */
  ghost predicate NoDependents(project: string, repo: string, target: string, tree: Tree, overrides: Overrides,
                         conflicts: set<string>)
  {
    forall n :: n in PlannedNames(tree, overrides) && n != target && Planned(tree, overrides, n).Some? ==>
      && (n in overrides || n + META_SUFFIX !in conflicts)
      && SafeSchema(project, repo, n, Planned(tree, overrides, n).value, PlannedNames(tree, overrides), {target})
  }

  /** Whether some import leads to the target; an import after the first hit is not looked at. */
  method ImportsTarget(project: string, repo: string, name: string, imports: seq<Import>, names: set<string>,
                       target: string)
    returns (r: Result<bool, CheckError>)
    ensures r == Success(false) <==>
            forall i :: 0 <= i < |imports| ==> Safe(project, repo, name, imports[i], names, {target})
  {
    var i := 0;
    while i < |imports|
      invariant 0 <= i <= |imports|
      invariant forall k :: 0 <= k < i ==> Safe(project, repo, name, imports[k], names, {target})
    {
      SafeMeans(project, repo, name, imports[i], names, {target});
      if imports[i].pin == "" {
        var t := TargetOf(project, repo, name, imports[i], names);
        if t.Failure? {
          return Failure(Refused);
        }
        if t.value == SchemaPath(project, repo, target) {
          assert !Safe(project, repo, name, imports[i], names, {target});
          return Success(true);
        }
      }
      i := i + 1;
    }
    return Success(false);
  }

  /** `live_unpinned_dependents`. */
  method LiveUnpinnedDependents(project: string, repo: string, target: string, tree: Tree, overrides: Overrides,
                                conflicts: set<string>)
    returns (r: Result<set<string>, CheckError>)
    ensures r == Success({}) <==> NoDependents(project, repo, target, tree, overrides, conflicts)
  {
    var names := PlannedNames(tree, overrides);
    var dependents: set<string> := {};
    var todo := names;
    while todo != {}
      invariant todo <= names
      invariant dependents == {} <==>
                  forall n :: n in names && n !in todo && n != target && Planned(tree, overrides, n).Some? ==>
                    && (n in overrides || n + META_SUFFIX !in conflicts)
                    && SafeSchema(project, repo, n, Planned(tree, overrides, n).value, names, {target})
      decreases todo
    {
      var name :| name in todo;
      var state := Planned(tree, overrides, name);
      if name != target && state.Some? {
        if name !in overrides && name + META_SUFFIX in conflicts {
          return Failure(Refused);
        }
        if state.value.Unreadable? {
          assert !SafeSchema(project, repo, name, state.value, names, {target});
          return Failure(CannotRead);
        }
        var hit := ImportsTarget(project, repo, name, state.value.imports, names, target);
        assert hit == Success(false) <==> SafeSchema(project, repo, name, state.value, names, {target});
        if hit.Failure? {
          return Failure(hit.error);
        }
        if hit.value {
          dependents := dependents + {name};
        }
      }
      todo := todo - {name};
    }
    return Success(dependents);
  }

  /** `ensure_no_live_dependents`. */
  method EnsureNoLiveDependents(project: string, repo: string, target: string, tree: Tree, conflicts: set<string>)
    returns (r: Result<(), CheckError>)
    ensures r.Success? <==> NoDependents(project, repo, target, tree, map[], conflicts)
  {
    var dependents := LiveUnpinnedDependents(project, repo, target, tree, map[], conflicts);
    if dependents.Failure? {
      return Failure(dependents.error);
    }
    if dependents.value != {} {
      return Failure(Refused);
    }
    return Success(());
  }

  // ----- they agree -----

  /** The publication of a tree without one of its schemas, free of conflicts. */
  function Deletion(project: string, repo: string, isProtected: bool, tree: Tree, target: string): Publication {
    Publication(project, repo, isProtected, false, {}, tree - {target}, tree.Keys)
  }

  /**
   On an unconflicted snapshot, deleting a schema may be planned exactly when the tree without it may be published.
   */
  lemma PlanIsPublication(project: string, repo: string, isProtected: bool, tree: Tree, target: string)
    requires target in tree
    ensures NoDependents(project, repo, target, tree, map[], {}) <==>
            Publishable(Deletion(project, repo, isProtected, tree, target))
  {
    var p := Deletion(project, repo, isProtected, tree, target);
    assert PlannedNames(tree, map[]) == tree.Keys;
    assert p.known - p.final.Keys == {target};
    assert target in p.known && target !in p.final.Keys;
    forall n | n in p.final
      ensures SafeSchema(project, repo, n, p.final[n], p.known, p.known - p.final.Keys)
          <==> SafeSchema(project, repo, n, tree[n], tree.Keys, {target})
    {}
    assert forall n :: n in p.final <==> n in tree && n != target;
  }

  /** The publication of a plan that deletes, replaces and adds schemas, free of conflicts. */
  function PlanPublication(project: string, repo: string, isProtected: bool, tree: Tree, overrides: Overrides)
    : Publication
  {
    var names := PlannedNames(tree, overrides);
    Publication(project, repo, isProtected, false, {},
                map n | n in names && Planned(tree, overrides, n).Some? :: Planned(tree, overrides, n).value, names)
  }

  function Deleted(overrides: Overrides): set<string> { set n | n in overrides && overrides[n].None? }

  lemma SafeFromAll(project: string, repo: string, name: string, s: SchemaState, names: set<string>, gone: set<string>)
    requires gone != {}
    ensures SafeSchema(project, repo, name, s, names, gone) <==>
            forall t :: t in gone ==> SafeSchema(project, repo, name, s, names, {t})
  {
    if s.Readable? {
      forall i | 0 <= i < |s.imports|
        ensures Safe(project, repo, name, s.imports[i], names, gone) <==>
                forall t :: t in gone ==> Safe(project, repo, name, s.imports[i], names, {t})
      {
        SafeMeans(project, repo, name, s.imports[i], names, gone);
        forall t ensures Safe(project, repo, name, s.imports[i], names, {t}) <==>
                         var target := TargetOf(project, repo, name, s.imports[i], names);
                         || s.imports[i].pin != ""
                         || (target.Success? && target.value != SchemaPath(project, repo, t))
        {
          SafeMeans(project, repo, name, s.imports[i], names, {t});
        }
      }
    }
  }

  /** A whole plan: all its deletions may be planned exactly when its final tree may be published. */
  lemma PlansArePublications(project: string, repo: string, isProtected: bool, tree: Tree, overrides: Overrides)
    ensures (forall t :: t in Deleted(overrides) ==> NoDependents(project, repo, t, tree, overrides, {}))
        <==> Publishable(PlanPublication(project, repo, isProtected, tree, overrides))
  {
    var p := PlanPublication(project, repo, isProtected, tree, overrides);
    var gone := Deleted(overrides);
    assert p.known - p.final.Keys == gone;
    NothingGone(p.known, p.final.Keys);
    if gone != {} {
      forall n | n in p.final
        ensures SafeSchema(project, repo, n, p.final[n], p.known, gone)
            <==> forall t :: t in gone ==> SafeSchema(project, repo, n, p.final[n], p.known, {t})
      {
        SafeFromAll(project, repo, n, p.final[n], p.known, gone);
      }
      forall t | t in gone
        ensures NoDependents(project, repo, t, tree, overrides, {})
            <==> forall n :: n in p.final ==> SafeSchema(project, repo, n, p.final[n], p.known, {t})
      {
        DependentsInFinal(project, repo, isProtected, tree, overrides, t);
      }
    }
  }

  lemma DependentsInFinal(project: string, repo: string, isProtected: bool, tree: Tree, overrides: Overrides, t: string)
    requires t in Deleted(overrides)
    ensures var p := PlanPublication(project, repo, isProtected, tree, overrides);
            NoDependents(project, repo, t, tree, overrides, {})
            <==> forall n :: n in p.final ==> SafeSchema(project, repo, n, p.final[n], p.known, {t})
  {
    var p := PlanPublication(project, repo, isProtected, tree, overrides);
    assert forall n :: n in p.final <==> n in p.known && Planned(tree, overrides, n).Some?;
    assert t !in p.final;
  }

  // ----- what an accepted publication guarantees -----

  /**
   An unpinned import of this repository, resolved by these names, leads to a schema that is known but not present.
   */
  ghost predicate Dangles(p: Publication, name: string, i: Import, names: set<string>) {
    i.pin == "" && exists t ::
      && LeadsTo(p.project, p.repo, name, i, names, t)
      && t.project == p.project && t.repo == p.repo && t.name in p.known && t.name !in p.final
  }

  /** Resolved by the names of the published tree alone, an unpinned import leads to the same place. */
  lemma FinalTreeResolvesTheSame(p: Publication, name: string, i: nat)
    requires Publishable(p) && p.final.Keys <= p.known && name in p.final
    requires p.final[name].Readable? && i < |p.final[name].imports| && p.final[name].imports[i].pin == ""
    ensures forall t :: LeadsTo(p.project, p.repo, name, p.final[name].imports[i], p.final.Keys, t) <==>
                        LeadsTo(p.project, p.repo, name, p.final[name].imports[i], p.known, t)
  {
    var importer, path := SchemaPath(p.project, p.repo, name), p.final[name].imports[i].path;
    SafeMeans(p.project, p.repo, name, p.final[name].imports[i], p.known, p.known - p.final.Keys);
    NormalizeExactly(importer, path, p.final.Keys);
    NormalizeExactly(importer, path, p.known);
    assert Normalize(importer, path, p.final.Keys) == Normalize(importer, path, p.known);
  }

  /**
   After an accepted publication no import of any readable schema dangles, whether it is resolved by the names known
   before or by those of the published tree alone.
   */
  lemma AcceptedImportsArePresent(p: Publication, name: string, i: nat)
    requires Publishable(p) && name in p.final && p.final[name].Readable? && i < |p.final[name].imports|
    ensures !Dangles(p, name, p.final[name].imports[i], p.known)
    ensures p.final.Keys <= p.known ==> !Dangles(p, name, p.final[name].imports[i], p.final.Keys)
  {
    var imp := p.final[name].imports[i];
    NormalizeExactly(SchemaPath(p.project, p.repo, name), imp.path, p.known);
    SafeMeans(p.project, p.repo, name, imp, p.known, p.known - p.final.Keys);
    if imp.pin == "" && p.final.Keys <= p.known {
      FinalTreeResolvesTheSame(p, name, i);
    }
  }
}
