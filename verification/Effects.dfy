/** What a mutation produces for the store, and the bookkeeping from which the engines produce it. */
module Effects {
  import opened Wrappers

  /** One schema file: declarations by name, and file metadata. */
  datatype Schema<D, M> = Schema(decls: map<string, D>, meta: M)

  /** A net change: new metadata if any, declarations to write, declarations to drop. */
  datatype Effect<D, M> = Effect(meta: Option<M>, upserts: map<string, D>, removes: set<string>)

  datatype MutationError =
    | MalformedBlob
    | DeclarationNotFound(name: string)
    | FieldNotFound(declaration: string, field: string)
    | FieldNumberConflict(number: nat)
    | FieldNumberReserved(number: nat)
    | InvalidOperation

  function Patch<D, M>(base: Schema<D, M>, e: Effect<D, M>): Schema<D, M> {
    Schema((base.decls - e.removes) + e.upserts, e.meta.GetOr(base.meta))
  }

  /**
   `touched`, `removed` and `dirty` account for every difference between `base` and `now`: an untouched survivor is
   the base declaration, a base declaration that is gone is listed as removed, and clean metadata is unchanged.
   */
  ghost predicate Accounts<D, M>(base: Schema<D, M>, now: Schema<D, M>, touched: set<string>, removed: set<string>,
                                 dirty: bool)
  {
    && (forall n :: n in now.decls && n !in touched ==> n in base.decls && base.decls[n] == now.decls[n])
    && (forall n :: n in base.decls && n !in now.decls ==> n in removed)
    && (!dirty ==> now.meta == base.meta)
  }

  /** The patch built from complete bookkeeping reproduces the working state. */
  lemma AccountedPatch<D, M>(base: Schema<D, M>, now: Schema<D, M>, touched: set<string>, removed: set<string>,
                             dirty: bool, e: Effect<D, M>)
    requires Accounts(base, now, touched, removed, dirty)
    requires e.meta == if dirty then Some(now.meta) else None
    requires e.upserts == map n | n in touched && n in now.decls :: now.decls[n]
    requires forall n :: n in removed && n in base.decls && n !in now.decls ==> n in e.removes
    requires forall n :: n in e.removes ==> n !in now.decls
    ensures Patch(base, e) == now
    ensures e.upserts.Keys !! e.removes
  {}

  /** One step of bookkeeping: what it leaves untouched is unchanged, what it drops is listed. */
  lemma AccountsStep<D, M>(base: Schema<D, M>, before: Schema<D, M>, after: Schema<D, M>,
                           touched: set<string>, touched': set<string>, removed: set<string>, removed': set<string>,
                           dirty: bool, dirty': bool)
    requires Accounts(base, before, touched, removed, dirty)
    requires forall n :: n in after.decls && n !in touched' ==>
               n !in touched && n in before.decls && after.decls[n] == before.decls[n]
    requires forall n :: n in before.decls && n !in after.decls ==> n in removed'
    requires forall n :: n in removed && n !in after.decls ==> n in removed'
    requires !dirty' ==> !dirty && after.meta == before.meta
    ensures Accounts(base, after, touched', removed', dirty')
  {}

  /** Rewrite every entry in place and collect the names of those the rewrite changes. */
  method RewriteAll<T>(items: map<string, T>, refers: (string, T) -> bool, rewrite: (string, T) -> T)
    returns (out: map<string, T>, changed: set<string>)
    ensures out == map n | n in items :: rewrite(n, items[n])
    ensures changed == set n | n in items && refers(n, items[n])
  {
    out, changed := items, {};
    var todo := items.Keys;
    while todo != {}
      invariant todo <= items.Keys == out.Keys
      invariant forall n :: n in items ==> out[n] == if n in todo then items[n] else rewrite(n, items[n])
      invariant changed == set n | n in items && n !in todo && refers(n, items[n])
      decreases todo
    {
      var name :| name in todo;
      if refers(name, out[name]) {
        changed := changed + {name};
      }
      out := out[name := rewrite(name, out[name])];
      todo := todo - {name};
    }
  }
}
