/** Whole batches of FlatBuffers operations: against operations stored one at a time, and what they leave dangling. */
module FlatBatches {
  import opened Wrappers
  import opened Effects
  import opened FlatOps
  import opened FlatEngine

  /**
   Operations accepted one at a time also run as a batch, with the same result; the final check is a separate matter.
   */
  lemma {:induction false} BatchIsOneByOne(s: Doc, ops: seq<FlatOp>)
    requires Run(s, ops, false).Success?
    ensures Run(s, ops, true) == Run(s, ops, false)
    decreases |ops|
  {
    if ops != [] {
      DeferOnlyAccepts(s, ops[0]);
      BatchIsOneByOne(ApplyOp(s, ops[0], false).value, ops[1..]);
    }
  }

  /** The schema a batch ends in is the one its run ends in. */
  lemma {:induction false} ProgressIsRun(p: Progress, ops: seq<FlatOp>, defer: bool)
    ensures Run(p.doc, ops, defer).Failure? ==> RunFrom(p, ops, defer) == Failure(Run(p.doc, ops, defer).error)
    ensures Run(p.doc, ops, defer).Success? ==>
              RunFrom(p, ops, defer).Success? && RunFrom(p, ops, defer).value.doc == Run(p.doc, ops, defer).value
    decreases |ops|
  {
    if ops != [] && ApplyOp(p.doc, ops[0], defer).Success? {
      ProgressIsRun(Advance(p, ops[0], defer).value, ops[1..], defer);
    }
  }

  /** The names that some operation drops. */
  function DroppedBy(ops: seq<FlatOp>): set<string>
    decreases |ops|
  {
    if ops == [] then {} else Drops(ops[0]) + DroppedBy(ops[1..])
  }

  /** The enum values that are removed and not added back later. */
  function ValuesGone(values: set<(string, string)>, ops: seq<FlatOp>): set<(string, string)>
    decreases |ops|
  {
    if ops == [] then values else ValuesGone(ValuesAfter(values, ops[0]), ops[1..])
  }

  lemma {:induction false} ProgressRecords(p: Progress, ops: seq<FlatOp>, defer: bool)
    requires RunFrom(p, ops, defer).Success?
    ensures var q := RunFrom(p, ops, defer).value;
            q.dropped == p.dropped + DroppedBy(ops) && q.values == ValuesGone(p.values, ops)
    decreases |ops|
  {
    if ops != [] {
      ProgressRecords(Advance(p, ops[0], defer).value, ops[1..], defer);
    }
  }

  /** The outcome of a batch: what its run leads to, unless something dangles at the end. */
  ghost function BatchResult(s: Doc, ops: seq<FlatOp>): Result<Doc, MutationError> {
    match RunFrom(Start(s), ops, true)
    case Failure(e) => Failure(e)
    case Success(p) => if NothingDangling(p) then Success(p.doc) else Failure(InvalidOperation)
  }

  /** Nothing in the schema refers to a name these operations drop or uses an enum value they remove. */
  ghost predicate ClosedAfter(d: Doc, ops: seq<FlatOp>) {
    && (forall n :: n in DroppedBy(ops) ==> !Referenced(d, n, None))
    && (forall v :: v in ValuesGone({}, ops) ==> !ValueUsed(d, v.0, v.1))
  }

  /** Operations accepted one at a time are accepted as a batch exactly when nothing dangles where they end. */
  lemma OneByOneAsBatch(s: Doc, ops: seq<FlatOp>)
    requires Run(s, ops, false).Success?
    ensures var d := Run(s, ops, false).value;
            BatchResult(s, ops) == if ClosedAfter(d, ops) then Success(d) else Failure(InvalidOperation)
  {
    BatchIsOneByOne(s, ops);
    ProgressIsRun(Start(s), ops, true);
    ProgressRecords(Start(s), ops, true);
    assert RunFrom(Start(s), ops, true).value.dropped == DroppedBy(ops);
  }

  lemma {:induction false} GoneWasDropped(p: Progress, ops: seq<FlatOp>, defer: bool, name: string)
    requires RunFrom(p, ops, defer).Success? && name !in RunFrom(p, ops, defer).value.doc.decls
    requires name in p.doc.decls || name in p.dropped
    ensures name in RunFrom(p, ops, defer).value.dropped
    decreases |ops|
  {
    if ops != [] {
      OpCovered(p.doc, ops[0], defer);
      GoneWasDropped(Advance(p, ops[0], defer).value, ops[1..], defer, name);
    }
  }

  lemma {:induction false} RunInTwo(p: Progress, ops: seq<FlatOp>, defer: bool, k: nat)
    requires k <= |ops| && RunFrom(p, ops[..k], defer).Success?
    ensures RunFrom(p, ops, defer) == RunFrom(RunFrom(p, ops[..k], defer).value, ops[k..], defer)
    decreases k
  {
    if k > 0 {
      assert ops[..k][1..] == ops[1..][..k - 1] && ops[1..][k - 1..] == ops[k..];
      RunInTwo(Advance(p, ops[0], defer).value, ops[1..], defer, k - 1);
    }
  }

  /**
   After an accepted batch no declaration and not the root type refers to a name that the stored schema or any point
   of the batch declared and the result does not.
   */
  lemma AcceptedBatchDanglesNothing(s: Doc, ops: seq<FlatOp>, final: Progress, k: nat, mid: Progress, name: string)
    requires RunFrom(Start(s), ops, true) == Success(final) && NothingDangling(final)
    requires k <= |ops| && RunFrom(Start(s), ops[..k], true) == Success(mid)
    requires name in mid.doc.decls && name !in final.doc.decls
    ensures !Referenced(final.doc, name, None)
  {
    RunInTwo(Start(s), ops, true, k);
    GoneWasDropped(mid, ops[k..], true, name);
  }

  /** A dropped name was declared before the operation that dropped it. */
  lemma {:induction false} DroppedWasDeclared(p: Progress, ops: seq<FlatOp>, defer: bool, name: string) returns (k: nat)
    requires RunFrom(p, ops, defer).Success? && name in RunFrom(p, ops, defer).value.dropped && name !in p.dropped
    ensures k <= |ops| && RunFrom(p, ops[..k], defer).Success? && name in RunFrom(p, ops[..k], defer).value.doc.decls
    decreases |ops|
  {
    if name in Drops(ops[0]) {
      k := 0;
    } else {
      k := DroppedWasDeclared(Advance(p, ops[0], defer).value, ops[1..], defer, name);
      k := k + 1;
      assert ops[..k][1..] == ops[1..][..k - 1];
    }
  }

  /** The name is declared at some point of the run. */
  ghost predicate DeclaredDuring(s: Doc, ops: seq<FlatOp>, name: string) {
    exists k: nat ::
      && k <= |ops| && RunFrom(Start(s), ops[..k], true).Success?
      && name in RunFrom(Start(s), ops[..k], true).value.doc.decls
  }

  /** Something refers to a name that was declared at some point and is not at the end. */
  ghost predicate NameDangles(s: Doc, ops: seq<FlatOp>, final: Doc) {
    exists name :: DeclaredDuring(s, ops, name) && name !in final.decls && Referenced(final, name, None)
  }

  /** A batch that declares no dropped name again is refused exactly when a name dangles or a removed value is used. */
  lemma RefusedExactly(s: Doc, ops: seq<FlatOp>, final: Progress)
    requires RunFrom(Start(s), ops, true) == Success(final) && final.dropped !! final.doc.decls.Keys
    ensures !NothingDangling(final) <==>
            NameDangles(s, ops, final.doc) || exists v :: v in final.values && ValueUsed(final.doc, v.0, v.1)
  {
    if NameDangles(s, ops, final.doc) {
      var name :| DeclaredDuring(s, ops, name) && name !in final.doc.decls && Referenced(final.doc, name, None);
      var k: nat :| k <= |ops| && RunFrom(Start(s), ops[..k], true).Success?
        && name in RunFrom(Start(s), ops[..k], true).value.doc.decls;
      RunInTwo(Start(s), ops, true, k);
      GoneWasDropped(RunFrom(Start(s), ops[..k], true).value, ops[k..], true, name);
    }
    forall n | n in final.dropped ensures n !in final.doc.decls && DeclaredDuring(s, ops, n) {
      var k := DroppedWasDeclared(Start(s), ops, true, n);
    }
  }

  /** The check is sound, not complete: deleting a referenced table and creating it again is refused. */
  lemma RecreationIsRefused(s: Doc, name: string, user: string)
    requires name in s.decls && KindIs(s.decls[name], TableKind)
    requires user in s.decls && user != name && PayloadReferences(s.decls[user], name)
    ensures var r := RunFrom(Start(s), [DeleteDecl(TableKind, name), CreateTable(name, None)], true);
            r.Success? && name in r.value.doc.decls && !NothingDangling(r.value)
  {
    var delete, create := DeleteDecl(TableKind, name), CreateTable(name, None);
    var gone := Advance(Start(s), delete, true).value;
    var back := Advance(gone, create, true).value;
    assert [delete, create][1..] == [create] && [create][1..] == [];
    assert RunFrom(gone, [create], true) == RunFrom(back, [], true) == Success(back);
    assert back.doc.decls[user] == s.decls[user];
    assert Referenced(back.doc, name, None);
    assert name in back.dropped;
  }

  lemma TwoOps(s: Doc, a: FlatOp, b: FlatOp, defer: bool)
    requires ApplyOp(s, a, defer).Success? && ApplyOp(ApplyOp(s, a, defer).value, b, defer).Success?
    ensures Run(s, [a, b], defer) == ApplyOp(ApplyOp(s, a, defer).value, b, defer)
  {
    var mid := ApplyOp(s, a, defer).value;
    assert [a, b][1..] == [b] && [b][1..] == [];
    assert Run(mid, [b], defer) == Run(ApplyOp(mid, b, defer).value, [], defer);
  }

  /** Deleting a table and then using its name: accepted one at a time, refused as a batch, from any schema. */
  lemma UseAfterDelete(s: Doc, gone: string, user: string, field: string, ops: seq<FlatOp>)
    requires gone in s.decls && KindIs(s.decls[gone], TableKind) && !Referenced(s, gone, Some(gone))
    requires user in s.decls && user != gone && KindIs(s.decls[user], TableKind)
    requires FindField(s.decls[user].obj.fields, field).None? && ParseTypeSpec(gone).name == Some(gone)
    requires ops == [DeleteDecl(TableKind, gone), AddField(user, field, gone, None, None)]
    ensures Run(s, ops, false).Success? && BatchResult(s, ops) == Failure(InvalidOperation)
  {
    var delete, add := ops[0], ops[1];
    var mid := ApplyOp(s, delete, false).value;
    assert mid.decls[user] == s.decls[user];
    var d := ApplyOp(mid, add, false).value;
    var fs := d.decls[user].obj.fields;
    assert FieldRefers(fs[|fs| - 1], gone);
    assert Referenced(d, gone, None);
    TwoOps(s, delete, add, false);
    OneByOneAsBatch(s, ops);
    assert gone in DroppedBy(ops);
  }
}
