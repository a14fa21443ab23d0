/** Whole batches of Protobuf operations: against operations stored one at a time, and what they leave dangling. */
module ProtoBatches {
  import opened Wrappers
  import opened Text
  import opened Descriptors
  import opened Effects
  import opened ProtoOps
  import opened ProtoEngine

  /** Every operation applied on its own, its result stored before the next one is loaded. */
  function StoredOneByOne(s: Schema<Decl, Meta>, ops: seq<ProtoOp>): Result<Schema<Decl, Meta>, MutationError>
    decreases |ops|
  {
    if ops == [] then Success(s)
    else
      var d :- ApplyOp(Load(s), ops[0], false);
      StoredOneByOne(Stored(d), ops[1..])
  }

  /**
   Operations accepted and stored one at a time also run as a batch, to the same schema; the final check is separate.
   */
  lemma {:induction false} BatchIsOneByOne(s: Schema<Decl, Meta>, ops: seq<ProtoOp>)
    requires StoredOneByOne(s, ops).Success?
    ensures Run(Load(s), ops, true).Success?
    ensures Stored(Run(Load(s), ops, true).value) == StoredOneByOne(s, ops).value
    decreases |ops|
  {
    StoredLoad(s);
    if ops != [] {
      DeferOnlyAccepts(Load(s), ops[0]);
      var d := ApplyOp(Load(s), ops[0], false).value;
      ApplyKeepsKindsApart(Load(s), ops[0], false);
      LoadStored(d);
      BatchIsOneByOne(Stored(d), ops[1..]);
    }
  }

  /**
   Nothing in the schema refers to a name that the run declared and the schema lacks, or uses a value the run removed.
   */
  ghost predicate ClosedAfter(s: Schema<Decl, Meta>, ops: seq<ProtoOp>, end: Schema<Decl, Meta>) {
    NothingDangling(Load(end), Ever(Load(s), ops, true) - end.decls.Keys, RemovedValues(ops))
  }

  /** The outcome of a batch: what its run leads to, unless something dangles at the end. */
  ghost function BatchResult(s: Schema<Decl, Meta>, ops: seq<ProtoOp>): Result<Schema<Decl, Meta>, MutationError> {
    match Run(Load(s), ops, true)
    case Failure(e) => Failure(e)
    case Success(d) =>
      if NothingDangling(d, Ever(Load(s), ops, true) - NamesOf(d), RemovedValues(ops)) then Success(Stored(d))
      else Failure(InvalidOperation)
  }

  lemma {:induction false} RunKeepsKindsApart(d: Doc, ops: seq<ProtoOp>, defer: bool)
    requires KindsApart(d) && Run(d, ops, defer).Success?
    ensures KindsApart(Run(d, ops, defer).value)
    decreases |ops|
  {
    if ops != [] {
      ApplyKeepsKindsApart(d, ops[0], defer);
      RunKeepsKindsApart(ApplyOp(d, ops[0], defer).value, ops[1..], defer);
    }
  }

  /** Operations accepted one at a time are accepted as a batch exactly when nothing dangles where they end. */
  lemma OneByOneAsBatch(s: Schema<Decl, Meta>, ops: seq<ProtoOp>)
    requires StoredOneByOne(s, ops).Success?
    ensures var end := StoredOneByOne(s, ops).value;
            BatchResult(s, ops) == if ClosedAfter(s, ops, end) then Success(end) else Failure(InvalidOperation)
  {
    BatchIsOneByOne(s, ops);
    StoredLoad(s);
    RunKeepsKindsApart(Load(s), ops, true);
    var d := Run(Load(s), ops, true).value;
    LoadStored(d);
    assert Stored(d).decls.Keys == NamesOf(d);
  }

  /** Whatever a prefix of the run declares counts as declared during the run. */
  lemma {:induction false} PrefixNamesEver(d: Doc, ops: seq<ProtoOp>, defer: bool, k: nat)
    requires k <= |ops| && Run(d, ops[..k], defer).Success?
    ensures NamesOf(Run(d, ops[..k], defer).value) <= Ever(d, ops, defer)
    decreases |ops|
  {
    if k > 0 {
      var next := FirstStep(d, ops, defer, k);
      PrefixNamesEver(next, ops[1..], defer, k - 1);
    }
  }

  lemma FirstStep(d: Doc, ops: seq<ProtoOp>, defer: bool, k: nat) returns (next: Doc)
    requires 0 < k <= |ops| && Run(d, ops[..k], defer).Success?
    ensures Run(d, ops[..k], defer) == Run(next, ops[1..][..k - 1], defer)
    ensures Ever(next, ops[1..], defer) <= Ever(d, ops, defer)
  {
    next := ApplyOp(d, ops[0], defer).value;
    assert ops[..k][1..] == ops[1..][..k - 1];
  }

  lemma GoneIsUnreferenced(d: Doc, gone: set<string>, values: set<(string, string)>, name: string)
    requires NothingDangling(d, gone, values) && name in gone && name !in NamesOf(d)
    ensures !Referenced(d, name, None)
  {}

  /**
   After an accepted batch nothing - no message at any nesting, no service, no file extension - refers to a name that
   the stored schema or any point of the batch declared and the result does not.
   */
  lemma AcceptedBatchDanglesNothing(s: Schema<Decl, Meta>, ops: seq<ProtoOp>, final: Doc, k: nat, mid: Doc,
                                    name: string)
    requires Run(Load(s), ops, true) == Success(final)
    requires NothingDangling(final, Ever(Load(s), ops, true) - NamesOf(final), RemovedValues(ops))
    requires k <= |ops| && Run(Load(s), ops[..k], true) == Success(mid)
    requires name in NamesOf(mid) && name !in NamesOf(final)
    ensures !Referenced(final, name, None)
  {
    assert name in Ever(Load(s), ops, true) by { PrefixNamesEver(Load(s), ops, true, k); }
    GoneIsUnreferenced(final, Ever(Load(s), ops, true) - NamesOf(final), RemovedValues(ops), name);
  }

  lemma TwoOps(s: Schema<Decl, Meta>, a: ProtoOp, b: ProtoOp, mid: Doc, end: Doc)
    requires ApplyOp(Load(s), a, false) == Success(mid) && KindsApart(mid) && ApplyOp(mid, b, false) == Success(end)
    ensures StoredOneByOne(s, [a, b]) == Success(Stored(end))
  {
    assert [a, b][1..] == [b] && [b][1..] == [];
    LoadStored(mid);
    assert StoredOneByOne(Stored(mid), [b]) == StoredOneByOne(Stored(end), []);
  }

  /** Deleting a message and then using its name: accepted one at a time, refused as a batch, from any schema. */
  lemma UseAfterDelete(s: Schema<Decl, Meta>, gone: string, user: string, mid: Doc, end: Doc, ops: seq<ProtoOp>)
    requires |ops| == 2 && ops[0] == DeleteMessage(gone) && ops[1].AddField? && ops[1].message == user && user != gone
    requires ops[1].fieldType == gone && DotFree(gone) && ScalarType(gone).None?
    requires ApplyOp(Load(s), ops[0], false) == Success(mid) && ApplyOp(mid, ops[1], false) == Success(end)
    ensures StoredOneByOne(s, ops).Success? && BatchResult(s, ops) == Failure(InvalidOperation)
  {
    StoredLoad(s);
    ApplyKeepsKindsApart(Load(s), ops[0], false);
    ApplyKeepsKindsApart(mid, ops[1], false);
    assert ops == [ops[0], ops[1]];
    TwoOps(s, ops[0], ops[1], mid, end);
    LoadStored(end);
    OneByOneAsBatch(s, ops);
    UsedAndGone(Load(s), gone, user, mid, end, ops);
  }

  lemma AddedFieldRefers(d: Doc, end: Doc, op: ProtoOp)
    requires op.AddField? && DotFree(op.fieldType) && ScalarType(op.fieldType).None?
    requires EditMessageIn(d, op) == Success(end)
    ensures op.message in end.messages && MessageReferences(end.messages[op.message], op.fieldType)
    ensures end.messages.Keys == d.messages.Keys && end.enums == d.enums && end.services == d.services
  {
    var fs := end.messages[op.message].field;
    SimpleParts(op.fieldType);
    assert FieldReferences(fs[|fs| - 1], op.fieldType);
  }

  lemma UsedAndGone(d: Doc, gone: string, user: string, mid: Doc, end: Doc, ops: seq<ProtoOp>)
    requires |ops| == 2 && ops[0] == DeleteMessage(gone) && ops[1].AddField? && ops[1].message == user && user != gone
    requires ops[1].fieldType == gone && DotFree(gone) && ScalarType(gone).None? && KindsApart(d)
    requires DeleteMessageIn(d, gone, false) == Success(mid) && EditMessageIn(mid, ops[1]) == Success(end)
    ensures gone in Ever(d, ops, true) && gone !in NamesOf(end) && Referenced(end, gone, Some(gone))
  {
    AddedFieldRefers(mid, end, ops[1]);
    assert gone in NamesOf(d);
  }
}
