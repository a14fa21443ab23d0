/**
 A service with distinctly named RPCs as a plain table from RPC name to its types and streaming flags: each RPC
 operation is one update of the table, accepted on the same condition, and so is every run.
 */
module ProtoServiceViews {
  import opened Wrappers
  import opened NamedTables
  import opened Descriptors
  import opened Effects
  import opened ProtoOps

  datatype RpcRow = RpcRow(
    request: Option<string>, response: Option<string>, clientStreaming: Option<bool>, serverStreaming: Option<bool>,
    options: Option<MethodOptions>)

  type Table = map<string, RpcRow>

  function RpcName(m: RpcMethod): Option<string> { m.name }

  function RowOf(m: RpcMethod): RpcRow {
    RpcRow(m.inputType, m.outputType, m.clientStreaming, m.serverStreaming, m.options)
  }

  /** The table is what the service says. */
  ghost predicate Shows(s: Service, t: Table) { Lists(s.rpcs, RpcName, RowOf, t) }

  predicate Accepts(t: Table, op: ProtoOp)
    requires EditsService(op)
  {
    match op
    case AddRpc(_, rpc, _, _, _, _) => rpc !in t
    case RemoveRpc(_, rpc) => rpc in t
    case RenameRpc(_, rpc, newName) => rpc in t && newName !in t
    case ChangeRpcType(_, rpc, _, _) => rpc in t
  }

  /** The row of an RPC after a change of types: a type that is given replaces the old one. */
  function Retyped(row: RpcRow, newRequest: string, newResponse: string): RpcRow {
    row.(request := if newRequest != "" then Some(newRequest) else row.request,
         response := if newResponse != "" then Some(newResponse) else row.response)
  }

  function Edited(t: Table, op: ProtoOp): Table
    requires EditsService(op) && Accepts(t, op)
  {
    match op
    case AddRpc(_, rpc, request, response, clientStreaming, serverStreaming) =>
      t[rpc := RpcRow(Some(request), Some(response), Some(clientStreaming), Some(serverStreaming), None)]
    case RemoveRpc(_, rpc) => t - {rpc}
    case RenameRpc(_, rpc, newName) => (t - {rpc})[newName := t[rpc]]
    case ChangeRpcType(_, rpc, newRequest, newResponse) => t[rpc := Retyped(t[rpc], newRequest, newResponse)]
  }

  lemma FoundExactly(s: Service, t: Table, rpc: string)
    requires Shows(s, t)
    ensures FindRpc(s.rpcs, rpc).Some? <==> rpc in t
    ensures rpc in t ==> t[rpc] == RowOf(s.rpcs[FindRpc(s.rpcs, rpc).value])
  {
    if rpc in t {
      assert Carries(s.rpcs, RpcName, rpc);
    }
  }

  /** The service is edited as the table is; its other RPCs and everything else stay as they were. */
  ghost predicate EditedAs(s: Service, next: Service, t: Table, op: ProtoOp)
    requires EditsService(op)
  {
    && Accepts(t, op) && Shows(next, Edited(t, op))
    && InOrder(s.rpcs, next.rpcs, RpcName, op.rpc) && next == s.(rpcs := next.rpcs)
  }

  /** One RPC operation: accepted on the table's condition, an update of the table, and nothing but the RPCs changes. */
  lemma EditAgrees(s: Service, t: Table, op: ProtoOp)
    requires EditsService(op) && Shows(s, t)
    ensures EditService(s, op).Success? <==> Accepts(t, op)
    ensures EditService(s, op).Success? ==> EditedAs(s, EditService(s, op).value, t, op)
  {
    FoundExactly(s, t, op.rpc);
    var at := FindRpc(s.rpcs, op.rpc);
    if op.AddRpc? {
      if at.None? {
        var added := EditService(s, op).value;
        Appended(s.rpcs, RpcName, RowOf, t, added.rpcs[|s.rpcs|]);
      }
    } else if at.Some? {
      if op.RemoveRpc? {
        Dropped(s.rpcs, RpcName, RowOf, t, at.value);
      } else if op.RenameRpc? {
        FoundExactly(s, t, op.newName);
        if op.newName !in t {
          Rekeyed(s.rpcs, RpcName, RowOf, t, at.value, s.rpcs[at.value].(name := Some(op.newName)));
        }
      } else {
        Replaced(s.rpcs, RpcName, RowOf, t, at.value, EditService(s, op).value.rpcs[at.value]);
      }
    }
  }

  // ----- runs -----

  function EditAll(s: Service, ops: seq<ProtoOp>): Result<Service, MutationError>
    decreases |ops|
  {
    if ops == [] then Success(s)
    else if !EditsService(ops[0]) then Failure(InvalidOperation)
    else
      var next :- EditService(s, ops[0]);
      EditAll(next, ops[1..])
  }

  function EditedAll(t: Table, ops: seq<ProtoOp>): Option<Table>
    decreases |ops|
  {
    if ops == [] then Some(t)
    else if EditsService(ops[0]) && Accepts(t, ops[0]) then EditedAll(Edited(t, ops[0]), ops[1..])
    else None
  }

  /** A run succeeds on the service exactly when it does on the table, and shows the table's result. */
  lemma {:induction false} RunAgrees(s: Service, t: Table, ops: seq<ProtoOp>)
    requires Shows(s, t)
    ensures EditAll(s, ops).Success? <==> EditedAll(t, ops).Some?
    ensures EditAll(s, ops).Success? ==> Shows(EditAll(s, ops).value, EditedAll(t, ops).value)
    decreases |ops|
  {
    if ops != [] && EditsService(ops[0]) {
      EditAgrees(s, t, ops[0]);
      if Accepts(t, ops[0]) {
        RunAgrees(EditService(s, ops[0]).value, Edited(t, ops[0]), ops[1..]);
      }
    }
  }

  /** One service changes, as the table does, and nothing else. */
  ghost predicate OneServiceChanges(d: Doc, next: Doc, t: Table, op: ProtoOp)
    requires EditsService(op) && op.service in d.services
  {
    && next == d.(services := next.services) && next.services.Keys == d.services.Keys
    && (forall n :: n in d.services && n != op.service ==> next.services[n] == d.services[n])
    && EditedAs(d.services[op.service], next.services[op.service], t, op)
  }

  lemma OneChanges(d: Doc, s: Service, t: Table, op: ProtoOp)
    requires EditsService(op) && op.service in d.services && EditedAs(d.services[op.service], s, t, op)
    ensures OneServiceChanges(d, d.(services := d.services[op.service := s]), t, op)
  {}

  /** The same on a file. */
  lemma EditAgreesIn(d: Doc, t: Table, op: ProtoOp)
    requires EditsService(op) && op.service in d.services && Shows(d.services[op.service], t)
    ensures EditServiceIn(d, op).Success? <==> Accepts(t, op)
    ensures EditServiceIn(d, op).Success? ==> OneServiceChanges(d, EditServiceIn(d, op).value, t, op)
  {
    var edited := EditService(d.services[op.service], op);
    assert EditServiceIn(d, op) == match edited
      case Success(s) => Success(d.(services := d.services[op.service := s]))
      case Failure(e) => Failure(e);
    EditAgrees(d.services[op.service], t, op);
    if edited.Success? {
      OneChanges(d, edited.value, t, op);
    }
  }

  /** A new service has an empty table. */
  lemma CreatedEmpty(d: Doc, name: string)
    ensures AddServiceIn(d, name).Success? <==> name !in d.messages && name !in d.enums && name !in d.services
    ensures AddServiceIn(d, name).Success? ==>
              var next := AddServiceIn(d, name).value;
              && next == d.(services := next.services, meta := next.meta) && next.services - {name} == d.services
              && name in next.services && Shows(next.services[name], map[])
  {
    if AddServiceIn(d, name).Success? {
      assert AddServiceIn(d, name).value.services - {name} == d.services;
    }
  }
}
