/**
 Every interleaving of create, update and archive calls over the compare-and-swap record database. A call reads the
 record, prepares its write, has the store read the record again and check the etag, and finally swaps; other calls
 may run between any two of these steps.
 */
module EtagProtocol {
  import opened Wrappers
  import opened Text
  import opened Wire
  import opened Repositories
  import Utf8

  type Records = map<string, Repository>

  /** How far a call has come. `copy` is the record it read and patched, `current` the one the store read. */
  datatype Phase =
    | Begun
    | Prepared(copy: Repository)
    | Checked(copy: Repository, current: Repository, replacement: Repository)
    | Done(result: Result<Repository, RepositoryError>)

  /** `issued` is the newest version of the record when the call began; 0 when there was none. */
  datatype Call = Call(request: Request, issued: nat, phase: Phase)

  /** A successful swap: `from` was the stored record, `copy` the record the call had patched. */
  datatype Commit = Commit(request: Request, issued: nat, copy: Repository, from: Repository, to: Repository)

  datatype State = State(records: Records, calls: map<nat, Call>, log: seq<Commit>)

  datatype Event = Begin(id: nat, request: Request) | Advance(id: nat)

  function Version(r: Repository): nat { VersionOf(r.etag).GetOr(0) }

  function NameOf(q: Request): string { if q.Create? then q.record.resourceName else q.name }

  function Newest(records: Records, name: string): nat {
    if name in records then Version(records[name]) else 0
  }

  // ----- steps -----

  /** The next step of a call: new records, the call's new phase, and the commit it made, if any. */
  function Move(records: Records, c: Call): (Records, Phase, Option<Commit>) {
    var q, name := c.request, NameOf(c.request);
    match c.phase
    case Begun =>
      if q.Create? then
        if name in records then (records, Done(Failure(AlreadyExists)), None)
        else (records[name := q.record.(etag := "v1")], Done(Success(q.record.(etag := "v1"))), None)
      else
        var read := if name in records then Some(records[name]) else None;
        var plan := PlanOf(q, read);
        if plan.Finish? then (records, Done(plan.result), None) else (records, Prepared(read.value), None)
    case Prepared(copy) =>
      if q.Create? || name !in records then (records, Done(Failure(NotFound)), None)
      else if records[name].etag != q.expected then (records, Done(Failure(EtagMismatch)), None)
      else
        var etag := NextEtag(records[name].etag);
        if etag.Failure? then (records, Done(Failure(etag.error)), None)
        else (records, Checked(copy, records[name], Patched(q, copy).(etag := etag.value)), None)
    case Checked(copy, current, replacement) =>
      if name in records && records[name] == current then
        (records[name := replacement], Done(Success(replacement)),
         Some(Commit(q, c.issued, copy, current, replacement)))
      else (records, Done(Failure(EtagMismatch)), None)
    case Done(_) => (records, c.phase, None)
  }

  function Step(s: State, e: Event): State {
    match e
    case Begin(id, request) =>
      if id in s.calls then s
      else s.(calls := s.calls[id := Call(request, Newest(s.records, NameOf(request)), Begun)])
    case Advance(id) =>
      if id !in s.calls then s
      else
        var (records, phase, commit) := Move(s.records, s.calls[id]);
        State(records, s.calls[id := s.calls[id].(phase := phase)],
              if commit.Some? then s.log + [commit.value] else s.log)
  }

  function Exec(s: State, events: seq<Event>): State
    decreases |events|
  {
    if events == [] then s else Exec(Step(s, events[0]), events[1..])
  }

  // ----- invariant -----

  /** An etag the store itself rendered. */
  predicate Canonical(r: Repository) {
    r.etag == Etag(Version(r)) && 1 <= Version(r) < U64_LIMIT
  }

  /** `r` was the stored record at some time: not newer than the stored one, and the same if not older. */
  ghost predicate Known(records: Records, name: string, r: Repository) {
    && name in records && Canonical(r) && r.resourceName == name
    && Version(r) <= Version(records[name])
    && (Version(r) == Version(records[name]) ==> r == records[name])
  }

  ghost predicate CallOk(records: Records, c: Call) {
    var q, name := c.request, NameOf(c.request);
    && c.issued <= Newest(records, name)
    && match c.phase {
         case Prepared(copy) =>
           !q.Create? && Known(records, name, copy) && c.issued <= Version(copy) && PlanOf(q, Some(copy)).Write?
         case Checked(copy, current, replacement) =>
           && !q.Create? && Known(records, name, copy) && Known(records, name, current)
           && c.issued <= Version(copy) && PlanOf(q, Some(copy)).Write?
           && current.etag == q.expected && replacement == Patched(q, copy).(etag := Etag(Version(current) + 1))
           && Version(current) + 1 < U64_LIMIT
         case _ => true
       }
  }

  /** The expected etag is none that a later version will get. */
  ghost predicate Timely(q: Request, issued: nat) {
    !q.Create? ==> forall v: nat :: v > issued ==> q.expected != Etag(v)
  }

  ghost predicate CommitOk(records: Records, m: Commit) {
    var q, name := m.request, NameOf(m.request);
    && !q.Create?
    && Canonical(m.from) && Canonical(m.to) && Version(m.to) == Version(m.from) + 1
    && m.from.etag == q.expected && m.from.resourceName == name
    && m.to == Patched(q, m.copy).(etag := m.to.etag) && !m.copy.archived
    && (Timely(q, m.issued) ==> m.copy == m.from)
    && name in records && Version(m.to) <= Version(records[name])
  }

  ghost predicate RecordsOk(records: Records, commits: nat) {
    forall n :: n in records ==>
      records[n].resourceName == n && Canonical(records[n]) && Version(records[n]) <= 1 + commits
  }

  ghost predicate LogOk(records: Records, log: seq<Commit>) {
    && (forall i :: 0 <= i < |log| ==> CommitOk(records, log[i]))
    && (forall i, j :: 0 <= i < j < |log| && NameOf(log[i].request) == NameOf(log[j].request) ==>
          Version(log[i].to) <= Version(log[j].from))
  }

  ghost predicate Inv(s: State) {
    && RecordsOk(s.records, |s.log|)
    && (forall id :: id in s.calls ==> CallOk(s.records, s.calls[id]))
    && LogOk(s.records, s.log)
  }

  // ----- one step keeps it -----

  lemma NextOf(r: Repository)
    requires Canonical(r) && Version(r) + 1 < U64_LIMIT
    ensures NextEtag(r.etag) == Success(Etag(Version(r) + 1))
    ensures VersionOf(Etag(Version(r) + 1)) == Some(Version(r) + 1)
  {
    EtagVersion(Version(r));
    EtagVersion(Version(r) + 1);
  }

  lemma FirstVersion(r: Repository)
    ensures Canonical(r.(etag := "v1")) && Version(r.(etag := "v1")) == 1
  {
    assert Etag(1) == "v1";
    EtagVersion(1);
  }

  /** The stored record of `name` moves on to a newer version. */
  ghost predicate Newer(records: Records, next: Records, name: string) {
    && name in next && next == records[name := next[name]]
    && Canonical(next[name]) && next[name].resourceName == name
    && Version(next[name]) == Newest(records, name) + 1
  }

  lemma OthersKeepOk(records: Records, next: Records, name: string, c: Call)
    requires Newer(records, next, name) && CallOk(records, c)
    ensures CallOk(next, c)
  {}

  lemma CommitKeepsOk(records: Records, next: Records, name: string, m: Commit)
    requires Newer(records, next, name) && CommitOk(records, m)
    ensures CommitOk(next, m)
  {}

  lemma LogKeepsOk(records: Records, next: Records, name: string, log: seq<Commit>)
    requires Newer(records, next, name) && LogOk(records, log)
    ensures LogOk(next, log)
  {
    forall i | 0 <= i < |log| ensures CommitOk(next, log[i]) {
      CommitKeepsOk(records, next, name, log[i]);
    }
  }

  lemma CommitIsOk(records: Records, c: Call)
    requires RecordsOk(records, U64_LIMIT) && CallOk(records, c) && c.phase.Checked?
    requires NameOf(c.request) in records && records[NameOf(c.request)] == c.phase.current
    ensures var next, m := Move(records, c).0, Move(records, c).2;
            m.Some? && Newer(records, next, NameOf(c.request)) && CommitOk(next, m.value)
  {
    var q, name, copy, current := c.request, NameOf(c.request), c.phase.copy, c.phase.current;
    NextOf(current);
    if Timely(q, c.issued) {
      assert Version(current) <= c.issued;
      assert copy == current;
    }
    assert Patched(q, copy).resourceName == copy.resourceName;
  }

  lemma CheckIsOk(records: Records, c: Call, bound: nat)
    requires RecordsOk(records, bound) && bound < U64_LIMIT - 2 && CallOk(records, c) && c.phase.Prepared?
    ensures CallOk(records, c.(phase := Move(records, c).1))
  {
    var name := NameOf(c.request);
    if name in records && records[name].etag == c.request.expected {
      NextOf(records[name]);
    }
  }

  /** A step that writes nothing. */
  lemma QuietKeepsInv(s: State, id: nat, moved: Call)
    requires Inv(s) && CallOk(s.records, moved)
    ensures Inv(s.(calls := s.calls[id := moved]))
  {}

  predicate Swaps(records: Records, c: Call) {
    c.phase.Checked? && NameOf(c.request) in records && records[NameOf(c.request)] == c.phase.current
  }

  predicate Creates(records: Records, c: Call) {
    c.phase.Begun? && c.request.Create? && NameOf(c.request) !in records
  }

  lemma QuietMove(records: Records, c: Call, bound: nat)
    requires RecordsOk(records, bound) && bound < U64_LIMIT - 2 && CallOk(records, c) && !Swaps(records, c)
    requires !Creates(records, c)
    ensures Move(records, c).0 == records && Move(records, c).2.None?
    ensures CallOk(records, c.(phase := Move(records, c).1))
  {
    if c.phase.Prepared? {
      CheckIsOk(records, c, bound);
    }
  }

  lemma AdvanceKeepsInv(s: State, id: nat)
    requires Inv(s) && |s.log| < U64_LIMIT - 2 && id in s.calls
    ensures Inv(Step(s, Advance(id)))
  {
    var c, next := s.calls[id], Step(s, Advance(id));
    if Swaps(s.records, c) {
      CommitIsOk(s.records, c);
      SwapKeepsInv(s, id, next);
    } else if Creates(s.records, c) {
      FirstVersion(c.request.record);
      CreateKeepsInv(s, id, next);
    } else {
      QuietMove(s.records, c, |s.log|);
      QuietKeepsInv(s, id, c.(phase := Move(s.records, c).1));
    }
  }

  lemma CreateKeepsInv(s: State, id: nat, next: State)
    requires Inv(s) && id in s.calls && Newer(s.records, next.records, NameOf(s.calls[id].request))
    requires NameOf(s.calls[id].request) !in s.records && next.log == s.log
    requires next.calls.Keys == s.calls.Keys && next.calls[id].phase.Done?
    requires next.calls == s.calls[id := s.calls[id].(phase := next.calls[id].phase)]
    ensures Inv(next)
  {
    var name := NameOf(s.calls[id].request);
    forall k | k in next.calls ensures CallOk(next.records, next.calls[k]) {
      OthersKeepOk(s.records, next.records, name, s.calls[k]);
    }
    LogKeepsOk(s.records, next.records, name, s.log);
  }

  lemma LogGrows(records: Records, next: Records, name: string, log: seq<Commit>, m: Commit)
    requires Newer(records, next, name) && LogOk(records, log) && CommitOk(next, m)
    requires NameOf(m.request) == name && Version(m.from) == Newest(records, name)
    ensures LogOk(next, log + [m])
  {
    LogKeepsOk(records, next, name, log);
    var all := log + [m];
    forall i, j | 0 <= i < j < |all| && NameOf(all[i].request) == NameOf(all[j].request)
      ensures Version(all[i].to) <= Version(all[j].from)
    {
      assert all[i] == log[i];
      if j < |log| {
        assert all[j] == log[j];
      } else {
        assert CommitOk(records, log[i]);
      }
    }
  }

  lemma SwapKeepsInv(s: State, id: nat, next: State)
    requires Inv(s) && id in s.calls && Newer(s.records, next.records, NameOf(s.calls[id].request))
    requires |next.log| == |s.log| + 1 && next.log == s.log + [next.log[|s.log|]]
    requires CommitOk(next.records, next.log[|s.log|])
    requires NameOf(next.log[|s.log|].request) == NameOf(s.calls[id].request)
    requires Version(next.log[|s.log|].from) == Newest(s.records, NameOf(s.calls[id].request))
    requires next.calls.Keys == s.calls.Keys && next.calls[id].phase.Done?
    requires next.calls == s.calls[id := s.calls[id].(phase := next.calls[id].phase)]
    ensures Inv(next)
  {
    var name := NameOf(s.calls[id].request);
    forall k | k in next.calls ensures CallOk(next.records, next.calls[k]) {
      OthersKeepOk(s.records, next.records, name, s.calls[k]);
    }
    LogGrows(s.records, next.records, name, s.log, next.log[|s.log|]);
  }

  lemma StepKeepsInv(s: State, e: Event)
    requires Inv(s) && |s.log| < U64_LIMIT - 2
    ensures Inv(Step(s, e)) && |Step(s, e).log| <= |s.log| + 1
  {
    if e.Advance? && e.id in s.calls {
      AdvanceKeepsInv(s, e.id);
    }
  }

  // ----- every interleaving -----

  const Start := State(map[], map[], [])

  lemma {:induction false} RunKeepsInv(s: State, events: seq<Event>)
    requires Inv(s) && |s.log| + |events| < U64_LIMIT - 2
    ensures Inv(Exec(s, events)) && |Exec(s, events).log| <= |s.log| + |events|
    decreases |events|
  {
    if events != [] {
      StepKeepsInv(s, events[0]);
      RunKeepsInv(Step(s, events[0]), events[1..]);
    }
  }

  /** Whatever the interleaving, a commit advances the version by one and consumes the etag its caller expected. */
  lemma CommitsAdvanceByOne(events: seq<Event>, i: nat)
    requires |events| < U64_LIMIT - 2 && i < |Exec(Start, events).log|
    ensures var m := Exec(Start, events).log[i];
            && Version(m.to) == Version(m.from) + 1 && m.to.etag == Etag(Version(m.from) + 1)
            && !m.request.Create? && m.from.etag == m.request.expected == Etag(Version(m.from))
  {
    RunKeepsInv(Start, events);
    assert CommitOk(Exec(Start, events).records, Exec(Start, events).log[i]);
  }

  /** No two commits consume the same etag of a record. */
  lemma EtagsConsumedOnce(events: seq<Event>, i: nat, j: nat)
    requires |events| < U64_LIMIT - 2 && i < j < |Exec(Start, events).log|
    requires NameOf(Exec(Start, events).log[i].request) == NameOf(Exec(Start, events).log[j].request)
    ensures Exec(Start, events).log[i].from.etag != Exec(Start, events).log[j].from.etag
  {
    RunKeepsInv(Start, events);
    var s := Exec(Start, events);
    assert CommitOk(s.records, s.log[i]) && CommitOk(s.records, s.log[j]);
    assert Version(s.log[i].from) < Version(s.log[j].from);
  }

  /** The commit wrote what the call asks for, field by field, to the stored record, which was not archived. */
  ghost predicate PatchesCurrent(m: Commit) {
    !m.request.Create? && !m.from.archived && Writes(m.request, m.from, m.to)
  }

  /** A call that expected no future etag commits its patch of exactly the stored record, which was not archived. */
  lemma TimelyCommitsPatchCurrent(events: seq<Event>, i: nat)
    requires |events| < U64_LIMIT - 2 && i < |Exec(Start, events).log|
    requires Timely(Exec(Start, events).log[i].request, Exec(Start, events).log[i].issued)
    ensures PatchesCurrent(Exec(Start, events).log[i])
  {
    RunKeepsInv(Start, events);
    var m := Exec(Start, events).log[i];
    assert CommitOk(Exec(Start, events).records, m);
    WritesExactly(m.request, m.from, m.to);
  }

  // ----- archived for good -----

  ghost predicate AllTimely(s: State) {
    forall id :: id in s.calls ==> Timely(s.calls[id].request, s.calls[id].issued)
  }

  /** No call of the run begins with an etag that is still to come. */
  ghost predicate TimelyRun(s: State, events: seq<Event>)
    decreases |events|
  {
    events != [] ==>
      && (events[0].Begin? ==> Timely(events[0].request, Newest(s.records, NameOf(events[0].request))))
      && TimelyRun(Step(s, events[0]), events[1..])
  }

  /** A timely call that is about to swap did not find the record archived. */
  lemma TimelySwapsUnarchived(records: Records, c: Call, commits: nat)
    requires RecordsOk(records, commits) && CallOk(records, c) && Swaps(records, c) && Timely(c.request, c.issued)
    ensures !records[NameOf(c.request)].archived
  {
    var current := c.phase.current;
    assert Version(current) <= c.issued;
    assert c.phase.copy == current;
  }

  lemma QuietElsewhere(records: Records, c: Call, name: string)
    requires name in records && (Swaps(records, c) ==> NameOf(c.request) != name)
    ensures name in Move(records, c).0 && Move(records, c).0[name] == records[name]
  {}

  lemma ArchivedStays(s: State, e: Event, name: string)
    requires Inv(s) && AllTimely(s) && name in s.records && s.records[name].archived
    requires e.Begin? ==> Timely(e.request, Newest(s.records, NameOf(e.request)))
    ensures AllTimely(Step(s, e)) && name in Step(s, e).records && Step(s, e).records[name] == s.records[name]
  {
    if e.Advance? && e.id in s.calls {
      var c := s.calls[e.id];
      if Swaps(s.records, c) {
        TimelySwapsUnarchived(s.records, c, |s.log|);
      }
      QuietElsewhere(s.records, c, name);
    }
  }

  /** Once archived, a record never changes again. */
  lemma {:induction false} ArchivedForever(s: State, events: seq<Event>, name: string)
    requires Inv(s) && AllTimely(s) && TimelyRun(s, events) && |s.log| + |events| < U64_LIMIT - 2
    requires name in s.records && s.records[name].archived
    ensures name in Exec(s, events).records && Exec(s, events).records[name] == s.records[name]
    decreases |events|
  {
    if events != [] {
      ArchivedStays(s, events[0], name);
      StepKeepsInv(s, events[0]);
      ArchivedForever(Step(s, events[0]), events[1..], name);
    }
  }

  // ----- why the condition is needed -----

  lemma PrepareStep(s: State, id: nat)
    requires id in s.calls && s.calls[id].phase.Begun? && !s.calls[id].request.Create?
    requires s.calls[id].request.name in s.records
    requires PlanOf(s.calls[id].request, Some(s.records[s.calls[id].request.name])).Write?
    ensures Step(s, Advance(id))
         == s.(calls := s.calls[id := s.calls[id].(phase := Prepared(s.records[s.calls[id].request.name]))])
  {}

  lemma CheckStep(s: State, id: nat)
    requires id in s.calls && s.calls[id].phase.Prepared? && !s.calls[id].request.Create?
    requires s.calls[id].request.name in s.records
    requires var r := s.records[s.calls[id].request.name];
             Canonical(r) && Version(r) + 1 < U64_LIMIT && r.etag == s.calls[id].request.expected
    ensures var q, copy := s.calls[id].request, s.calls[id].phase.copy;
            var r := s.records[q.name];
            var next := Checked(copy, r, Patched(q, copy).(etag := Etag(Version(r) + 1)));
            Step(s, Advance(id)) == s.(calls := s.calls[id := s.calls[id].(phase := next)])
  {
    NextOf(s.records[s.calls[id].request.name]);
  }

  lemma SwapStep(s: State, id: nat)
    requires id in s.calls && Swaps(s.records, s.calls[id]) && !s.calls[id].request.Create?
    ensures var c := s.calls[id];
            var m := Commit(c.request, c.issued, c.phase.copy, c.phase.current, c.phase.replacement);
            Step(s, Advance(id))
            == State(s.records[c.request.name := c.phase.replacement],
                     s.calls[id := c.(phase := Done(Success(c.phase.replacement)))], s.log + [m])
  {}

  /** An update that keeps succeeding when it is repeated. */
  ghost predicate Repeatable(r: Repository, u: RepositoryUpdate) {
    !r.archived && !IsEmpty(u) && ValidConfig(Updated(r.config, u))
  }

  /** The record after `k` repetitions of the update. */
  function Bumped(r: Repository, u: RepositoryUpdate, now: int, version: nat): Repository {
    r.(config := Updated(r.config, u), updateTime := now, etag := Etag(version))
  }

  /** One call of the repetition, from beginning to end. */
  function Alone(id: nat, q: Request): seq<Event> {
    [Begin(id, q), Advance(id), Advance(id), Advance(id)]
  }

  lemma {:induction false} ExecConcat(s: State, a: seq<Event>, b: seq<Event>)
    ensures Exec(s, a + b) == Exec(Exec(s, a), b)
    decreases |a|
  {
    if a == [] {
      assert a + b == b;
    } else {
      assert (a + b)[0] == a[0] && (a + b)[1..] == a[1..] + b;
      ExecConcat(Step(s, a[0]), a[1..], b);
    }
  }

  lemma {:induction false} ExecThrice(s: State, a: seq<Event>, b: seq<Event>, c: seq<Event>)
    ensures Exec(s, a + (b + c)) == Exec(Exec(Exec(s, a), b), c)
  {
    ExecConcat(s, a, b + c);
    ExecConcat(Exec(s, a), b, c);
  }

  lemma ExecTwo(s: State, a: Event, b: Event)
    ensures Exec(s, [a, b]) == Step(Step(s, a), b)
  {
    assert [a, b][1..] == [b] && [b][1..] == [];
    assert Exec(Step(s, a), [b]) == Exec(Step(Step(s, a), b), []);
  }

  lemma ExecAlone(s: State, id: nat, q: Request)
    ensures Exec(s, Alone(id, q)) == Step(Step(Step(Step(s, Begin(id, q)), Advance(id)), Advance(id)), Advance(id))
  {
    var halfway := Step(Step(s, Begin(id, q)), Advance(id));
    assert Alone(id, q) == [Begin(id, q), Advance(id)] + [Advance(id), Advance(id)];
    ExecConcat(s, [Begin(id, q), Advance(id)], [Advance(id), Advance(id)]);
    ExecTwo(s, Begin(id, q), Advance(id));
    ExecTwo(halfway, Advance(id), Advance(id));
  }

  /** What a finished call changed: on success the record of its name is the answer. */
  ghost predicate Finished(s: State, t: State, id: nat, name: string, out: Result<Repository, RepositoryError>) {
    && id in t.calls && t.calls[id].phase == Done(out)
    && t.records == if out.Success? then s.records[name := out.value] else s.records
  }

  lemma DoneStays(s: State, id: nat)
    requires id in s.calls && s.calls[id].phase.Done?
    ensures Step(s, Advance(id)) == s
  {
    assert s.calls[id := s.calls[id]] == s.calls;
  }

  lemma AloneStored(s: State, id: nat, q: Request, r: Repository)
    requires !q.Create? && id !in s.calls && PlanOf(q, StoredAt(s.records, q.name)) == Write(r)
    requires r.resourceName == q.name
    ensures Finished(s, Exec(s, Alone(id, q)), id, q.name, Replaced(s.records, q.expected, r))
  {
    ExecAlone(s, id, q);
    var s1 := Step(s, Begin(id, q));
    var s2 := Step(s1, Advance(id));
    assert s2.records == s.records && s2.calls[id].phase == Prepared(s.records[q.name]);
    assert r == Patched(q, s.records[q.name]);
    var s3 := Step(s2, Advance(id));
    if s3.calls[id].phase.Done? {
      DoneStays(s3, id);
    }
  }

  lemma AloneEnds(s: State, id: nat, q: Request, out: Result<Repository, RepositoryError>)
    requires !q.Create? && id !in s.calls && PlanOf(q, StoredAt(s.records, q.name)) == Finish(out)
    ensures Finished(s, Exec(s, Alone(id, q)), id, q.name, out)
  {
    ExecAlone(s, id, q);
    var s2 := Step(Step(s, Begin(id, q)), Advance(id));
    DoneStays(s2, id);
    assert out.Success? ==> s.records[q.name := out.value] == s.records;
  }

  /** A call that no other interrupts gives exactly the answer of the sequential registry. */
  lemma AloneAnswers(s: State, id: nat, q: Request)
    requires !q.Create? && id !in s.calls && forall n :: n in s.records ==> s.records[n].resourceName == n
    ensures var out := Planned(q, s.records);
            Answers(q, StoredAt(s.records, q.name), out) && Finished(s, Exec(s, Alone(id, q)), id, q.name, out)
  {
    PlannedExactly(q, s.records, Planned(q, s.records));
    match PlanOf(q, StoredAt(s.records, q.name))
    case Finish(out) => AloneEnds(s, id, q, out);
    case Write(r) => AloneStored(s, id, q, r);
  }

  /** So does a create, in one step. */
  lemma CreateAnswers(s: State, id: nat, q: Request)
    requires q.Create? && id !in s.calls
    ensures var name := q.record.resourceName;
            Finished(s, Exec(s, [Begin(id, q), Advance(id)]), id, name,
                     if name in s.records then Failure(AlreadyExists) else Success(q.record.(etag := "v1")))
  {
    ExecTwo(s, Begin(id, q), Advance(id));
  }

  lemma AloneCommits(s: State, id: nat, q: Request)
    requires !q.Create? && id !in s.calls && q.name in s.records && Canonical(s.records[q.name])
    requires Version(s.records[q.name]) + 1 < U64_LIMIT && q.expected == s.records[q.name].etag
    requires PlanOf(q, Some(s.records[q.name])).Write?
    ensures var r := s.records[q.name];
            var t := Exec(s, Alone(id, q));
            && t.records == s.records[q.name := Patched(q, r).(etag := Etag(Version(r) + 1))]
            && t.calls.Keys == s.calls.Keys + {id} && (forall k :: k in s.calls ==> t.calls[k] == s.calls[k])
  {
    ExecAlone(s, id, q);
    var s1 := Step(s, Begin(id, q));
    PrepareStep(s1, id);
    var s2 := Step(s1, Advance(id));
    CheckStep(s2, id);
    SwapStep(Step(s2, Advance(id)), id);
  }

  /** `k` updates in a row, each with the etag the previous one produced. */
  function Bumps(name: string, version: nat, id: nat, u: RepositoryUpdate, now: int, k: nat): seq<Event>
    decreases k
  {
    if k == 0 then []
    else Alone(id, Update(name, Etag(version), u, now)) + Bumps(name, version + 1, id + 1, u, now, k - 1)
  }

  lemma UpdatedTwice(c: Config, u: RepositoryUpdate)
    ensures Updated(Updated(c, u), u) == Updated(c, u)
  {}

  /**
   The record has moved on to `r`, the calls of `s` are as they were, and no call has the number `next` or a higher
   one.
   */
  ghost predicate MovedOn(s: State, t: State, name: string, r: Repository, next: nat) {
    && name in t.records && t.records[name] == r
    && (forall i :: i in s.calls ==> i in t.calls && t.calls[i] == s.calls[i])
    && (forall i :: i in t.calls ==> i < next)
  }

  lemma {:induction false} Joined(s: State, t: State, name: string, a: seq<Event>, b: seq<Event>, r: Repository,
                                  mid: Repository, next: nat, last: nat)
    requires t == Exec(s, a) && MovedOn(s, t, name, mid, next) && MovedOn(t, Exec(t, b), name, r, last)
    ensures MovedOn(s, Exec(s, a + b), name, r, last)
  {
    ExecConcat(s, a, b);
  }

  lemma BumpOnce(s: State, name: string, v: nat, id: nat, u: RepositoryUpdate, now: int, a: seq<Event>)
    returns (t: State)
    requires name in s.records && s.records[name].etag == Etag(v) && Repeatable(s.records[name], u)
    requires 1 <= v < U64_LIMIT - 1 && forall i :: i in s.calls ==> i < id
    requires a == Alone(id, Update(name, Etag(v), u, now))
    ensures t == Exec(s, a) && MovedOn(s, t, name, Bumped(s.records[name], u, now, v + 1), id + 1)
  {
    EtagVersion(v);
    NonEmptyEtag(v);
    AloneCommits(s, id, Update(name, Etag(v), u, now));
    t := Exec(s, a);
  }

  /** A repetition leaves a record that can be updated the same way again. */
  lemma BumpedAgain(r: Repository, u: RepositoryUpdate, now: int, v: nat, w: nat)
    requires Repeatable(r, u)
    ensures var b := Bumped(r, u, now, v); Repeatable(b, u) && Bumped(b, u, now, w) == Bumped(r, u, now, w)
  {
    UpdatedTwice(r.config, u);
  }

  lemma {:induction false} BumpsCommit(s: State, name: string, v: nat, id: nat, u: RepositoryUpdate, now: int, k: nat,
                                       r: Repository, events: seq<Event>)
    requires name in s.records && s.records[name] == r && r.etag == Etag(v) && Repeatable(r, u)
    requires 1 <= v < U64_LIMIT - k && forall i :: i in s.calls ==> i < id
    requires events == Bumps(name, v, id, u, now, k)
    ensures MovedOn(s, Exec(s, events), name, if k == 0 then r else Bumped(r, u, now, v + k), id + k)
    decreases k
  {
    if k > 0 {
      var first, rest := Alone(id, Update(name, Etag(v), u, now)), Bumps(name, v + 1, id + 1, u, now, k - 1);
      var b := Bumped(r, u, now, v + 1);
      var t := BumpOnce(s, name, v, id, u, now, first);
      BumpedAgain(r, u, now, v + 1, v + k);
      BumpsCommit(t, name, v + 1, id + 1, u, now, k - 1, b, rest);
      Joined(s, t, name, first, rest, Bumped(r, u, now, v + k), b, id + 1, id + k);
    }
  }

  /** A call that has read the record. */
  lemma HeadStart(s: State, id: nat, q: Request)
    requires !q.Create? && id !in s.calls && q.name in s.records && PlanOf(q, Some(s.records[q.name])).Write?
    ensures var t := Exec(s, [Begin(id, q), Advance(id)]);
            && t.records == s.records && t.log == s.log
            && t.calls == s.calls[id := Call(q, Version(s.records[q.name]), Prepared(s.records[q.name]))]
  {
    ExecTwo(s, Begin(id, q), Advance(id));
    PrepareStep(Step(s, Begin(id, q)), id);
  }

  /** A call that has read the record and finds the etag it expects commits what it read, patched. */
  lemma Finishes(s: State, id: nat)
    requires id in s.calls && s.calls[id].phase.Prepared? && !s.calls[id].request.Create?
    requires s.calls[id].request.name in s.records
    requires var r := s.records[s.calls[id].request.name];
             Canonical(r) && Version(r) + 1 < U64_LIMIT && r.etag == s.calls[id].request.expected
    ensures var c := s.calls[id];
            var r, t := s.records[c.request.name], Exec(s, [Advance(id), Advance(id)]);
            var r' := Patched(c.request, c.phase.copy).(etag := Etag(Version(r) + 1));
            && t.records == s.records[c.request.name := r']
            && t.log == s.log + [Commit(c.request, c.issued, c.phase.copy, r, r')]
  {
    ExecTwo(s, Advance(id), Advance(id));
    CheckStep(s, id);
    SwapStep(Step(s, Advance(id)), id);
  }

  lemma NonEmptyEtag(v: nat)
    ensures Etag(v) != ""
  {}

  /** The record after an archive that nothing interfered with. */
  function Shelved(r: Repository, now: int, version: nat): Repository {
    r.(archived := true, archiveTime := Some(now), updateTime := now, etag := Etag(version))
  }

  lemma ArchiveOnce(s: State, name: string, v: nat, id: nat, now: int, a: seq<Event>) returns (t: State)
    requires name in s.records && s.records[name].etag == Etag(v) && !s.records[name].archived
    requires 1 <= v < U64_LIMIT - 1 && forall i :: i in s.calls ==> i < id
    requires a == Alone(id, Archive(name, Etag(v), true, false, now))
    ensures t == Exec(s, a) && MovedOn(s, t, name, Shelved(s.records[name], now, v + 1), id + 1)
  {
    EtagVersion(v);
    NonEmptyEtag(v);
    AloneCommits(s, id, Archive(name, Etag(v), true, false, now));
    t := Exec(s, a);
  }

  /** What the others do meanwhile: `k` updates, and an archive. */
  function Others(name: string, v: nat, id: nat, u: RepositoryUpdate, now: int, k: nat): seq<Event> {
    Bumps(name, v, id, u, now, k) + Alone(id + k, Archive(name, Etag(v + k), true, false, now))
  }

  lemma {:induction false} OthersCommit(s: State, name: string, v: nat, id: nat, u: RepositoryUpdate, now: int, k: nat,
                                        r: Repository)
    requires name in s.records && s.records[name] == r && r.etag == Etag(v) && Repeatable(r, u)
    requires 1 <= v < U64_LIMIT - k - 1 && forall i :: i in s.calls ==> i < id
    ensures var b := if k == 0 then r else Bumped(r, u, now, v + k);
            MovedOn(s, Exec(s, Others(name, v, id, u, now, k)), name, Shelved(b, now, v + k + 1), id + k + 1)
  {
    var bumps := Bumps(name, v, id, u, now, k);
    var b := if k == 0 then r else Bumped(r, u, now, v + k);
    BumpsCommit(s, name, v, id, u, now, k, r, bumps);
    var t := Exec(s, bumps);
    var a := Alone(id + k, Archive(name, Etag(v + k), true, false, now));
    var _ := ArchiveOnce(t, name, v + k, id + k, now, a);
    Joined(s, t, name, bumps, a, Shelved(b, now, v + k + 1), b, id + k, id + k + 1);
  }

  /** A call that expects the etag `k` versions ahead reads first and finishes after the others. */
  function StaleEvents(name: string, version: nat, id: nat, u: RepositoryUpdate, now: int, k: nat): seq<Event>
    requires k >= 1
  {
    [Begin(id, Update(name, Etag(version + k), u, now)), Advance(id)]
    + (Others(name, version, id + 1, u, now, k - 1) + [Advance(id), Advance(id)])
  }

  /**
   The last commit wrote a patch of the old copy `r` over a record `k` versions newer: the stored record was archived,
   the written one is not, and it is not the call's patch of the stored one.
   */
  ghost predicate EndsStale(t: State, q: Request, r: Repository, k: nat)
    requires q.Update?
  {
    && t.log != []
    && var m := t.log[|t.log| - 1];
    && m.request == q && m.issued == Version(r) && m.copy == r && m.from.etag == Etag(Version(r) + k)
    && m.from.archived && !m.to.archived && !Writes(q, m.from, m.to)
  }

  lemma StaleFinish(mid: State, id: nat, q: Request, r: Repository, later: Repository, v: nat, k: nat)
    requires q.Update? && q.expected == Etag(v + k) && r.etag == Etag(v) && later.etag == Etag(v + k) && 1 <= v
    requires id in mid.calls && mid.calls[id] == Call(q, v, Prepared(r)) && !r.archived && later.archived
    requires q.name in mid.records && mid.records[q.name] == later && 1 <= k && v + k + 1 < U64_LIMIT
    ensures EndsStale(Exec(mid, [Advance(id), Advance(id)]), q, r, k)
  {
    EtagVersion(v);
    EtagVersion(v + k);
    Finishes(mid, id);
  }

  /** From the moment the early call holds its copy. */
  lemma {:induction false} StaleMiddle(s: State, id: nat, q: Request, r: Repository, v: nat, k: nat, others: seq<Event>)
    requires q.Update? && q.expected == Etag(v + k) && r.etag == Etag(v) && 1 <= v < U64_LIMIT - k - 1 && 1 <= k
    requires q.name in s.records && s.records[q.name] == r && Repeatable(r, q.patch)
    requires id in s.calls && s.calls[id] == Call(q, v, Prepared(r)) && forall i :: i in s.calls ==> i <= id
    requires others == Others(q.name, v, id + 1, q.patch, q.now, k - 1)
    ensures EndsStale(Exec(Exec(s, others), [Advance(id), Advance(id)]), q, r, k)
  {
    var b := if k == 1 then r else Bumped(r, q.patch, q.now, v + (k - 1));
    OthersCommit(s, q.name, v, id + 1, q.patch, q.now, k - 1, r);
    StaleFinish(Exec(s, others), id, q, r, Shelved(b, q.now, v + k), v, k);
  }

  /**
   From any state, and for an etag any number of versions ahead, there is a run that brings an archived record back.
   */
  lemma {:induction false} FutureEtagCommitsStale(s: State, name: string, id: nat, u: RepositoryUpdate, now: int,
                                                  k: nat, events: seq<Event>)
    requires name in s.records && Canonical(s.records[name]) && Repeatable(s.records[name], u)
    requires k >= 1 && Version(s.records[name]) + k + 1 < U64_LIMIT && forall i :: i in s.calls ==> i < id
    requires events == StaleEvents(name, Version(s.records[name]), id, u, now, k)
    ensures EndsStale(Exec(s, events), Update(name, Etag(Version(s.records[name]) + k), u, now), s.records[name], k)
  {
    var r, v := s.records[name], Version(s.records[name]);
    var q, others := Update(name, Etag(v + k), u, now), Others(name, v, id + 1, u, now, k - 1);
    NonEmptyEtag(v + k);
    HeadStart(s, id, q);
    StaleMiddle(Exec(s, [Begin(id, q), Advance(id)]), id, q, r, v, k, others);
    ExecThrice(s, [Begin(id, q), Advance(id)], others, [Advance(id), Advance(id)]);
  }

  lemma {:induction false} BumpsLength(name: string, version: nat, id: nat, u: RepositoryUpdate, now: int, k: nat)
    ensures |Bumps(name, version, id, u, now, k)| == 4 * k
    decreases k
  {
    if k > 0 {
      BumpsLength(name, version + 1, id + 1, u, now, k - 1);
    }
  }

  /** Whatever follows, a commit of this request issued at this version patches the stored record. */
  ghost predicate AlwaysPatchesCurrent(s: State, q: Request, issued: nat) {
    forall events: seq<Event>, i: nat ::
      |s.log| + |events| < U64_LIMIT - 2 && i < |Exec(s, events).log|
      && Exec(s, events).log[i].request == q && Exec(s, events).log[i].issued == issued
      ==> PatchesCurrent(Exec(s, events).log[i])
  }

  lemma TimelyAlwaysPatches(s: State, q: Request, issued: nat)
    requires Inv(s) && Timely(q, issued)
    ensures AlwaysPatchesCurrent(s, q, issued)
  {
    forall events: seq<Event>, i: nat | |s.log| + |events| < U64_LIMIT - 2 && i < |Exec(s, events).log|
      && Exec(s, events).log[i].request == q && Exec(s, events).log[i].issued == issued
      ensures PatchesCurrent(Exec(s, events).log[i])
    {
      RunKeepsInv(s, events);
      var m := Exec(s, events).log[i];
      assert CommitOk(Exec(s, events).records, m);
      WritesExactly(m.request, m.from, m.to);
    }
  }

  lemma {:induction false} AheadUpdateIsStale(s: State, id: nat, q: Request, k: nat)
    requires q.Update? && q.name in s.records && Canonical(s.records[q.name]) && Repeatable(s.records[q.name], q.patch)
    requires k >= 1 && q.expected == Etag(Version(s.records[q.name]) + k) && forall i :: i in s.calls ==> i < id
    requires |s.log| + Version(s.records[q.name]) + 4 * k + 4 < U64_LIMIT - 2
    ensures !AlwaysPatchesCurrent(s, q, Version(s.records[q.name]))
  {
    var v := Version(s.records[q.name]);
    var events := StaleEvents(q.name, v, id, q.patch, q.now, k);
    FutureEtagCommitsStale(s, q.name, id, q.patch, q.now, k, events);
    BumpsLength(q.name, v, id + 1, q.patch, q.now, k - 1);
    var t := Exec(s, events);
    assert !PatchesCurrent(t.log[|t.log| - 1]);
  }

  // ----- archiving an old copy -----

  /** An update that is valid for every record and changes this configuration. */
  function Contrary(c: Config): RepositoryUpdate {
    RepositoryUpdate(Some("main"), Some(if c.direction.Disabled? then Full else Disabled), Some([]),
                     Some(ReviewPolicy(0, false)), Some(c.serving))
  }

  lemma ContraryChanges(r: Repository)
    requires !r.archived
    ensures Repeatable(r, Contrary(r.config)) && Updated(r.config, Contrary(r.config)) != r.config
  {
    assert Trim("main") == "main";
    assert |Utf8.Encode("main")| <= 255;
  }

  /** An archive that expects the etag `k` versions ahead reads first and finishes after `k` updates. */
  function LossyEvents(q: Request, version: nat, id: nat, u: RepositoryUpdate, k: nat): seq<Event>
    requires q.Archive?
  {
    [Begin(id, q), Advance(id)] + (Bumps(q.name, version, id + 1, u, q.now, k) + [Advance(id), Advance(id)])
  }

  /**
   The last commit wrote a patch of the old copy `r` over a record `k` versions newer: the configuration stored since is
   lost, and what was written is not the call's patch of the stored record.
   */
  ghost predicate EndsLossy(t: State, q: Request, r: Repository, k: nat)
    requires q.Archive?
  {
    && t.log != []
    && var m := t.log[|t.log| - 1];
    && m.request == q && m.issued == Version(r) && m.copy == r && m.from.etag == Etag(Version(r) + k)
    && m.to.config == r.config != m.from.config && !Writes(q, m.from, m.to)
  }

  lemma LossyFinish(mid: State, id: nat, q: Request, r: Repository, later: Repository, v: nat, k: nat)
    requires q.Archive? && q.expected == Etag(v + k) && r.etag == Etag(v) && later.etag == Etag(v + k) && 1 <= v
    requires id in mid.calls && mid.calls[id] == Call(q, v, Prepared(r)) && later.config != r.config
    requires q.name in mid.records && mid.records[q.name] == later && 1 <= k && v + k + 1 < U64_LIMIT
    ensures EndsLossy(Exec(mid, [Advance(id), Advance(id)]), q, r, k)
  {
    EtagVersion(v);
    EtagVersion(v + k);
    Finishes(mid, id);
  }

  /** From the moment the archive call holds its copy. */
  lemma {:induction false} LossyMiddle(s: State, id: nat, q: Request, r: Repository, v: nat, u: RepositoryUpdate,
                                       k: nat, bumps: seq<Event>)
    requires q.Archive? && q.expected == Etag(v + k) && r.etag == Etag(v) && 1 <= v < U64_LIMIT - k - 1 && 1 <= k
    requires q.name in s.records && s.records[q.name] == r && Repeatable(r, u) && Updated(r.config, u) != r.config
    requires id in s.calls && s.calls[id] == Call(q, v, Prepared(r)) && forall i :: i in s.calls ==> i <= id
    requires bumps == Bumps(q.name, v, id + 1, u, q.now, k)
    ensures EndsLossy(Exec(Exec(s, bumps), [Advance(id), Advance(id)]), q, r, k)
  {
    BumpsCommit(s, q.name, v, id + 1, u, q.now, k, r, bumps);
    LossyFinish(Exec(s, bumps), id, q, r, Bumped(r, u, q.now, v + k), v, k);
  }

  /** From any state, and for an etag any number of versions ahead, an archive can undo the updates made meanwhile. */
  lemma {:induction false} FutureEtagLosesUpdates(s: State, id: nat, q: Request, u: RepositoryUpdate, k: nat,
                                                  events: seq<Event>)
    requires q.Archive? && q.name in s.records && Canonical(s.records[q.name]) && (q.force || !q.hasRefs)
    requires Repeatable(s.records[q.name], u) && Updated(s.records[q.name].config, u) != s.records[q.name].config
    requires k >= 1 && Version(s.records[q.name]) + k + 1 < U64_LIMIT && forall i :: i in s.calls ==> i < id
    requires q.expected == Etag(Version(s.records[q.name]) + k)
    requires events == LossyEvents(q, Version(s.records[q.name]), id, u, k)
    ensures EndsLossy(Exec(s, events), q, s.records[q.name], k)
  {
    var r, v := s.records[q.name], Version(s.records[q.name]);
    var bumps := Bumps(q.name, v, id + 1, u, q.now, k);
    NonEmptyEtag(v + k);
    HeadStart(s, id, q);
    LossyMiddle(Exec(s, [Begin(id, q), Advance(id)]), id, q, r, v, u, k, bumps);
    ExecThrice(s, [Begin(id, q), Advance(id)], bumps, [Advance(id), Advance(id)]);
  }

  lemma {:induction false} AheadArchiveIsLossy(s: State, id: nat, q: Request, u: RepositoryUpdate, k: nat)
    requires q.Archive? && q.name in s.records && Canonical(s.records[q.name]) && (q.force || !q.hasRefs)
    requires Repeatable(s.records[q.name], u) && Updated(s.records[q.name].config, u) != s.records[q.name].config
    requires forall i :: i in s.calls ==> i < id
    requires k >= 1 && q.expected == Etag(Version(s.records[q.name]) + k)
    requires |s.log| + Version(s.records[q.name]) + 4 * k + 4 < U64_LIMIT - 2
    ensures !AlwaysPatchesCurrent(s, q, Version(s.records[q.name]))
  {
    var v := Version(s.records[q.name]);
    var events := LossyEvents(q, v, id, u, k);
    FutureEtagLosesUpdates(s, id, q, u, k, events);
    BumpsLength(q.name, v, id + 1, u, q.now, k);
    var t := Exec(s, events);
    assert !PatchesCurrent(t.log[|t.log| - 1]);
  }

  // ----- the exact condition -----

  /** The stored record is one the call would write to, if it expected its etag. */
  ghost predicate Admits(r: Repository, q: Request) {
    match q
    case Create(_) => false
    case Update(_, _, patch, _) => Repeatable(r, patch)
    case Archive(_, _, force, hasRefs, _) => !r.archived && (force || !hasRefs)
  }

  lemma {:induction false} AheadIsUnsafe(s: State, id: nat, q: Request, r: Repository, k: nat)
    requires !q.Create? && q.name in s.records && s.records[q.name] == r && Canonical(r) && Admits(r, q)
    requires k >= 1 && q.expected == Etag(Version(r) + k) && forall i :: i in s.calls ==> i < id
    requires |s.log| + Version(r) + 4 * k + 4 < U64_LIMIT - 2
    ensures !AlwaysPatchesCurrent(s, q, Version(r))
  {
    if q.Update? {
      AheadUpdateIsStale(s, id, q, k);
    } else {
      ContraryChanges(r);
      AheadArchiveIsLossy(s, id, q, Contrary(r.config), k);
    }
  }

  /** An update or archive is safe from every interleaving if and only if it expects no etag that is still to come. */
  lemma {:induction false} SafeExactlyWhenTimely(s: State, id: nat, q: Request)
    requires Inv(s) && !q.Create? && q.name in s.records && Admits(s.records[q.name], q)
    requires forall i :: i in s.calls ==> i < id
    requires forall w: nat :: q.expected == Etag(w) ==> |s.log| + 4 * w + 4 < U64_LIMIT - 2
    ensures AlwaysPatchesCurrent(s, q, Version(s.records[q.name])) <==> Timely(q, Version(s.records[q.name]))
  {
    var v := Version(s.records[q.name]);
    if Timely(q, v) {
      TimelyAlwaysPatches(s, q, v);
    } else {
      var w: nat :| w > v && q.expected == Etag(w);
      AheadIsUnsafe(s, id, q, s.records[q.name], w - v);
    }
  }
}
