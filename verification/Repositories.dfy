/**
 Repository records under optimistic concurrency: etags, the record stores, and the read-modify-write calls when nothing
 interferes.
 */
module Repositories {
  import opened Wrappers
  import opened Text
  import opened Wire
  import Utf8

  const MAX_REQUIRED_APPROVALS := 20

  // ----- etags -----

  /** An unsigned 64-bit decimal; a leading plus sign is allowed. */
  function ParseU64(s: string): Option<nat> {
    var digits := if s != "" && s[0] == '+' then s[1..] else s;
    if digits != "" && (forall i :: 0 <= i < |digits| ==> IsDigit(digits[i])) && DigitsValue(digits) < U64_LIMIT
    then Some(DigitsValue(digits)) else None
  }

  function Etag(version: nat): string { "v" + Decimal(version) }

  function VersionOf(etag: string): Option<nat> {
    if etag != "" && etag[0] == 'v' then ParseU64(etag[1..]) else None
  }

  /** Reading back a rendered version; a plus sign before it makes no difference. */
  lemma EtagVersion(n: nat)
    requires n < U64_LIMIT
    ensures VersionOf(Etag(n)) == Some(n) && VersionOf("v+" + Decimal(n)) == Some(n)
  {
    DecimalDigits(n);
    assert Etag(n)[1..] == Decimal(n);
    assert ("v+" + Decimal(n))[1..] == "+" + Decimal(n) && ("+" + Decimal(n))[1..] == Decimal(n);
  }

  lemma EtagInjective(a: nat, b: nat)
    requires Etag(a) == Etag(b)
    ensures a == b
  {
    DecimalDigits(a);
    DecimalDigits(b);
    assert Etag(a)[1..] == Decimal(a) && Etag(b)[1..] == Decimal(b);
  }

  // ----- records -----

  datatype Direction = Backward | Forward | Full | Disabled
  datatype ReviewPolicy = ReviewPolicy(requiredApprovals: nat, requireChangeRecord: bool)
  datatype ServingPolicy = ServingPolicy(source: bool, descriptors: bool, generatedCode: bool)

  datatype Config = Config(
    defaultBookmark: string, direction: Direction, protectedBookmarks: seq<string>, review: ReviewPolicy,
    serving: ServingPolicy)

  datatype Repository = Repository(
    resourceName: string, project: string, name: string, config: Config, createdBy: string, etag: string,
    createTime: int, updateTime: int, archived: bool, archiveTime: Option<int>)

  datatype RepositoryUpdate = RepositoryUpdate(
    defaultBookmark: Option<string>, direction: Option<Direction>, protectedBookmarks: Option<seq<string>>,
    review: Option<ReviewPolicy>, serving: Option<ServingPolicy>)

  datatype RepositoryError = AlreadyExists | NotFound | EtagMismatch | Backend | InvalidArgument | FailedPrecondition

  predicate IsEmpty(u: RepositoryUpdate) {
    u.defaultBookmark.None? && u.direction.None? && u.protectedBookmarks.None? && u.review.None? && u.serving.None?
  }

  function Updated(c: Config, u: RepositoryUpdate): Config {
    Config(u.defaultBookmark.GetOr(c.defaultBookmark), u.direction.GetOr(c.direction),
           u.protectedBookmarks.GetOr(c.protectedBookmarks), u.review.GetOr(c.review), u.serving.GetOr(c.serving))
  }

  predicate ValidRefName(s: string) {
    Trim(s) != "" && (forall i :: 0 <= i < |s| ==> !IsControl(s[i])) && |Utf8.Encode(s)| <= 255
  }

  /** A star is allowed only as a whole last segment. */
  predicate ValidPattern(p: string) { ValidRefName(p) && ('*' in p ==> EndsWith(p, "/*")) }

  predicate ValidConfig(c: Config) {
    var ps := c.protectedBookmarks;
    && ValidRefName(c.defaultBookmark)
    && |ps| <= 100
    && (forall i :: 0 <= i < |ps| ==> ValidPattern(ps[i]))
    && (forall i, j :: 0 <= i < j < |ps| ==> ps[i] != ps[j])
    && c.review.requiredApprovals <= MAX_REQUIRED_APPROVALS
  }

  method ValidateRefName(s: string) returns (valid: bool)
    ensures valid <==> ValidRefName(s)
  {
    valid := Trim(s) != "" && |Utf8.Encode(s)| <= 255;
    for i := 0 to |s|
      invariant valid <==> Trim(s) != "" && |Utf8.Encode(s)| <= 255 && forall j :: 0 <= j < i ==> !IsControl(s[j])
    {
      valid := valid && !IsControl(s[i]);
    }
  }

  method ValidatePattern(p: string) returns (valid: bool)
    ensures valid <==> ValidPattern(p)
  {
    valid := ValidateRefName(p);
    if valid && '*' in p && !EndsWith(p, "/*") {
      valid := false;
    }
  }

  /** The checks in the order the registry makes them, the duplicates against a set of the patterns seen. */
  method ValidateConfig(c: Config) returns (out: Result<(), RepositoryError>)
    ensures out == if ValidConfig(c) then Success(()) else Failure(InvalidArgument)
  {
    var ps := c.protectedBookmarks;
    var valid := ValidateRefName(c.defaultBookmark);
    if !valid || |ps| > 100 {
      return Failure(InvalidArgument);
    }
    var seen: set<string> := {};
    for i := 0 to |ps|
      invariant forall p :: p in seen <==> exists j :: 0 <= j < i && ps[j] == p
      invariant forall j :: 0 <= j < i ==> ValidPattern(ps[j])
      invariant forall j, k :: 0 <= j < k < i ==> ps[j] != ps[k]
    {
      valid := ValidatePattern(ps[i]);
      if !valid || ps[i] in seen {
        return Failure(InvalidArgument);
      }
      seen := seen + {ps[i]};
    }
    if c.review.requiredApprovals > MAX_REQUIRED_APPROVALS {
      return Failure(InvalidArgument);
    }
    return Success(());
  }

  function NextEtag(current: string): Result<string, RepositoryError> {
    match VersionOf(current)
    case None => Failure(Backend)
    case Some(v) => Success(Etag((v + 1) % U64_LIMIT))
  }

  // ----- the record database -----

  /** Records with their bytes: encoding is injective, so comparing bytes is comparing records. */
  class ObjectDb {
    var records: map<string, Repository>

    constructor ()
      ensures records == map[]
    {
      records := map[];
    }

    method CreateRecord(key: string, record: Repository) returns (inserted: bool)
      modifies this
      ensures inserted <==> key !in old(records)
      ensures records == if inserted then old(records)[key := record] else old(records)
    {
      inserted := key !in records;
      if inserted {
        records := records[key := record];
      }
    }

    method GetRecord(key: string) returns (record: Option<Repository>)
      ensures record == if key in records then Some(records[key]) else None
    {
      record := if key in records then Some(records[key]) else None;
    }

    method CompareAndSwapRecord(key: string, expected: Repository, replacement: Repository) returns (swapped: bool)
      modifies this
      ensures swapped <==> key in old(records) && old(records)[key] == expected
      ensures records == if swapped then old(records)[key := replacement] else old(records)
    {
      swapped := key in records && records[key] == expected;
      if swapped {
        records := records[key := replacement];
      }
    }
  }

  // ----- the store operations, alone -----

  function Replaced(records: map<string, Repository>, expected: string, r: Repository)
    : Result<Repository, RepositoryError>
  {
    if r.resourceName !in records then Failure(NotFound)
    else if records[r.resourceName].etag != expected then Failure(EtagMismatch)
    else
      var etag :- NextEtag(records[r.resourceName].etag);
      Success(r.(etag := etag))
  }

  /** The in-memory store: create and replace each run under one lock. */
  class MemoryRepositoryStore {
    var records: map<string, Repository>

    constructor ()
      ensures records == map[]
    {
      records := map[];
    }

    method Create(r: Repository) returns (out: Result<Repository, RepositoryError>)
      modifies this
      ensures out == if r.resourceName in old(records) then Failure(AlreadyExists) else Success(r.(etag := "v1"))
      ensures records == if out.Success? then old(records)[r.resourceName := out.value] else old(records)
    {
      if r.resourceName in records {
        return Failure(AlreadyExists);
      }
      var created := r.(etag := "v1");
      records := records[r.resourceName := created];
      return Success(created);
    }

    method Replace(expected: string, r: Repository) returns (out: Result<Repository, RepositoryError>)
      modifies this
      ensures out == Replaced(old(records), expected, r)
      ensures records == if out.Success? then old(records)[r.resourceName := out.value] else old(records)
    {
      if r.resourceName !in records {
        return Failure(NotFound);
      }
      var current := records[r.resourceName];
      if current.etag != expected {
        return Failure(EtagMismatch);
      }
      var etag := NextEtag(current.etag);
      if etag.Failure? {
        return Failure(etag.error);
      }
      var replacement := r.(etag := etag.value);
      records := records[r.resourceName := replacement];
      return Success(replacement);
    }
  }

  /** Create over the record database. */
  method CreateIn(db: ObjectDb, r: Repository) returns (out: Result<Repository, RepositoryError>)
    modifies db
    ensures out == if r.resourceName in old(db.records) then Failure(AlreadyExists) else Success(r.(etag := "v1"))
    ensures db.records == if out.Success? then old(db.records)[r.resourceName := out.value] else old(db.records)
  {
    var created := r.(etag := "v1");
    var inserted := db.CreateRecord(r.resourceName, created);
    if !inserted {
      return Failure(AlreadyExists);
    }
    return Success(created);
  }

  /** Replace over the record database: without interference it does what the locked store does. */
  method ReplaceIn(db: ObjectDb, expected: string, r: Repository) returns (out: Result<Repository, RepositoryError>)
    modifies db
    ensures out == Replaced(old(db.records), expected, r)
    ensures db.records == if out.Success? then old(db.records)[r.resourceName := out.value] else old(db.records)
  {
    var current := db.GetRecord(r.resourceName);
    if current.None? {
      return Failure(NotFound);
    }
    if current.value.etag != expected {
      return Failure(EtagMismatch);
    }
    var etag := NextEtag(current.value.etag);
    if etag.Failure? {
      return Failure(etag.error);
    }
    var replacement := r.(etag := etag.value);
    var swapped := db.CompareAndSwapRecord(r.resourceName, current.value, replacement);
    assert swapped;
    return Success(replacement);
  }

  // ----- the calls -----

  /** A write request; `hasRefs` is what the version-control layer says at the time. */
  datatype Request =
    | Create(record: Repository)
    | Update(name: string, expected: string, patch: RepositoryUpdate, now: int)
    | Archive(name: string, expected: string, force: bool, hasRefs: bool, now: int)

  /** What a call writes, given the record it read: the patch, before the store assigns an etag. */
  function Patched(q: Request, r: Repository): Repository
    requires !q.Create?
  {
    match q
    case Update(_, _, patch, now) => r.(config := Updated(r.config, patch), updateTime := now)
    case Archive(_, _, _, _, now) => r.(archived := true, archiveTime := Some(now), updateTime := now)
  }

  /** After reading: an outcome without a write, or a record to write. */
  datatype Plan = Finish(result: Result<Repository, RepositoryError>) | Write(record: Repository)

  function PlanOf(q: Request, read: Option<Repository>): Plan
    requires !q.Create?
  {
    if q.expected == "" || (q.Update? && IsEmpty(q.patch)) then Finish(Failure(InvalidArgument))
    else if read.None? then Finish(Failure(NotFound))
    else if read.value.archived then
      if q.Update? then Finish(Failure(FailedPrecondition))
      else if read.value.etag != q.expected then Finish(Failure(EtagMismatch))
      else Finish(Success(read.value))
    else if q.Update? && !ValidConfig(Patched(q, read.value).config) then Finish(Failure(InvalidArgument))
    else if q.Archive? && !q.force && q.hasRefs then Finish(Failure(FailedPrecondition))
    else Write(Patched(q, read.value))
  }

  // ----- what a call writes, field by field -----

  /** A field the patch selects has the patch's value, any other its stored value. */
  ghost predicate Selects<T>(chosen: Option<T>, stored: T, now: T) {
    match chosen
    case Some(value) => now == value
    case None => now == stored
  }

  ghost predicate ConfigFollows(stored: Config, u: RepositoryUpdate, now: Config) {
    && Selects(u.defaultBookmark, stored.defaultBookmark, now.defaultBookmark)
    && Selects(u.direction, stored.direction, now.direction)
    && Selects(u.protectedBookmarks, stored.protectedBookmarks, now.protectedBookmarks)
    && Selects(u.review, stored.review, now.review)
    && Selects(u.serving, stored.serving, now.serving)
  }

  /**
   What a call leaves of the record it read, up to the etag. An update writes the selected configuration fields and the
   update time and keeps the archive state; an archive writes the archive state and both times and keeps the
   configuration; neither touches the names, the creator and the create time.
   */
  ghost predicate Writes(q: Request, stored: Repository, now: Repository)
    requires !q.Create?
  {
    && now.resourceName == stored.resourceName && now.project == stored.project && now.name == stored.name
    && now.createdBy == stored.createdBy && now.createTime == stored.createTime && now.updateTime == q.now
    && match q
       case Update(_, _, patch, _) =>
         && ConfigFollows(stored.config, patch, now.config)
         && now.archived == stored.archived && now.archiveTime == stored.archiveTime
       case Archive(_, _, _, _, at) =>
         now.config == stored.config && now.archived && now.archiveTime == Some(at)
  }

  /** Up to the etag, what a call may write is its patch and nothing else. */
  lemma WritesExactly(q: Request, stored: Repository, now: Repository)
    requires !q.Create?
    ensures Writes(q, stored, now) <==> now == Patched(q, stored).(etag := now.etag)
  {}

  predicate SelectsNothing(u: RepositoryUpdate) { u == RepositoryUpdate(None, None, None, None, None) }

  /** A call whose record may be written: its etag decides, and the next etag is the next version. */
  ghost predicate Replaces(q: Request, stored: Repository, out: Result<Repository, RepositoryError>)
    requires !q.Create?
  {
    if stored.etag != q.expected then out == Failure(EtagMismatch)
    else
      match VersionOf(stored.etag)
      case None => out == Failure(Backend)
      case Some(v) =>
        && out.Success? && Writes(q, stored, out.value)
        && out.value.etag == Etag(if v == U64_LIMIT - 1 then 0 else v + 1)
  }

  /** The configuration the patch leads to is a valid one. */
  ghost predicate Admissible(stored: Config, u: RepositoryUpdate) {
    exists c :: ConfigFollows(stored, u, c) && ValidConfig(c)
  }

  lemma AdmissibleExactly(stored: Config, u: RepositoryUpdate, c: Config)
    requires ConfigFollows(stored, u, c)
    ensures Admissible(stored, u) <==> ValidConfig(c)
  {
    forall d | ConfigFollows(stored, u, d) ensures d == c {}
  }

  /** The answer of a call on the record stored under its name. */
  ghost predicate Answers(q: Request, stored: Option<Repository>, out: Result<Repository, RepositoryError>)
    requires !q.Create?
  {
    if q.expected == "" || (q.Update? && SelectsNothing(q.patch)) then out == Failure(InvalidArgument)
    else if stored.None? then out == Failure(NotFound)
    else if stored.value.archived then
      if q.Update? then out == Failure(FailedPrecondition)
      else out == if stored.value.etag == q.expected then Success(stored.value) else Failure(EtagMismatch)
    else if q.Update? && !Admissible(stored.value.config, q.patch) then out == Failure(InvalidArgument)
    else if q.Archive? && q.hasRefs && !q.force then out == Failure(FailedPrecondition)
    else Replaces(q, stored.value, out)
  }

  ghost function StoredAt(records: map<string, Repository>, name: string): Option<Repository> {
    if name in records then Some(records[name]) else None
  }

  lemma ReplacedExactly(q: Request, stored: Repository, replacement: Repository, records: map<string, Repository>,
                        out: Result<Repository, RepositoryError>)
    requires !q.Create? && Writes(q, stored, replacement)
    requires stored.resourceName in records && records[stored.resourceName] == stored
    ensures Replaces(q, stored, out) <==> out == Replaced(records, q.expected, replacement)
  {
    WritesExactly(q, stored, replacement);
    if out.Success? {
      WritesExactly(q, stored, out.value);
    }
  }

  /** The selected fields, one after the other. */
  method PatchConfig(stored: Config, u: RepositoryUpdate) returns (config: Config)
    ensures ConfigFollows(stored, u, config)
  {
    config := stored;
    if u.defaultBookmark.Some? {
      config := config.(defaultBookmark := u.defaultBookmark.value);
    }
    if u.direction.Some? {
      config := config.(direction := u.direction.value);
    }
    if u.protectedBookmarks.Some? {
      config := config.(protectedBookmarks := u.protectedBookmarks.value);
    }
    if u.review.Some? {
      config := config.(review := u.review.value);
    }
    if u.serving.Some? {
      config := config.(serving := u.serving.value);
    }
  }

  /** Update, uninterrupted. */
  method PerformUpdate(db: ObjectDb, q: Request) returns (out: Result<Repository, RepositoryError>)
    requires q.Update? && forall n :: n in db.records ==> db.records[n].resourceName == n
    modifies db
    ensures Answers(q, StoredAt(old(db.records), q.name), out)
    ensures db.records == if out.Success? then old(db.records)[q.name := out.value] else old(db.records)
  {
    if q.expected == "" || IsEmpty(q.patch) {
      return Failure(InvalidArgument);
    }
    var read := db.GetRecord(q.name);
    if read.None? {
      return Failure(NotFound);
    }
    if read.value.archived {
      return Failure(FailedPrecondition);
    }
    var config := PatchConfig(read.value.config, q.patch);
    AdmissibleExactly(read.value.config, q.patch, config);
    var valid := ValidateConfig(config);
    if valid.Failure? {
      return Failure(valid.error);
    }
    var replacement := read.value.(config := config, updateTime := q.now);
    out := ReplaceIn(db, q.expected, replacement);
    ReplacedExactly(q, read.value, replacement, old(db.records), out);
  }

  /** Archive, uninterrupted: a record that is archived already is answered as it is. */
  method PerformArchive(db: ObjectDb, q: Request) returns (out: Result<Repository, RepositoryError>)
    requires q.Archive? && forall n :: n in db.records ==> db.records[n].resourceName == n
    modifies db
    ensures Answers(q, StoredAt(old(db.records), q.name), out)
    ensures db.records == if out.Success? then old(db.records)[q.name := out.value] else old(db.records)
  {
    if q.expected == "" {
      return Failure(InvalidArgument);
    }
    var read := db.GetRecord(q.name);
    if read.None? {
      return Failure(NotFound);
    }
    if read.value.archived {
      return if read.value.etag != q.expected then Failure(EtagMismatch) else Success(read.value);
    }
    if !q.force && q.hasRefs {
      return Failure(FailedPrecondition);
    }
    var replacement := read.value.(archived := true, archiveTime := Some(q.now), updateTime := q.now);
    out := ReplaceIn(db, q.expected, replacement);
    ReplacedExactly(q, read.value, replacement, old(db.records), out);
  }

  /** The outcome of planning on the stored record and replacing it at once. */
  ghost function Planned(q: Request, records: map<string, Repository>): Result<Repository, RepositoryError>
    requires !q.Create?
  {
    match PlanOf(q, StoredAt(records, q.name))
    case Finish(result) => result
    case Write(r) => Replaced(records, q.expected, r)
  }

  /** Planning and replacing gives exactly the answer. */
  lemma PlannedExactly(q: Request, records: map<string, Repository>, out: Result<Repository, RepositoryError>)
    requires !q.Create? && forall n :: n in records ==> records[n].resourceName == n
    ensures Answers(q, StoredAt(records, q.name), out) <==> out == Planned(q, records)
  {
    if q.name in records {
      var r := records[q.name];
      if q.Update? {
        AdmissibleExactly(r.config, q.patch, Updated(r.config, q.patch));
      }
      WritesExactly(q, r, Patched(q, r));
      ReplacedExactly(q, r, Patched(q, r), records, out);
    }
  }

  /** Update and archive over the record database, uninterrupted. */
  method Perform(db: ObjectDb, q: Request) returns (out: Result<Repository, RepositoryError>)
    requires !q.Create? && forall n :: n in db.records ==> db.records[n].resourceName == n
    modifies db
    ensures Answers(q, StoredAt(old(db.records), q.name), out) && out == Planned(q, old(db.records))
    ensures db.records == if out.Success? then old(db.records)[q.name := out.value] else old(db.records)
  {
    ghost var before := db.records;
    if q.Update? {
      out := PerformUpdate(db, q);
    } else {
      out := PerformArchive(db, q);
    }
    PlannedExactly(q, before, out);
  }
}
