/** Versioned blobs: one declaration, or one file's metadata, as bytes. */
module Blob {
  import opened Wrappers
  import opened Utf8
  import opened Wire
  import opened Descriptors
  import opened DescriptorCodec

  const BLOB_VERSION: u8 := 1

  const TAG_MESSAGE: u8 := 1
  const TAG_ENUM: u8 := 2
  const TAG_SERVICE: u8 := 3

  datatype BlobError = UnsupportedVersion(version: u8) | UnknownTag(tag: u8) | Malformed(cause: CodecError)

  // ----- declaration blobs -----

  function EncodeDecl(d: Decl): Bytes {
    [BLOB_VERSION] +
    match d
    case MessageDecl(m) => [TAG_MESSAGE] + PutMessage(m, [])
    case EnumDecl(e) => [TAG_ENUM] + PutEnum(e, [])
    case ServiceDecl(s) => [TAG_SERVICE] + PutService(s, [])
  }

  /** Keep a codec failure as a malformed blob; bytes after the value are ignored. */
  function Only<T>(got: Got<T>): Result<T, BlobError> {
    match got
    case Success(v) => Success(v.0)
    case Failure(e) => Failure(Malformed(e))
  }

  function DecodeDecl(bs: Bytes): Result<Decl, BlobError> {
    if bs == [] then Failure(Malformed(UnexpectedEnd))
    else if bs[0] != BLOB_VERSION then Failure(UnsupportedVersion(bs[0]))
    else if |bs| < 2 then Failure(Malformed(UnexpectedEnd))
    else if bs[1] == TAG_MESSAGE then
      var m :- Only(GetMessage(bs[2..]));
      Success(MessageDecl(m))
    else if bs[1] == TAG_ENUM then
      var e :- Only(GetEnum(bs[2..]));
      Success(EnumDecl(e))
    else if bs[1] == TAG_SERVICE then
      var s :- Only(GetService(bs[2..]));
      Success(ServiceDecl(s))
    else Failure(UnknownTag(bs[1]))
  }

  function ClearDecl(d: Decl): Decl {
    match d
    case MessageDecl(m) => MessageDecl(ClearMessage(m))
    case EnumDecl(e) => EnumDecl(ClearEnum(e))
    case ServiceDecl(s) => d
  }

  lemma EnumRoundTrip(e: Enum, rest: Bytes)
    requires |PutEnum(e, rest)| < U64_LIMIT
    ensures GetEnum(PutEnum(e, rest)) == Success((ClearEnum(e), rest))
  {
    EnumInverts();
    var put: (Enum, Bytes) -> Bytes, get: Bytes -> Got<Enum>, clear: Enum -> Enum := PutEnum, GetEnum, ClearEnum;
    assert Inverts(put, get, clear);
    assert get(put(e, rest)) == Success((clear(e), rest));
  }

  lemma ServiceRoundTrip(s: Service, rest: Bytes)
    requires |PutService(s, rest)| < U64_LIMIT
    ensures GetService(PutService(s, rest)) == Success((s, rest))
  {
    ServiceInverts();
    var put: (Service, Bytes) -> Bytes, get: Bytes -> Got<Service> := PutService, GetService;
    assert Inverts(put, get, Same);
    assert get(put(s, rest)) == Success((Same(s), rest));
  }

  /** A blob's body is what follows its version and tag. */
  lemma TaggedBody(tag: u8, body: Bytes)
    ensures var bs := [BLOB_VERSION] + ([tag] + body);
            |bs| == |body| + 2 && bs[0] == BLOB_VERSION && bs[1] == tag && bs[2..] == body
  {}

  /** A declaration blob decodes to its declaration, source spans cleared. */
  lemma DeclRoundTrip(d: Decl)
    requires |EncodeDecl(d)| < U64_LIMIT
    ensures DecodeDecl(EncodeDecl(d)) == Success(ClearDecl(d))
  {
    match d
    case MessageDecl(m) =>
      var body := PutMessage(m, []);
      TaggedBody(TAG_MESSAGE, body);
      assert GetMessage(body) == Success((ClearMessage(m), [])) by { MessageRoundTrip(m, []); }
    case EnumDecl(e) =>
      var body := PutEnum(e, []);
      TaggedBody(TAG_ENUM, body);
      assert GetEnum(body) == Success((ClearEnum(e), [])) by { EnumRoundTrip(e, []); }
    case ServiceDecl(s) =>
      var body := PutService(s, []);
      TaggedBody(TAG_SERVICE, body);
      assert GetService(body) == Success((s, [])) by { ServiceRoundTrip(s, []); }
  }

  // ----- metadata blobs -----

  function PutSourceInfo(info: seq<SourceLocation>, rest: Bytes): Bytes { PutVec(PutLocation, info, rest) }

  function GetSourceInfo(bs: Bytes): (r: Got<seq<SourceLocation>>)
    ensures r.Success? ==> |r.value.1| < |bs|
  {
    GetVec(GetLocation, bs)
  }

  lemma SourceInfoInverts()
    ensures Inverts(PutSourceInfo, GetSourceInfo, Same<seq<SourceLocation>>)
  {
    LocationInverts();
    PlainVecFacts(PutLocation, GetLocation);
  }

  /** Everything a metadata blob held before commit pins were appended to it. */
  function PutMetaHead(m: Meta, rest: Bytes): Bytes {
    PutOpt(PutStr, m.name,
    PutOpt(PutStr, m.package,
    PutVec(PutStr, m.dependency,
    PutVec(PutI32, m.publicDependency,
    PutVec(PutI32, m.weakDependency,
    PutVec(PutStr, m.optionDependency,
    PutOpt(PutFileOptions, m.options,
    PutOpt(PutStr, m.syntax,
    PutOpt(PutStr, m.edition,
    PutOpt(PutSourceInfo, m.sourceInfo,
    PutVec(PutStr, m.messageOrder,
    PutVec(PutStr, m.enumOrder,
    PutVec(PutStr, m.serviceOrder,
    PutVec(PutField, m.extension, rest))))))))))))))
  }

  function EncodeMeta(m: Meta): Bytes {
    [BLOB_VERSION] + PutMetaHead(m, PutVec(PutStr, m.dependencyCommit, []))
  }

  function GetMetaHead(bs: Bytes): Got<Meta> {
    var (name, b1) :- GetOpt(GetStr, bs);
    var (package, b2) :- GetOpt(GetStr, b1);
    var (dependency, b3) :- GetVec(GetStr, b2);
    var (publicDependency, b4) :- GetVec(GetI32, b3);
    var (weakDependency, b5) :- GetVec(GetI32, b4);
    var (optionDependency, b6) :- GetVec(GetStr, b5);
    var (options, b7) :- GetOpt(GetFileOptions, b6);
    var (syntax, b8) :- GetOpt(GetStr, b7);
    var (edition, b9) :- GetOpt(GetStr, b8);
    var (sourceInfo, b10) :- GetOpt(GetSourceInfo, b9);
    var (messageOrder, b11) :- GetVec(GetStr, b10);
    var (enumOrder, b12) :- GetVec(GetStr, b11);
    var (serviceOrder, b13) :- GetVec(GetStr, b12);
    var (extension, b14) :- GetVec(GetField, b13);
    Success((Meta(name, package, dependency, publicDependency, weakDependency, optionDependency, options,
                  syntax, edition, sourceInfo, messageOrder, enumOrder, serviceOrder, extension, []), b14))
  }

  function GetMeta(bs: Bytes): Result<Meta, CodecError> {
    var (head, rest) :- GetMetaHead(bs);
    if rest == [] then Success(head)
    else
      var (pins, _) :- GetVec(GetStr, rest);
      Success(head.(dependencyCommit := pins))
  }

  function DecodeMeta(bs: Bytes): Result<Meta, BlobError> {
    if bs == [] then Success(EmptyMeta)
    else if bs[0] != BLOB_VERSION then Failure(UnsupportedVersion(bs[0]))
    else
      match GetMeta(bs[1..])
      case Success(m) => Success(m)
      case Failure(e) => Failure(Malformed(e))
  }

  function ClearMeta(m: Meta): Meta {
    m.(extension := MapSeq(ClearField, m.extension))
  }

  lemma MetaHeadRoundTrip(m: Meta, rest: Bytes)
    ensures |rest| < |PutMetaHead(m, rest)|
    ensures |PutMetaHead(m, rest)| < U64_LIMIT ==>
              GetMetaHead(PutMetaHead(m, rest)) == Success((ClearMeta(m).(dependencyCommit := []), rest))
  {
    StrInverts();
    OptFacts(PutStr, GetStr);
    PlainVecFacts(PutStr, GetStr);
    I32Inverts();
    PlainVecFacts(PutI32, GetI32);
    FileOptionsInverts();
    OptFacts(PutFileOptions, GetFileOptions);
    SourceInfoInverts();
    OptFacts(PutSourceInfo, GetSourceInfo);
    FieldInverts();
    VecFacts(PutField, GetField, ClearField);
  }

  lemma StrVecRoundTrip(items: seq<string>)
    ensures 0 < |PutVec(PutStr, items, [])|
    ensures |PutVec(PutStr, items, [])| < U64_LIMIT ==>
              GetVec(GetStr, PutVec(PutStr, items, [])) == Success((items, []))
  {
    StrInverts();
    PlainVecFacts(PutStr, GetStr);
  }

  /** A metadata blob decodes to its metadata, source spans cleared. */
  lemma MetaRoundTrip(m: Meta)
    requires |EncodeMeta(m)| < U64_LIMIT
    ensures DecodeMeta(EncodeMeta(m)) == Success(ClearMeta(m))
  {
    var pins := PutVec(PutStr, m.dependencyCommit, []);
    assert EncodeMeta(m)[1..] == PutMetaHead(m, pins);
    MetaHeadRoundTrip(m, pins);
    StrVecRoundTrip(m.dependencyCommit);
  }

  /** A blob that ends before the appended pin list decodes to the same metadata with no pins. */
  lemma MetaWithoutPins(m: Meta)
    requires |PutMetaHead(m, [])| < U64_LIMIT
    ensures DecodeMeta([BLOB_VERSION] + PutMetaHead(m, [])) == Success(ClearMeta(m).(dependencyCommit := []))
  {
    MetaHeadRoundTrip(m, []);
    assert ([BLOB_VERSION] + PutMetaHead(m, []))[1..] == PutMetaHead(m, []);
  }

  // ----- a pin list cut short never decodes -----

  lemma StrExtends(bs: Bytes, more: Bytes)
    requires GetStr(bs).Success?
    ensures GetStr(bs + more) == Success((GetStr(bs).value.0, GetStr(bs).value.1 + more))
  {
    UvarintExtends(bs, 64, more);
    var (len, rest) := GetUvarint(bs).value;
    assert (rest + more)[..len] == rest[..len];
    assert (rest + more)[len..] == rest[len..] + more;
  }

  lemma {:induction false} StrItemsExtend(n: nat, bs: Bytes, more: Bytes)
    requires GetItems(GetStr, n, bs).Success?
    ensures GetItems(GetStr, n, bs + more)
         == Success((GetItems(GetStr, n, bs).value.0, GetItems(GetStr, n, bs).value.1 + more))
    decreases n
  {
    if n > 0 {
      StrExtends(bs, more);
      StrItemsExtend(n - 1, GetStr(bs).value.1, more);
    }
  }

  lemma StrVecPrefixFails(items: seq<string>, k: nat)
    requires |PutVec(PutStr, items, [])| < U64_LIMIT
    requires k < |PutVec(PutStr, items, [])|
    ensures GetVec(GetStr, PutVec(PutStr, items, [])[..k]).Failure?
  {
    var whole := PutVec(PutStr, items, []);
    var cut, more := whole[..k], whole[k..];
    assert cut + more == whole;
    if GetVec(GetStr, cut).Success? {
      UvarintExtends(cut, 64, more);
      var (n, rest) := GetUvarint(cut).value;
      StrItemsExtend(n, rest, more);
      StrVecRoundTrip(items);
    }
  }

  lemma BadPinsRejected(m: Meta, tail: Bytes)
    requires tail != [] && |PutMetaHead(m, tail)| < U64_LIMIT
    requires GetVec(GetStr, tail).Failure?
    ensures GetMeta(PutMetaHead(m, tail)).Failure?
  {
    MetaHeadRoundTrip(m, tail);
  }

  lemma CutAfterHead(version: u8, head: Bytes, pins: Bytes, k: nat)
    requires 1 + |head| < k < 1 + |head| + |pins|
    ensures var blob := [version] + (head + pins);
            blob[..k] == [version] + (head + pins[..k - 1 - |head|])
  {}

  /** A blob cut anywhere inside the appended pin list is rejected, never read as fewer pins. */
  lemma TruncatedPinsRejected(m: Meta, k: nat)
    requires |EncodeMeta(m)| < U64_LIMIT
    requires 1 + |PutMetaHead(m, [])| < k < |EncodeMeta(m)|
    ensures DecodeMeta(EncodeMeta(m)[..k]).Failure?
  {
    var pins := PutVec(PutStr, m.dependencyCommit, []);
    var head := PutMetaHead(m, []);
    var kept := k - 1 - |head|;
    MetaHeadFrames(m, pins);
    CutAfterHead(BLOB_VERSION, head, pins, k);
    StrVecPrefixFails(m.dependencyCommit, kept);
    MetaHeadFrames(m, pins[..kept]);
    var body := head + pins[..kept];
    BadPinsRejected(m, pins[..kept]);
    VersionedBody(body);
  }

  lemma VersionedBody(body: Bytes)
    ensures GetMeta(body).Failure? ==> DecodeMeta([BLOB_VERSION] + body).Failure?
  {}

  lemma MetaHeadFrames(m: Meta, rest: Bytes)
    ensures PutMetaHead(m, rest) == PutMetaHead(m, []) + rest
  {
    StrInverts();
    OptFacts(PutStr, GetStr);
    PlainVecFacts(PutStr, GetStr);
    I32Inverts();
    PlainVecFacts(PutI32, GetI32);
    FileOptionsInverts();
    OptFacts(PutFileOptions, GetFileOptions);
    SourceInfoInverts();
    OptFacts(PutSourceInfo, GetSourceInfo);
    FieldInverts();
    VecFacts(PutField, GetField, ClearField);
    assert PutMetaHead(m, [] + rest) == PutMetaHead(m, []) + rest;
    assert [] + rest == rest;
  }

  /** Another version is refused by its number; what decodes has version 1 and the tag of its kind. */
  lemma HeadersDecide(bs: Bytes)
    requires bs != []
    ensures bs[0] != 1 ==> DecodeDecl(bs) == Failure(UnsupportedVersion(bs[0]))
    ensures bs[0] != 1 ==> DecodeMeta(bs) == Failure(UnsupportedVersion(bs[0]))
    ensures DecodeDecl(bs).Success? ==>
              |bs| >= 2 && bs[1] == match DecodeDecl(bs).value {
                                      case MessageDecl(_) => 1
                                      case EnumDecl(_) => 2
                                      case ServiceDecl(_) => 3
                                    }
  {}
}
