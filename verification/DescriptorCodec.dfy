/** The field-by-field codec of every descriptor type, writers and readers given separately. */
module DescriptorCodec {
  import opened Wrappers
  import opened Utf8
  import opened Wire
  import opened Descriptors

  // ----- enumerations, by discriminant -----

  function PutVisibility(x: Visibility, rest: Bytes): Bytes {
    PutUvarint(if x.Export? then 0 else 1, rest)
  }

  function GetVisibility(bs: Bytes): (r: Got<Visibility>)
    ensures r.Success? ==> |r.value.1| < |bs|
  {
    var (v, rest) :- GetUvarint(bs);
    match v
    case 0 => Success((Export, rest))
    case 1 => Success((Local, rest))
    case _ => Failure(UnknownDiscriminant)
  }

  function LabelToInt(x: FieldLabel): i32 {
    match x case LabelOptional => 1 case LabelRequired => 2 case LabelRepeated => 3
  }

  function LabelFromInt(v: i32): Option<FieldLabel> {
    match v case 1 => Some(LabelOptional) case 2 => Some(LabelRequired) case 3 => Some(LabelRepeated) case _ => None
  }

  function PutLabel(x: FieldLabel, rest: Bytes): Bytes { PutUvarint(LabelToInt(x), rest) }

  function GetLabel(bs: Bytes): (r: Got<FieldLabel>)
    ensures r.Success? ==> |r.value.1| < |bs|
  {
    var (v, rest) :- GetUvarint(bs);
    match LabelFromInt(Wrap32(v))
    case Some(x) => Success((x, rest))
    case None => Failure(UnknownDiscriminant)
  }

  function TypeToInt(x: FieldType): i32 {
    match x
    case TDouble => 1 case TFloat => 2 case TInt64 => 3 case TUint64 => 4 case TInt32 => 5 case TFixed64 => 6
    case TFixed32 => 7 case TBool => 8 case TString => 9 case TGroup => 10 case TMessage => 11 case TBytes => 12
    case TUint32 => 13 case TEnum => 14 case TSfixed32 => 15 case TSfixed64 => 16 case TSint32 => 17 case TSint64 => 18
  }

  function TypeFromInt(v: i32): Option<FieldType> {
    match v
    case 1 => Some(TDouble) case 2 => Some(TFloat) case 3 => Some(TInt64) case 4 => Some(TUint64)
    case 5 => Some(TInt32) case 6 => Some(TFixed64) case 7 => Some(TFixed32) case 8 => Some(TBool)
    case 9 => Some(TString) case 10 => Some(TGroup) case 11 => Some(TMessage) case 12 => Some(TBytes)
    case 13 => Some(TUint32) case 14 => Some(TEnum) case 15 => Some(TSfixed32) case 16 => Some(TSfixed64)
    case 17 => Some(TSint32) case 18 => Some(TSint64) case _ => None
  }

  function PutType(x: FieldType, rest: Bytes): Bytes { PutUvarint(TypeToInt(x), rest) }

  function GetType(bs: Bytes): (r: Got<FieldType>)
    ensures r.Success? ==> |r.value.1| < |bs|
  {
    var (v, rest) :- GetUvarint(bs);
    match TypeFromInt(Wrap32(v))
    case Some(x) => Success((x, rest))
    case None => Failure(UnknownDiscriminant)
  }

  function PutOptimizeMode(x: OptimizeMode, rest: Bytes): Bytes {
    PutUvarint(match x case Speed => 1 case CodeSize => 2 case LiteRuntime => 3, rest)
  }

  function GetOptimizeMode(bs: Bytes): (r: Got<OptimizeMode>)
    ensures r.Success? ==> |r.value.1| < |bs|
  {
    var (v, rest) :- GetUvarint(bs);
    match v
    case 1 => Success((Speed, rest))
    case 2 => Success((CodeSize, rest))
    case 3 => Success((LiteRuntime, rest))
    case _ => Failure(UnknownDiscriminant)
  }

  function PutCType(x: FieldCType, rest: Bytes): Bytes {
    PutUvarint(match x case CString => 0 case Cord => 1 case StringPiece => 2, rest)
  }

  function GetCType(bs: Bytes): (r: Got<FieldCType>)
    ensures r.Success? ==> |r.value.1| < |bs|
  {
    var (v, rest) :- GetUvarint(bs);
    match v
    case 0 => Success((CString, rest))
    case 1 => Success((Cord, rest))
    case 2 => Success((StringPiece, rest))
    case _ => Failure(UnknownDiscriminant)
  }

  function PutJsType(x: FieldJsType, rest: Bytes): Bytes {
    PutUvarint(match x case JsNormal => 0 case JsString => 1 case JsNumber => 2, rest)
  }

  function GetJsType(bs: Bytes): (r: Got<FieldJsType>)
    ensures r.Success? ==> |r.value.1| < |bs|
  {
    var (v, rest) :- GetUvarint(bs);
    match v
    case 0 => Success((JsNormal, rest))
    case 1 => Success((JsString, rest))
    case 2 => Success((JsNumber, rest))
    case _ => Failure(UnknownDiscriminant)
  }

  function PutIdempotency(x: IdempotencyLevel, rest: Bytes): Bytes {
    PutUvarint(match x case IdempotencyUnknown => 0 case NoSideEffects => 1 case Idempotent => 2, rest)
  }

  function GetIdempotency(bs: Bytes): (r: Got<IdempotencyLevel>)
    ensures r.Success? ==> |r.value.1| < |bs|
  {
    var (v, rest) :- GetUvarint(bs);
    match v
    case 0 => Success((IdempotencyUnknown, rest))
    case 1 => Success((NoSideEffects, rest))
    case 2 => Success((Idempotent, rest))
    case _ => Failure(UnknownDiscriminant)
  }

  /** The two varint facts, for every value and continuation. */
  lemma UvarintFacts()
    ensures forall v: u64, rest {:trigger PutUvarint(v, rest)} :: GetUvarint(PutUvarint(v, rest)) == Success((v, rest))
    ensures forall v: nat, a, b {:trigger PutUvarint(v, a + b)} :: PutUvarint(v, a + b) == PutUvarint(v, a) + b
  {
    forall v: u64, rest: Bytes ensures GetUvarint(PutUvarint(v, rest)) == Success((v, rest)) {
      UvarintRoundTrip(v, rest);
    }
    forall v: nat, a: Bytes, b: Bytes ensures PutUvarint(v, a + b) == PutUvarint(v, a) + b {
      PutUvarintFrames(v, a, b);
    }
  }

  lemma VisibilityInverts()
    ensures Inverts(PutVisibility, GetVisibility, Same<Visibility>)
  {}

  lemma LabelInverts()
    ensures Inverts(PutLabel, GetLabel, Same<FieldLabel>)
  {
    UvarintFacts();
  }

  lemma TypeIntRoundTrip(x: FieldType)
    ensures Wrap32(TypeToInt(x)) == TypeToInt(x)
    ensures TypeFromInt(TypeToInt(x)) == Some(x)
  {}

  lemma TypeInverts()
    ensures Inverts(PutType, GetType, Same<FieldType>)
  {
    forall x: FieldType, rest: Bytes
      ensures GetType(PutType(x, rest)) == Success((x, rest))
    {
      UvarintRoundTrip(TypeToInt(x), rest);
      TypeIntRoundTrip(x);
    }
    forall x: FieldType, a: Bytes, b: Bytes
      ensures PutType(x, a + b) == PutType(x, a) + b
    {
      PutUvarintFrames(TypeToInt(x), a, b);
    }
  }

  lemma OptimizeModeInverts()
    ensures Inverts(PutOptimizeMode, GetOptimizeMode, Same<OptimizeMode>)
  {
    UvarintFacts();
  }

  lemma CTypeInverts()
    ensures Inverts(PutCType, GetCType, Same<FieldCType>)
  {
    UvarintFacts();
  }

  lemma JsTypeInverts()
    ensures Inverts(PutJsType, GetJsType, Same<FieldJsType>)
  {}

  lemma IdempotencyInverts()
    ensures Inverts(PutIdempotency, GetIdempotency, Same<IdempotencyLevel>)
  {
    UvarintFacts();
  }

  // ----- options -----

  function PutNamePart(x: NamePart, rest: Bytes): Bytes {
    PutStr(x.namePart, PutBool(x.isExtension, rest))
  }

  function GetNamePart(bs: Bytes): (r: Got<NamePart>)
    ensures r.Success? ==> |r.value.1| < |bs|
  {
    var (namePart, b1) :- GetStr(bs);
    var (isExtension, b2) :- GetBool(b1);
    Success((NamePart(namePart, isExtension), b2))
  }

  lemma NamePartInverts()
    ensures Inverts(PutNamePart, GetNamePart, Same<NamePart>)
  {
    StrInverts();
    BoolInverts();
    assert Inverts(PutStr, GetStr, Same<string>) && Inverts(PutBool, GetBool, Same<bool>);
    forall x: NamePart, rest: Bytes
      ensures |rest| < |PutNamePart(x, rest)|
      ensures |PutNamePart(x, rest)| < U64_LIMIT ==> GetNamePart(PutNamePart(x, rest)) == Success((x, rest))
    {
      var tail := PutBool(x.isExtension, rest);
      assert |tail| < |PutStr(x.namePart, tail)|;
      if |PutNamePart(x, rest)| < U64_LIMIT {
        assert GetStr(PutStr(x.namePart, tail)) == Success((x.namePart, tail));
        assert GetBool(tail) == Success((x.isExtension, rest));
      }
    }
    forall x: NamePart, a: Bytes, b: Bytes
      ensures PutNamePart(x, a + b) == PutNamePart(x, a) + b
    {
      assert PutBool(x.isExtension, a + b) == PutBool(x.isExtension, a) + b;
      var tail := PutBool(x.isExtension, a);
      assert PutStr(x.namePart, tail + b) == PutStr(x.namePart, tail) + b;
    }
  }

  function PutUninterpreted(x: UninterpretedOption, rest: Bytes): Bytes {
    PutVec(PutNamePart, x.name,
    PutOpt(PutStr, x.identifierValue,
    PutOpt(PutU64, x.positiveIntValue,
    PutOpt(PutI64, x.negativeIntValue,
    PutOpt(PutStr, x.doubleValue,
    PutOpt(PutBytes, x.stringValue,
    PutOpt(PutStr, x.aggregateValue, rest)))))))
  }

  function GetUninterpreted(bs: Bytes): (r: Got<UninterpretedOption>)
    ensures r.Success? ==> |r.value.1| < |bs|
  {
    var (name, b1) :- GetVec(GetNamePart, bs);
    var (identifierValue, b2) :- GetOpt(GetStr, b1);
    var (positiveIntValue, b3) :- GetOpt(GetUvarint, b2);
    var (negativeIntValue, b4) :- GetOpt(GetIvarint, b3);
    var (doubleValue, b5) :- GetOpt(GetStr, b4);
    var (stringValue, b6) :- GetOpt(GetBytes, b5);
    var (aggregateValue, b7) :- GetOpt(GetStr, b6);
    Success((UninterpretedOption(name, identifierValue, positiveIntValue, negativeIntValue, doubleValue,
                                 stringValue, aggregateValue), b7))
  }

  lemma UninterpretedInverts()
    ensures Inverts(PutUninterpreted, GetUninterpreted, Same<UninterpretedOption>)
  {
    NamePartInverts();
    PlainVecFacts(PutNamePart, GetNamePart);
    StrInverts();
    OptFacts(PutStr, GetStr);
    U64Inverts();
    OptFacts(PutU64, GetUvarint);
    I64Inverts();
    OptFacts(PutI64, GetIvarint);
    BytesInverts();
    OptFacts(PutBytes, GetBytes);
  }

  function PutFileOptions(x: FileOptions, rest: Bytes): Bytes {
    PutOpt(PutStr, x.javaPackage,
    PutOpt(PutStr, x.javaOuterClassname,
    PutOpt(PutBool, x.javaMultipleFiles,
    PutOpt(PutBool, x.javaGenerateEqualsAndHash,
    PutOpt(PutBool, x.javaStringCheckUtf8,
    PutOpt(PutOptimizeMode, x.optimizeFor,
    PutOpt(PutStr, x.goPackage,
    PutOpt(PutBool, x.ccGenericServices,
    PutOpt(PutBool, x.javaGenericServices,
    PutOpt(PutBool, x.pyGenericServices,
    PutOpt(PutBool, x.deprecated,
    PutOpt(PutBool, x.ccEnableArenas,
    PutOpt(PutStr, x.objcClassPrefix,
    PutOpt(PutStr, x.csharpNamespace,
    PutOpt(PutStr, x.swiftPrefix,
    PutOpt(PutStr, x.phpClassPrefix,
    PutOpt(PutStr, x.phpNamespace,
    PutOpt(PutStr, x.phpMetadataNamespace,
    PutOpt(PutStr, x.rubyPackage,
    PutVec(PutUninterpreted, x.uninterpreted, rest))))))))))))))))))))
  }

  function GetFileOptions(bs: Bytes): (r: Got<FileOptions>)
    ensures r.Success? ==> |r.value.1| < |bs|
  {
    var (javaPackage, b1) :- GetOpt(GetStr, bs);
    var (javaOuterClassname, b2) :- GetOpt(GetStr, b1);
    var (javaMultipleFiles, b3) :- GetOpt(GetBool, b2);
    var (javaGenerateEqualsAndHash, b4) :- GetOpt(GetBool, b3);
    var (javaStringCheckUtf8, b5) :- GetOpt(GetBool, b4);
    var (optimizeFor, b6) :- GetOpt(GetOptimizeMode, b5);
    var (goPackage, b7) :- GetOpt(GetStr, b6);
    var (ccGenericServices, b8) :- GetOpt(GetBool, b7);
    var (javaGenericServices, b9) :- GetOpt(GetBool, b8);
    var (pyGenericServices, b10) :- GetOpt(GetBool, b9);
    var (deprecated, b11) :- GetOpt(GetBool, b10);
    var (ccEnableArenas, b12) :- GetOpt(GetBool, b11);
    var (objcClassPrefix, b13) :- GetOpt(GetStr, b12);
    var (csharpNamespace, b14) :- GetOpt(GetStr, b13);
    var (swiftPrefix, b15) :- GetOpt(GetStr, b14);
    var (phpClassPrefix, b16) :- GetOpt(GetStr, b15);
    var (phpNamespace, b17) :- GetOpt(GetStr, b16);
    var (phpMetadataNamespace, b18) :- GetOpt(GetStr, b17);
    var (rubyPackage, b19) :- GetOpt(GetStr, b18);
    var (uninterpreted, b20) :- GetVec(GetUninterpreted, b19);
    Success((FileOptions(javaPackage, javaOuterClassname, javaMultipleFiles, javaGenerateEqualsAndHash,
                         javaStringCheckUtf8, optimizeFor, goPackage, ccGenericServices, javaGenericServices,
                         pyGenericServices, deprecated, ccEnableArenas, objcClassPrefix, csharpNamespace,
                         swiftPrefix, phpClassPrefix, phpNamespace, phpMetadataNamespace, rubyPackage,
                         uninterpreted), b20))
  }

  lemma FileOptionsRoundTrip(x: FileOptions, rest: Bytes)
    ensures |rest| < |PutFileOptions(x, rest)|
    ensures |PutFileOptions(x, rest)| < U64_LIMIT ==> GetFileOptions(PutFileOptions(x, rest)) == Success((x, rest))
  {
    StrInverts();
    OptFacts(PutStr, GetStr);
    BoolInverts();
    OptFacts(PutBool, GetBool);
    OptimizeModeInverts();
    OptFacts(PutOptimizeMode, GetOptimizeMode);
    UninterpretedInverts();
    PlainVecFacts(PutUninterpreted, GetUninterpreted);
  }

  lemma FileOptionsFrames(x: FileOptions, a: Bytes, b: Bytes)
    ensures PutFileOptions(x, a + b) == PutFileOptions(x, a) + b
  {
    StrInverts();
    OptFacts(PutStr, GetStr);
    BoolInverts();
    OptFacts(PutBool, GetBool);
    OptimizeModeInverts();
    OptFacts(PutOptimizeMode, GetOptimizeMode);
    UninterpretedInverts();
    PlainVecFacts(PutUninterpreted, GetUninterpreted);
  }

  lemma FileOptionsInverts()
    ensures Inverts(PutFileOptions, GetFileOptions, Same<FileOptions>)
  {
    forall x: FileOptions, rest: Bytes
      ensures |rest| < |PutFileOptions(x, rest)|
      ensures |PutFileOptions(x, rest)| < U64_LIMIT ==> GetFileOptions(PutFileOptions(x, rest)) == Success((x, rest))
    {
      FileOptionsRoundTrip(x, rest);
    }
    forall x: FileOptions, a: Bytes, b: Bytes
      ensures PutFileOptions(x, a + b) == PutFileOptions(x, a) + b
    {
      FileOptionsFrames(x, a, b);
    }
  }

  function PutMessageOptions(x: MessageOptions, rest: Bytes): Bytes {
    PutOpt(PutBool, x.messageSetWireFormat,
    PutOpt(PutBool, x.noStandardDescriptorAccessor,
    PutOpt(PutBool, x.deprecated,
    PutOpt(PutBool, x.mapEntry,
    PutVec(PutUninterpreted, x.uninterpreted, rest)))))
  }

  function GetMessageOptions(bs: Bytes): (r: Got<MessageOptions>)
    ensures r.Success? ==> |r.value.1| < |bs|
  {
    var (messageSetWireFormat, b1) :- GetOpt(GetBool, bs);
    var (noStandardDescriptorAccessor, b2) :- GetOpt(GetBool, b1);
    var (deprecated, b3) :- GetOpt(GetBool, b2);
    var (mapEntry, b4) :- GetOpt(GetBool, b3);
    var (uninterpreted, b5) :- GetVec(GetUninterpreted, b4);
    Success((MessageOptions(messageSetWireFormat, noStandardDescriptorAccessor, deprecated, mapEntry,
                            uninterpreted), b5))
  }

  lemma MessageOptionsInverts()
    ensures Inverts(PutMessageOptions, GetMessageOptions, Same<MessageOptions>)
  {
    BoolInverts();
    OptFacts(PutBool, GetBool);
    UninterpretedInverts();
    PlainVecFacts(PutUninterpreted, GetUninterpreted);
  }

  function PutFieldOptions(x: FieldOptions, rest: Bytes): Bytes {
    PutOpt(PutCType, x.ctype,
    PutOpt(PutBool, x.packed,
    PutOpt(PutJsType, x.jstype,
    PutOpt(PutBool, x.lazy,
    PutOpt(PutBool, x.deprecated,
    PutOpt(PutBool, x.weak,
    PutVec(PutUninterpreted, x.uninterpreted, rest)))))))
  }

  function GetFieldOptions(bs: Bytes): (r: Got<FieldOptions>)
    ensures r.Success? ==> |r.value.1| < |bs|
  {
    var (ctype, b1) :- GetOpt(GetCType, bs);
    var (packed, b2) :- GetOpt(GetBool, b1);
    var (jstype, b3) :- GetOpt(GetJsType, b2);
    var (lazy, b4) :- GetOpt(GetBool, b3);
    var (deprecated, b5) :- GetOpt(GetBool, b4);
    var (weak, b6) :- GetOpt(GetBool, b5);
    var (uninterpreted, b7) :- GetVec(GetUninterpreted, b6);
    Success((FieldOptions(ctype, packed, jstype, lazy, deprecated, weak, uninterpreted), b7))
  }

  lemma FieldOptionsInverts()
    ensures Inverts(PutFieldOptions, GetFieldOptions, Same<FieldOptions>)
  {
    CTypeInverts();
    OptFacts(PutCType, GetCType);
    BoolInverts();
    OptFacts(PutBool, GetBool);
    JsTypeInverts();
    OptFacts(PutJsType, GetJsType);
    UninterpretedInverts();
    PlainVecFacts(PutUninterpreted, GetUninterpreted);
  }

  function PutEnumOptions(x: EnumOptions, rest: Bytes): Bytes {
    PutOpt(PutBool, x.allowAlias,
    PutOpt(PutBool, x.deprecated,
    PutVec(PutUninterpreted, x.uninterpreted, rest)))
  }

  function GetEnumOptions(bs: Bytes): (r: Got<EnumOptions>)
    ensures r.Success? ==> |r.value.1| < |bs|
  {
    var (allowAlias, b1) :- GetOpt(GetBool, bs);
    var (deprecated, b2) :- GetOpt(GetBool, b1);
    var (uninterpreted, b3) :- GetVec(GetUninterpreted, b2);
    Success((EnumOptions(allowAlias, deprecated, uninterpreted), b3))
  }

  lemma EnumOptionsInverts()
    ensures Inverts(PutEnumOptions, GetEnumOptions, Same<EnumOptions>)
  {
    BoolInverts();
    OptFacts(PutBool, GetBool);
    UninterpretedInverts();
    PlainVecFacts(PutUninterpreted, GetUninterpreted);
  }

  function PutMethodOptions(x: MethodOptions, rest: Bytes): Bytes {
    PutOpt(PutBool, x.deprecated,
    PutOpt(PutIdempotency, x.idempotencyLevel,
    PutVec(PutUninterpreted, x.uninterpreted, rest)))
  }

  function GetMethodOptions(bs: Bytes): (r: Got<MethodOptions>)
    ensures r.Success? ==> |r.value.1| < |bs|
  {
    var (deprecated, b1) :- GetOpt(GetBool, bs);
    var (idempotencyLevel, b2) :- GetOpt(GetIdempotency, b1);
    var (uninterpreted, b3) :- GetVec(GetUninterpreted, b2);
    Success((MethodOptions(deprecated, idempotencyLevel, uninterpreted), b3))
  }

  lemma MethodOptionsInverts()
    ensures Inverts(PutMethodOptions, GetMethodOptions, Same<MethodOptions>)
  {
    BoolInverts();
    OptFacts(PutBool, GetBool);
    IdempotencyInverts();
    OptFacts(PutIdempotency, GetIdempotency);
    UninterpretedInverts();
    PlainVecFacts(PutUninterpreted, GetUninterpreted);
  }

  function PutFlagOptions(x: FlagOptions, rest: Bytes): Bytes {
    PutOpt(PutBool, x.deprecated,
    PutVec(PutUninterpreted, x.uninterpreted, rest))
  }

  function GetFlagOptions(bs: Bytes): (r: Got<FlagOptions>)
    ensures r.Success? ==> |r.value.1| < |bs|
  {
    var (deprecated, b1) :- GetOpt(GetBool, bs);
    var (uninterpreted, b2) :- GetVec(GetUninterpreted, b1);
    Success((FlagOptions(deprecated, uninterpreted), b2))
  }

  lemma FlagOptionsInverts()
    ensures Inverts(PutFlagOptions, GetFlagOptions, Same<FlagOptions>)
  {
    BoolInverts();
    OptFacts(PutBool, GetBool);
    UninterpretedInverts();
    PlainVecFacts(PutUninterpreted, GetUninterpreted);
  }

  function PutBareOptions(x: BareOptions, rest: Bytes): Bytes {
    PutVec(PutUninterpreted, x.uninterpreted, rest)
  }

  function GetBareOptions(bs: Bytes): (r: Got<BareOptions>)
    ensures r.Success? ==> |r.value.1| < |bs|
  {
    var (uninterpreted, b1) :- GetVec(GetUninterpreted, bs);
    Success((BareOptions(uninterpreted), b1))
  }

  lemma BareOptionsInverts()
    ensures Inverts(PutBareOptions, GetBareOptions, Same<BareOptions>)
  {
    UninterpretedInverts();
    PlainVecFacts(PutUninterpreted, GetUninterpreted);
  }

  // ----- structural records -----

  function PutExtensionRange(x: ExtensionRange, rest: Bytes): Bytes {
    PutOpt(PutI32, x.start,
    PutOpt(PutI32, x.end,
    PutOpt(PutBareOptions, x.options, rest)))
  }

  function GetExtensionRange(bs: Bytes): (r: Got<ExtensionRange>)
    ensures r.Success? ==> |r.value.1| < |bs|
  {
    var (start, b1) :- GetOpt(GetI32, bs);
    var (end, b2) :- GetOpt(GetI32, b1);
    var (options, b3) :- GetOpt(GetBareOptions, b2);
    Success((ExtensionRange(start, end, options), b3))
  }

  lemma ExtensionRangeInverts()
    ensures Inverts(PutExtensionRange, GetExtensionRange, Same<ExtensionRange>)
  {
    I32Inverts();
    OptFacts(PutI32, GetI32);
    BareOptionsInverts();
    OptFacts(PutBareOptions, GetBareOptions);
  }

  function PutReservedRange(x: ReservedRange, rest: Bytes): Bytes {
    PutOpt(PutI32, x.start,
    PutOpt(PutI32, x.end, rest))
  }

  function GetReservedRange(bs: Bytes): (r: Got<ReservedRange>)
    ensures r.Success? ==> |r.value.1| < |bs|
  {
    var (start, b1) :- GetOpt(GetI32, bs);
    var (end, b2) :- GetOpt(GetI32, b1);
    Success((ReservedRange(start, end), b2))
  }

  lemma ReservedRangeInverts()
    ensures Inverts(PutReservedRange, GetReservedRange, Same<ReservedRange>)
  {
    I32Inverts();
    OptFacts(PutI32, GetI32);
  }

  function PutOneof(x: OneofDescriptor, rest: Bytes): Bytes {
    PutOpt(PutStr, x.name,
    PutOpt(PutBareOptions, x.options, rest))
  }

  function GetOneof(bs: Bytes): (r: Got<OneofDescriptor>)
    ensures r.Success? ==> |r.value.1| < |bs|
  {
    var (name, b1) :- GetOpt(GetStr, bs);
    var (options, b2) :- GetOpt(GetBareOptions, b1);
    Success((OneofDescriptor(name, options), b2))
  }

  lemma OneofInverts()
    ensures Inverts(PutOneof, GetOneof, Same<OneofDescriptor>)
  {
    StrInverts();
    OptFacts(PutStr, GetStr);
    BareOptionsInverts();
    OptFacts(PutBareOptions, GetBareOptions);
  }

  function PutField(x: Field, rest: Bytes): Bytes {
    PutOpt(PutStr, x.name,
    PutOpt(PutI32, x.number,
    PutOpt(PutLabel, x.fieldLabel,
    PutOpt(PutType, x.fieldType,
    PutOpt(PutStr, x.typeName,
    PutOpt(PutStr, x.extendee,
    PutOpt(PutStr, x.defaultValue,
    PutOpt(PutI32, x.oneofIndex,
    PutOpt(PutStr, x.jsonName,
    PutOpt(PutFieldOptions, x.options,
    PutOpt(PutBool, x.proto3Optional, rest)))))))))))
  }

  function GetField(bs: Bytes): (r: Got<Field>)
    ensures r.Success? ==> |r.value.1| < |bs|
  {
    var (name, b1) :- GetOpt(GetStr, bs);
    var (number, b2) :- GetOpt(GetI32, b1);
    var (fieldLabel, b3) :- GetOpt(GetLabel, b2);
    var (fieldType, b4) :- GetOpt(GetType, b3);
    var (typeName, b5) :- GetOpt(GetStr, b4);
    var (extendee, b6) :- GetOpt(GetStr, b5);
    var (defaultValue, b7) :- GetOpt(GetStr, b6);
    var (oneofIndex, b8) :- GetOpt(GetI32, b7);
    var (jsonName, b9) :- GetOpt(GetStr, b8);
    var (options, b10) :- GetOpt(GetFieldOptions, b9);
    var (proto3Optional, b11) :- GetOpt(GetBool, b10);
    Success((Field(name, number, fieldLabel, fieldType, typeName, extendee, defaultValue, oneofIndex, jsonName,
                   options, proto3Optional, None), b11))
  }

  function ClearField(x: Field): Field {
    x.(sourceSpan := None)
  }

  lemma FieldInverts()
    ensures Inverts(PutField, GetField, ClearField)
  {
    StrInverts();
    OptFacts(PutStr, GetStr);
    I32Inverts();
    OptFacts(PutI32, GetI32);
    LabelInverts();
    OptFacts(PutLabel, GetLabel);
    TypeInverts();
    OptFacts(PutType, GetType);
    FieldOptionsInverts();
    OptFacts(PutFieldOptions, GetFieldOptions);
    BoolInverts();
    OptFacts(PutBool, GetBool);
  }

  function PutEnumValue(x: EnumValue, rest: Bytes): Bytes {
    PutOpt(PutStr, x.name,
    PutOpt(PutI32, x.number,
    PutOpt(PutFlagOptions, x.options, rest)))
  }

  function GetEnumValue(bs: Bytes): (r: Got<EnumValue>)
    ensures r.Success? ==> |r.value.1| < |bs|
  {
    var (name, b1) :- GetOpt(GetStr, bs);
    var (number, b2) :- GetOpt(GetI32, b1);
    var (options, b3) :- GetOpt(GetFlagOptions, b2);
    Success((EnumValue(name, number, options, None), b3))
  }

  function ClearEnumValue(x: EnumValue): EnumValue {
    x.(sourceSpan := None)
  }

  lemma EnumValueInverts()
    ensures Inverts(PutEnumValue, GetEnumValue, ClearEnumValue)
  {
    StrInverts();
    OptFacts(PutStr, GetStr);
    I32Inverts();
    OptFacts(PutI32, GetI32);
    FlagOptionsInverts();
    OptFacts(PutFlagOptions, GetFlagOptions);
  }

  function PutEnum(x: Enum, rest: Bytes): Bytes {
    PutOpt(PutStr, x.name,
    PutVec(PutEnumValue, x.value,
    PutOpt(PutEnumOptions, x.options,
    PutVec(PutReservedRange, x.reservedRange,
    PutVec(PutStr, x.reservedName,
    PutOpt(PutVisibility, x.visibility, rest))))))
  }

  function GetEnum(bs: Bytes): (r: Got<Enum>)
    ensures r.Success? ==> |r.value.1| < |bs|
  {
    var (name, b1) :- GetOpt(GetStr, bs);
    var (value, b2) :- GetVec(GetEnumValue, b1);
    var (options, b3) :- GetOpt(GetEnumOptions, b2);
    var (reservedRange, b4) :- GetVec(GetReservedRange, b3);
    var (reservedName, b5) :- GetVec(GetStr, b4);
    var (visibility, b6) :- GetOpt(GetVisibility, b5);
    Success((Enum(name, value, options, reservedRange, reservedName, visibility, None), b6))
  }

  function ClearEnum(x: Enum): Enum {
    x.(value := MapSeq(ClearEnumValue, x.value), sourceSpan := None)
  }

  lemma EnumInverts()
    ensures Inverts(PutEnum, GetEnum, ClearEnum)
  {
    StrInverts();
    OptFacts(PutStr, GetStr);
    EnumValueInverts();
    VecFacts(PutEnumValue, GetEnumValue, ClearEnumValue);
    EnumOptionsInverts();
    OptFacts(PutEnumOptions, GetEnumOptions);
    ReservedRangeInverts();
    PlainVecFacts(PutReservedRange, GetReservedRange);
    PlainVecFacts(PutStr, GetStr);
    VisibilityInverts();
    OptFacts(PutVisibility, GetVisibility);
  }

  function PutMethod(x: RpcMethod, rest: Bytes): Bytes {
    PutOpt(PutStr, x.name,
    PutOpt(PutStr, x.inputType,
    PutOpt(PutStr, x.outputType,
    PutOpt(PutMethodOptions, x.options,
    PutOpt(PutBool, x.clientStreaming,
    PutOpt(PutBool, x.serverStreaming, rest))))))
  }

  function GetMethod(bs: Bytes): (r: Got<RpcMethod>)
    ensures r.Success? ==> |r.value.1| < |bs|
  {
    var (name, b1) :- GetOpt(GetStr, bs);
    var (inputType, b2) :- GetOpt(GetStr, b1);
    var (outputType, b3) :- GetOpt(GetStr, b2);
    var (options, b4) :- GetOpt(GetMethodOptions, b3);
    var (clientStreaming, b5) :- GetOpt(GetBool, b4);
    var (serverStreaming, b6) :- GetOpt(GetBool, b5);
    Success((RpcMethod(name, inputType, outputType, options, clientStreaming, serverStreaming), b6))
  }

  lemma MethodInverts()
    ensures Inverts(PutMethod, GetMethod, Same<RpcMethod>)
  {
    StrInverts();
    OptFacts(PutStr, GetStr);
    MethodOptionsInverts();
    OptFacts(PutMethodOptions, GetMethodOptions);
    BoolInverts();
    OptFacts(PutBool, GetBool);
  }

  function PutService(x: Service, rest: Bytes): Bytes {
    PutOpt(PutStr, x.name,
    PutVec(PutMethod, x.rpcs,
    PutOpt(PutFlagOptions, x.options, rest)))
  }

  function GetService(bs: Bytes): (r: Got<Service>)
    ensures r.Success? ==> |r.value.1| < |bs|
  {
    var (name, b1) :- GetOpt(GetStr, bs);
    var (rpcs, b2) :- GetVec(GetMethod, b1);
    var (options, b3) :- GetOpt(GetFlagOptions, b2);
    Success((Service(name, rpcs, options), b3))
  }

  lemma ServiceInverts()
    ensures Inverts(PutService, GetService, Same<Service>)
  {
    StrInverts();
    OptFacts(PutStr, GetStr);
    MethodInverts();
    PlainVecFacts(PutMethod, GetMethod);
    FlagOptionsInverts();
    OptFacts(PutFlagOptions, GetFlagOptions);
  }

  function PutLocation(x: SourceLocation, rest: Bytes): Bytes {
    PutVec(PutI32, x.path,
    PutVec(PutI32, x.span,
    PutOpt(PutStr, x.leadingComments,
    PutOpt(PutStr, x.trailingComments,
    PutVec(PutStr, x.leadingDetachedComments, rest)))))
  }

  function GetLocation(bs: Bytes): (r: Got<SourceLocation>)
    ensures r.Success? ==> |r.value.1| < |bs|
  {
    var (path, b1) :- GetVec(GetI32, bs);
    var (span, b2) :- GetVec(GetI32, b1);
    var (leadingComments, b3) :- GetOpt(GetStr, b2);
    var (trailingComments, b4) :- GetOpt(GetStr, b3);
    var (leadingDetachedComments, b5) :- GetVec(GetStr, b4);
    Success((SourceLocation(path, span, leadingComments, trailingComments, leadingDetachedComments), b5))
  }

  lemma LocationInverts()
    ensures Inverts(PutLocation, GetLocation, Same<SourceLocation>)
  {
    I32Inverts();
    PlainVecFacts(PutI32, GetI32);
    StrInverts();
    OptFacts(PutStr, GetStr);
    PlainVecFacts(PutStr, GetStr);
  }

  // ----- messages, recursive through `nestedType` -----

  function PutMessage(m: Message, rest: Bytes): Bytes
    decreases m, 1
  {
    PutOpt(PutStr, m.name,
    PutVec(PutField, m.field,
    PutVec(PutField, m.extension,
    PutUvarint(|m.nestedType|,
    PutMessages(m.nestedType,
    PutMessageTail(m, rest))))))
  }

  function PutMessages(ms: seq<Message>, rest: Bytes): Bytes
    decreases ms, 0
  {
    if ms == [] then rest else PutMessage(ms[0], PutMessages(ms[1..], rest))
  }

  /** The fields written after the nested messages. */
  function PutMessageTail(m: Message, rest: Bytes): Bytes {
    PutVec(PutEnum, m.enumType,
    PutVec(PutExtensionRange, m.extensionRange,
    PutVec(PutOneof, m.oneofDecl,
    PutOpt(PutMessageOptions, m.options,
    PutVec(PutReservedRange, m.reservedRange,
    PutVec(PutStr, m.reservedName,
    PutOpt(PutVisibility, m.visibility, rest)))))))
  }

  function GetMessage(bs: Bytes): (r: Got<Message>)
    ensures r.Success? ==> |r.value.1| < |bs|
    decreases |bs|, 0
  {
    var (name, b1) :- GetOpt(GetStr, bs);
    var (field, b2) :- GetVec(GetField, b1);
    var (extension, b3) :- GetVec(GetField, b2);
    var (count, b4) :- GetUvarint(b3);
    var (nestedType, b5) :- GetMessages(count, b4);
    GetMessageTail(name, field, extension, nestedType, b5)
  }

  /** `count` messages; terminates on any input because each takes at least one byte. */
  function GetMessages(count: nat, bs: Bytes): (r: Got<seq<Message>>)
    ensures r.Success? ==> |r.value.0| == count && |r.value.1| + count <= |bs|
    decreases |bs|, 1, count
  {
    if count == 0 then Success(([], bs))
    else
      var (m, after) :- GetMessage(bs);
      var (ms, rest) :- GetMessages(count - 1, after);
      Success(([m] + ms, rest))
  }

  function GetMessageTail(name: Option<string>, field: seq<Field>, extension: seq<Field>, nestedType: seq<Message>,
                          bs: Bytes): (r: Got<Message>)
    ensures r.Success? ==> |r.value.1| < |bs|
  {
    var (enumType, b1) :- GetVec(GetEnum, bs);
    var (extensionRange, b2) :- GetVec(GetExtensionRange, b1);
    var (oneofDecl, b3) :- GetVec(GetOneof, b2);
    var (options, b4) :- GetOpt(GetMessageOptions, b3);
    var (reservedRange, b5) :- GetVec(GetReservedRange, b4);
    var (reservedName, b6) :- GetVec(GetStr, b5);
    var (visibility, b7) :- GetOpt(GetVisibility, b6);
    Success((Message(name, field, extension, nestedType, enumType, extensionRange, oneofDecl, options,
                     reservedRange, reservedName, visibility, None), b7))
  }

  /** The message with every source span, at every depth, cleared. */
  function ClearMessage(m: Message): Message
    decreases m, 1
  {
    m.(field := MapSeq(ClearField, m.field), extension := MapSeq(ClearField, m.extension),
       nestedType := ClearMessages(m.nestedType), enumType := MapSeq(ClearEnum, m.enumType), sourceSpan := None)
  }

  function ClearMessages(ms: seq<Message>): (r: seq<Message>)
    ensures |r| == |ms|
    decreases ms, 0
  {
    if ms == [] then [] else [ClearMessage(ms[0])] + ClearMessages(ms[1..])
  }

  lemma MessageTailRoundTrip(m: Message, nested: seq<Message>, rest: Bytes)
    ensures |rest| < |PutMessageTail(m, rest)|
    ensures |PutMessageTail(m, rest)| < U64_LIMIT ==>
              GetMessageTail(m.name, MapSeq(ClearField, m.field), MapSeq(ClearField, m.extension), nested,
                             PutMessageTail(m, rest))
              == Success((ClearMessage(m).(nestedType := nested), rest))
  {
    EnumInverts();
    VecFacts(PutEnum, GetEnum, ClearEnum);
    ExtensionRangeInverts();
    PlainVecFacts(PutExtensionRange, GetExtensionRange);
    OneofInverts();
    PlainVecFacts(PutOneof, GetOneof);
    MessageOptionsInverts();
    OptFacts(PutMessageOptions, GetMessageOptions);
    ReservedRangeInverts();
    PlainVecFacts(PutReservedRange, GetReservedRange);
    StrInverts();
    PlainVecFacts(PutStr, GetStr);
    VisibilityInverts();
    OptFacts(PutVisibility, GetVisibility);
  }

  lemma {:induction false} MessageRoundTrip(m: Message, rest: Bytes)
    ensures |rest| < |PutMessage(m, rest)|
    ensures |PutMessage(m, rest)| < U64_LIMIT ==> GetMessage(PutMessage(m, rest)) == Success((ClearMessage(m), rest))
    decreases m, 1
  {
    StrInverts();
    OptFacts(PutStr, GetStr);
    FieldInverts();
    VecFacts(PutField, GetField, ClearField);
    var tail := PutMessageTail(m, rest);
    MessageTailRoundTrip(m, ClearMessages(m.nestedType), rest);
    MessagesRoundTrip(m.nestedType, tail);
    var nested := PutMessages(m.nestedType, tail);
    if |PutMessage(m, rest)| < U64_LIMIT {
      UvarintRoundTrip(|m.nestedType|, nested);
    }
  }

  lemma {:induction false} MessagesRoundTrip(ms: seq<Message>, rest: Bytes)
    ensures |ms| + |rest| <= |PutMessages(ms, rest)|
    ensures |PutMessages(ms, rest)| < U64_LIMIT ==>
              GetMessages(|ms|, PutMessages(ms, rest)) == Success((ClearMessages(ms), rest))
    decreases ms, 0
  {
    if ms != [] {
      MessagesRoundTrip(ms[1..], rest);
      MessageRoundTrip(ms[0], PutMessages(ms[1..], rest));
    }
  }

  lemma MessageTailFrames(m: Message, a: Bytes, b: Bytes)
    ensures PutMessageTail(m, a + b) == PutMessageTail(m, a) + b
  {
    EnumInverts();
    VecFacts(PutEnum, GetEnum, ClearEnum);
    ExtensionRangeInverts();
    PlainVecFacts(PutExtensionRange, GetExtensionRange);
    OneofInverts();
    PlainVecFacts(PutOneof, GetOneof);
    MessageOptionsInverts();
    OptFacts(PutMessageOptions, GetMessageOptions);
    ReservedRangeInverts();
    PlainVecFacts(PutReservedRange, GetReservedRange);
    StrInverts();
    PlainVecFacts(PutStr, GetStr);
    VisibilityInverts();
    OptFacts(PutVisibility, GetVisibility);
  }

  lemma {:induction false} MessageFrames(m: Message, a: Bytes, b: Bytes)
    ensures PutMessage(m, a + b) == PutMessage(m, a) + b
    decreases m, 1
  {
    StrInverts();
    OptFacts(PutStr, GetStr);
    FieldInverts();
    VecFacts(PutField, GetField, ClearField);
    MessageTailFrames(m, a, b);
    var tail := PutMessageTail(m, a);
    MessagesFrame(m.nestedType, tail, b);
    PutUvarintFrames(|m.nestedType|, PutMessages(m.nestedType, tail), b);
  }

  lemma {:induction false} MessagesFrame(ms: seq<Message>, a: Bytes, b: Bytes)
    ensures PutMessages(ms, a + b) == PutMessages(ms, a) + b
    decreases ms, 0
  {
    if ms != [] {
      MessagesFrame(ms[1..], a, b);
      MessageFrames(ms[0], PutMessages(ms[1..], a), b);
    }
  }

  lemma MessageInverts()
    ensures Inverts(PutMessage, GetMessage, ClearMessage)
  {
    forall m: Message, rest: Bytes
      ensures |rest| < |PutMessage(m, rest)|
      ensures |PutMessage(m, rest)| < U64_LIMIT ==> GetMessage(PutMessage(m, rest)) == Success((ClearMessage(m), rest))
    {
      MessageRoundTrip(m, rest);
    }
    forall m: Message, a: Bytes, b: Bytes
      ensures PutMessage(m, a + b) == PutMessage(m, a) + b
    {
      MessageFrames(m, a, b);
    }
  }

  /** Decoding an encoded descriptor tree followed by any bytes gives the tree back and leaves exactly those bytes. */
  lemma DecodeEncodedMessage(m: Message, rest: Bytes)
    requires |PutMessage(m, [])| + |rest| < U64_LIMIT
    ensures GetMessage(PutMessage(m, []) + rest) == Success((ClearMessage(m), rest))
  {
    MessageFrames(m, [], rest);
    assert [] + rest == rest;
    MessageRoundTrip(m, rest);
  }

  /** No two descriptor trees that differ beyond their source spans share an encoding. */
  lemma MessageEncodingInjective(x: Message, y: Message)
    requires PutMessage(x, []) == PutMessage(y, [])
    requires |PutMessage(x, [])| < U64_LIMIT
    ensures ClearMessage(x) == ClearMessage(y)
  {
    MessageRoundTrip(x, []);
    MessageRoundTrip(y, []);
  }
}
