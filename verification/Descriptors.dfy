/** The Protobuf descriptor tree and file metadata that the registry stores. */
module Descriptors {
  import opened Wrappers
  import opened Utf8
  import opened Wire

  /** Parser-only source position; never serialized. */
  datatype SourceSpan = SourceSpan(start: nat, end: nat)

  datatype Visibility = Export | Local
  datatype FieldLabel = LabelOptional | LabelRequired | LabelRepeated
  datatype OptimizeMode = Speed | CodeSize | LiteRuntime
  datatype FieldCType = CString | Cord | StringPiece
  datatype FieldJsType = JsNormal | JsString | JsNumber
  datatype IdempotencyLevel = IdempotencyUnknown | NoSideEffects | Idempotent

  datatype FieldType =
    | TDouble | TFloat | TInt64 | TUint64 | TInt32 | TFixed64 | TFixed32 | TBool | TString
    | TGroup | TMessage | TBytes | TUint32 | TEnum | TSfixed32 | TSfixed64 | TSint32 | TSint64

  datatype NamePart = NamePart(namePart: string, isExtension: bool)

  datatype UninterpretedOption = UninterpretedOption(
    name: seq<NamePart>, identifierValue: Option<string>, positiveIntValue: Option<u64>,
    negativeIntValue: Option<i64>, doubleValue: Option<string>, stringValue: Option<Bytes>,
    aggregateValue: Option<string>)

  datatype FileOptions = FileOptions(
    javaPackage: Option<string>, javaOuterClassname: Option<string>, javaMultipleFiles: Option<bool>,
    javaGenerateEqualsAndHash: Option<bool>, javaStringCheckUtf8: Option<bool>,
    optimizeFor: Option<OptimizeMode>, goPackage: Option<string>, ccGenericServices: Option<bool>,
    javaGenericServices: Option<bool>, pyGenericServices: Option<bool>, deprecated: Option<bool>,
    ccEnableArenas: Option<bool>, objcClassPrefix: Option<string>, csharpNamespace: Option<string>,
    swiftPrefix: Option<string>, phpClassPrefix: Option<string>, phpNamespace: Option<string>,
    phpMetadataNamespace: Option<string>, rubyPackage: Option<string>,
    uninterpreted: seq<UninterpretedOption>)

  datatype MessageOptions = MessageOptions(
    messageSetWireFormat: Option<bool>, noStandardDescriptorAccessor: Option<bool>,
    deprecated: Option<bool>, mapEntry: Option<bool>, uninterpreted: seq<UninterpretedOption>)

  datatype FieldOptions = FieldOptions(
    ctype: Option<FieldCType>, packed: Option<bool>, jstype: Option<FieldJsType>, lazy: Option<bool>,
    deprecated: Option<bool>, weak: Option<bool>, uninterpreted: seq<UninterpretedOption>)

  datatype EnumOptions = EnumOptions(
    allowAlias: Option<bool>, deprecated: Option<bool>, uninterpreted: seq<UninterpretedOption>)

  datatype MethodOptions = MethodOptions(
    deprecated: Option<bool>, idempotencyLevel: Option<IdempotencyLevel>, uninterpreted: seq<UninterpretedOption>)

  /** Enum-value and service options carry only a deprecation flag. */
  datatype FlagOptions = FlagOptions(deprecated: Option<bool>, uninterpreted: seq<UninterpretedOption>)

  /** Oneof and extension-range options carry no interpreted member. */
  datatype BareOptions = BareOptions(uninterpreted: seq<UninterpretedOption>)

  datatype ExtensionRange = ExtensionRange(start: Option<i32>, end: Option<i32>, options: Option<BareOptions>)

  /** Message ranges exclude `end`, enum ranges include it. */
  datatype ReservedRange = ReservedRange(start: Option<i32>, end: Option<i32>)

  datatype OneofDescriptor = OneofDescriptor(name: Option<string>, options: Option<BareOptions>)

  datatype Field = Field(
    name: Option<string>, number: Option<i32>, fieldLabel: Option<FieldLabel>, fieldType: Option<FieldType>,
    typeName: Option<string>, extendee: Option<string>, defaultValue: Option<string>, oneofIndex: Option<i32>,
    jsonName: Option<string>, options: Option<FieldOptions>, proto3Optional: Option<bool>,
    sourceSpan: Option<SourceSpan>)

  datatype EnumValue = EnumValue(
    name: Option<string>, number: Option<i32>, options: Option<FlagOptions>, sourceSpan: Option<SourceSpan>)

  datatype Enum = Enum(
    name: Option<string>, value: seq<EnumValue>, options: Option<EnumOptions>, reservedRange: seq<ReservedRange>,
    reservedName: seq<string>, visibility: Option<Visibility>, sourceSpan: Option<SourceSpan>)

  datatype RpcMethod = RpcMethod(
    name: Option<string>, inputType: Option<string>, outputType: Option<string>, options: Option<MethodOptions>,
    clientStreaming: Option<bool>, serverStreaming: Option<bool>)

  datatype Service = Service(name: Option<string>, rpcs: seq<RpcMethod>, options: Option<FlagOptions>)

  datatype Message = Message(
    name: Option<string>, field: seq<Field>, extension: seq<Field>, nestedType: seq<Message>,
    enumType: seq<Enum>, extensionRange: seq<ExtensionRange>, oneofDecl: seq<OneofDescriptor>,
    options: Option<MessageOptions>, reservedRange: seq<ReservedRange>, reservedName: seq<string>,
    visibility: Option<Visibility>, sourceSpan: Option<SourceSpan>)

  datatype SourceLocation = SourceLocation(
    path: seq<i32>, span: seq<i32>, leadingComments: Option<string>, trailingComments: Option<string>,
    leadingDetachedComments: seq<string>)

  datatype Meta = Meta(
    name: Option<string>, package: Option<string>, dependency: seq<string>, publicDependency: seq<i32>,
    weakDependency: seq<i32>, optionDependency: seq<string>, options: Option<FileOptions>,
    syntax: Option<string>, edition: Option<string>, sourceInfo: Option<seq<SourceLocation>>,
    messageOrder: seq<string>, enumOrder: seq<string>, serviceOrder: seq<string>, extension: seq<Field>,
    dependencyCommit: seq<string>)

  /** One stored declaration. */
  datatype Decl = MessageDecl(message: Message) | EnumDecl(enumeration: Enum) | ServiceDecl(service: Service)

  const EmptyMessage := Message(None, [], [], [], [], [], [], None, [], [], None, None)
  const EmptyEnum := Enum(None, [], None, [], [], None, None)
  const EmptyService := Service(None, [], None)
  const EmptyMeta := Meta(None, None, [], [], [], [], None, None, None, None, [], [], [], [], [])
}
