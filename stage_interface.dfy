/**
  The queryable content of one shader stage's introspection: stage inputs
  and outputs, specialization constants, the push-constant block,
  per-set descriptor bindings with their kind-specific payloads, the
  creation parameters and their content equality, and the read-only getters.
 */
module StageInterface {
  import opened Wrappers
  import opened Bytes
  import opened BasedHandles
  import opened ShaderCommons
  import opened TypeLayout

  /** `CSPIRVIntrospector::MaxPushConstantsSize`. */
  const MaxPushConstantsSize: nat := 256
  /** `DESCRIPTOR_SET_COUNT`. */
  const DescriptorSetCount: nat := 4

  type U8 = x: int | 0 <= x < 256

  // ---------------------------------------------------------------- stage interface

  /** `SInterface` (also `SInputInterface` and `SOutputInterface`). */
  datatype Interface = Interface(location: U32, elements: U32, baseType: VarType)

  /** `SFragmentOutputInterface`: an output with its dual-source-blend color index. */
  datatype FragmentOutput = FragmentOutput(output: Interface, colorIndex: U8)

  /** `SInterface::operator<`: ordered by location only. */
  predicate InterfaceLess(a: Interface, b: Interface)
  {
    a.location < b.location
  }

  /**
    `operator<` is a strict weak order whose equivalence classes are the
    locations, as the sort of inputs and outputs by location requires.
   */
  lemma InterfaceLessIsStrictWeakOrder(a: Interface, b: Interface, c: Interface)
    ensures !InterfaceLess(a, a)
    ensures InterfaceLess(a, b) && InterfaceLess(b, c) ==> InterfaceLess(a, c)
    ensures !InterfaceLess(a, b) && !InterfaceLess(b, a) <==> a.location == b.location
  {
  }

  /** The `m_output` variant: fragment outputs for a fragment shader, generic outputs otherwise. */
  datatype Outputs =
    | FragmentOutputs(fragment: seq<FragmentOutput>)
    | GenericOutputs(generic: seq<Interface>)

  /** `SSpecConstant`; the `defaultValue` union is kept as its 64-bit pattern. */
  datatype SpecConstant = SpecConstant(name: seq<Byte>, defaultValue: SizeT, id: U32, byteSize: U32, varType: VarType)

  // ---------------------------------------------------------------- push constants

  /** A byte count of a push-constant block: at most `MaxPushConstantsSize`. */
  type PushConstantSize = x: int | 0 <= x <= 256

  /**
    `SPushConstantInfo`, with `size` wide enough for every legal block size
    (see the as-written narrowing below).
   */
  datatype PushConstantInfo = PushConstantInfo(
    blockType: Option<TypeNode>,
    name: seq<Byte>,
    offset: U8,
    size: PushConstantSize)

  /** `m_pushConstants = {}`: no block, and no push-constant byte covered. */
  function DefaultPushConstants(): (pc: PushConstantInfo)
    ensures !Present(pc)
    ensures forall b: nat :: !Covers(pc.offset, pc.size, b)
  {
    PushConstantInfo(None, [], 0, 0)
  }

  /** `present()`: a block type was recorded (a declared block may still be empty). */
  predicate Present(pc: PushConstantInfo)
  {
    pc.blockType.Some?
  }

  /** Push-constant byte `b` lies in `[offset, offset + size)`, the range a recorded block covers. */
  predicate Covers(offset: nat, size: nat, b: nat)
  {
    offset <= b < offset + size
  }

  /**
    Recording a block of `byteSize` bytes at `offset` into `SPushConstantInfo`
    as declared: both fields are `uint8_t`, so the stored values are taken
    modulo 256.
   */
  function RecordedSizeAsWritten(byteSize: nat): (stored: U8)
    ensures byteSize < 256 ==> stored == byteSize
  {
    byteSize % 256
  }

  /**
    A present block of the full `MaxPushConstantsSize` bytes is recorded with
    size 0, so it covers no bytes.
   */
  lemma FullBlockRecordedEmptyAsWritten()
    ensures RecordedSizeAsWritten(MaxPushConstantsSize) == 0
    ensures forall b: nat :: !Covers(0, RecordedSizeAsWritten(MaxPushConstantsSize), b)
    ensures Covers(0, MaxPushConstantsSize, 0)
  {
  }

  /**
    The two encodings of a block's size that fits in the push-constant range:
    the `uint8_t` field keeps it exactly when it is below 256, and on the
    bytes the block declares the as-written record agrees with the block
    exactly then. The widened `PushConstantSize` field of `PushConstantInfo`
    holds every such size, and the bytes it covers are push-constant bytes.
   */
  lemma PushConstantSizeEncodings(offset: U8, size: nat)
    requires offset + size <= MaxPushConstantsSize
    ensures RecordedSizeAsWritten(size) == size <==> size < MaxPushConstantsSize
    ensures size > 0 ==>
      (Covers(offset, RecordedSizeAsWritten(size), offset) <==> size < MaxPushConstantsSize)
    ensures forall b: nat :: Covers(offset, size, b) ==>
      (Covers(offset, RecordedSizeAsWritten(size), b) <==> size < MaxPushConstantsSize)
    ensures forall b: nat :: Covers(offset, size, b) ==> b < MaxPushConstantsSize
  {
  }

  // ---------------------------------------------------------------- descriptors

  /** `SRWDescriptor`. */
  datatype RWDescriptor = RWDescriptor(readonly: bool, writeonly: bool)

  /** `IImageView::E_TYPE`. */
  datatype ImageViewType = View1D | View2D | View3D | ViewCube | View1DArray | View2DArray | ViewCubeArray

  /** `SImage`. */
  datatype ImageInfo = ImageInfo(viewType: ImageViewType, shadow: bool)

  /** `SStorageBuffer`: the block type and the size of the block without its last member. */
  datatype StorageBufferBlock = StorageBufferBlock(
    rw: RWDescriptor,
    blockType: Option<TypeNode>,
    sizeWithoutLastMember: SizeT)

  /** The kind-specific union of `SDescriptorVarInfo`, as a closed sum. */
  datatype DescriptorPayload =
    | CombinedImageSamplerInfo(image: ImageInfo, multisample: bool)
    | StorageImageInfo(rw: RWDescriptor, image: ImageInfo, format: nat)
    | UniformTexelBufferInfo
    | StorageTexelBufferInfo(rw: RWDescriptor)
    | UniformBufferInfo(blockType: Option<TypeNode>, size: SizeT)
    | StorageBufferInfo(storageBuffer: StorageBufferBlock)
    | InputAttachmentInfo(index: U32)

  /** `SDescriptorVarInfo<false>`. */
  datatype DescriptorVarInfo = DescriptorVarInfo(
    binding: U32,
    descriptorType: DescriptorType,
    name: seq<Byte>,
    count: seq<ArrayInfo>,
    restrict: bool,
    aliased: bool,
    payload: DescriptorPayload)

  /** `isArray()`: at least one extent is recorded. */
  predicate DescriptorIsArray(d: DescriptorVarInfo)
  {
    |d.count| > 0
  }

  /** `isRunTimeSized()`: an array whose outermost recorded extent word is 0. */
  predicate DescriptorIsRunTimeSized(d: DescriptorVarInfo)
  {
    if DescriptorIsArray(d) then d.count[0].value == 0 else false
  }

  /**
    A runtime-sized descriptor is an array, and it is runtime-sized exactly
    when its first recorded extent is (a zero word is never a spec constant).
   */
  lemma DescriptorRunTimeSized(d: DescriptorVarInfo)
    ensures DescriptorIsRunTimeSized(d) ==> DescriptorIsArray(d)
    ensures DescriptorIsRunTimeSized(d) <==> DescriptorIsArray(d) && IsRuntimeSized(d.count[0])
  {
  }

  /** What `isLastMemberRuntimeSized` needs: a block type, and if it has members, a last member that is an array. */
  predicate LastMemberInspectable(sb: StorageBufferBlock)
  {
    sb.blockType.Some? && WellShaped(sb.blockType.value) &&
    (MemberCount(sb.blockType.value) > 0 ==>
       TypeIsArray(sb.blockType.value.memberTypes[MemberCount(sb.blockType.value) - 1]))
  }

  /** `isLastMemberRuntimeSized()`: the last member's first recorded extent is runtime-sized. */
  predicate IsLastMemberRuntimeSized(sb: StorageBufferBlock)
    requires LastMemberInspectable(sb)
  {
    var t := sb.blockType.value;
    if MemberCount(t) > 0 then IsRuntimeSized(t.memberTypes[MemberCount(t) - 1].count[0]) else false
  }

  /** The stride of the block's last member. */
  function LastMemberStride(sb: StorageBufferBlock): U32
    requires LastMemberInspectable(sb) && MemberCount(sb.blockType.value) > 0
  {
    var t := sb.blockType.value;
    t.memberStrides[MemberCount(t) - 1]
  }

  /**
    `getRuntimeSize(n)`: the size of the buffer when its runtime-sized last
    member has `n` elements (computed in `size_t`).
   */
  function GetRuntimeSize(sb: StorageBufferBlock, lastMemberElementCount: SizeT): (r: SizeT)
    requires LastMemberInspectable(sb)
  {
    if IsLastMemberRuntimeSized(sb) then
      (sb.sizeWithoutLastMember + lastMemberElementCount * LastMemberStride(sb)) % SizeTModulus
    else
      sb.sizeWithoutLastMember
  }

  /** A block without members is never runtime-sized, and its size ignores the element count. */
  lemma EmptyBlockIsNotRuntimeSized(sb: StorageBufferBlock, n: SizeT)
    requires LastMemberInspectable(sb) && MemberCount(sb.blockType.value) == 0
    ensures !IsLastMemberRuntimeSized(sb)
    ensures GetRuntimeSize(sb, n) == sb.sizeWithoutLastMember
  {
  }

  /**
    The runtime size: with no elements it is `sizeWithoutLastMember`; each
    further element adds the last member's stride (while no 64-bit overflow
    occurs); and when the last member is not runtime-sized it does not depend
    on the element count. The last member of a runtime-sized block is never a
    spec-constant extent, which is what the source's assertion checks.
   */
  lemma RuntimeSizeGrowth(sb: StorageBufferBlock, n: SizeT)
    requires LastMemberInspectable(sb)
    ensures GetRuntimeSize(sb, 0) == sb.sizeWithoutLastMember
    ensures IsLastMemberRuntimeSized(sb) ==>
      !IsSpecConstant(sb.blockType.value.memberTypes[MemberCount(sb.blockType.value) - 1].count[0])
    ensures IsLastMemberRuntimeSized(sb) && sb.sizeWithoutLastMember + (n + 1) * LastMemberStride(sb) < SizeTModulus
            && n + 1 < SizeTModulus
        ==> GetRuntimeSize(sb, n + 1) == GetRuntimeSize(sb, n) + LastMemberStride(sb)
    ensures !IsLastMemberRuntimeSized(sb) ==> GetRuntimeSize(sb, n) == sb.sizeWithoutLastMember
  {
    if IsLastMemberRuntimeSized(sb) && sb.sizeWithoutLastMember + (n + 1) * LastMemberStride(sb) < SizeTModulus
       && n + 1 < SizeTModulus {
      var s := LastMemberStride(sb);
      assert (n + 1) * s == n * s + s;
      assert n * s <= (n + 1) * s;
    }
  }

  // ---------------------------------------------------------------- creation parameters

  /** The parts of an `ICPUShader` the introspector looks at, plus one it ignores. */
  datatype Shader = Shader(stage: ShaderStage, contentType: ContentType, content: seq<Byte>, filepathHint: string)

  /** `SParams`: entry point and a (nullable) shader. */
  datatype SParams = SParams(entryPoint: string, shader: Option<Shader>)

  /**
    `SParams::operator==`: same entry point, a shader on the right, same
    stage, content type, content size and content bytes. The left shader is
    dereferenced unchecked, so it must be present.
   */
  predicate ParamsEqual(lhs: SParams, rhs: SParams)
    requires lhs.shader.Some?
  {
    if lhs.entryPoint != rhs.entryPoint then false
    else if rhs.shader.None? then false
    else if lhs.shader.value.stage != rhs.shader.value.stage then false
    else if lhs.shader.value.contentType != rhs.shader.value.contentType then false
    else if |lhs.shader.value.content| != |rhs.shader.value.content| then false
    else lhs.shader.value.content == rhs.shader.value.content
  }

  /**
    Equality is by content: it holds exactly when the entry points, stages,
    content types and content bytes agree, whatever else the shaders carry,
    and it is an equivalence on parameters that carry a shader.
   */
  lemma ParamsEqualByContent(a: SParams, b: SParams, c: SParams)
    requires a.shader.Some?
    ensures ParamsEqual(a, b) <==>
      b.shader.Some? && a.entryPoint == b.entryPoint &&
      a.shader.value.stage == b.shader.value.stage &&
      a.shader.value.contentType == b.shader.value.contentType &&
      a.shader.value.content == b.shader.value.content
    ensures ParamsEqual(a, a)
    ensures b.shader.Some? ==> (ParamsEqual(a, b) <==> ParamsEqual(b, a))
    ensures b.shader.Some? && ParamsEqual(a, b) && ParamsEqual(b, c) ==> ParamsEqual(a, c)
  {
  }

  // ---------------------------------------------------------------- the finalized result

  /** The queryable members of `CStageIntrospectionData`. */
  datatype StageData = StageData(
    shaderStage: ShaderStage,
    specConstants: seq<SpecConstant>,
    inputs: seq<Interface>,
    outputs: Outputs,
    pushConstants: PushConstantInfo,
    descriptorSetBindings: seq<seq<DescriptorVarInfo>>)

  /** The output variant agrees with the stage, as finalization sets it up. */
  predicate OutputsMatchStage(s: StageData)
  {
    s.outputs.FragmentOutputs? <==> s.shaderStage == Fragment
  }

  /** `getDescriptorSetInfo(set)`. */
  function GetDescriptorSetInfo(s: StageData, setIndex: U8): seq<DescriptorVarInfo>
    requires |s.descriptorSetBindings| == DescriptorSetCount && setIndex < DescriptorSetCount
  {
    s.descriptorSetBindings[setIndex]
  }

  /**
    `getFragmentShaderOutputs()`: empty unless the stage is the fragment
    stage; `std::get` throws `bad_variant_access` (a `Failure` here) when a
    fragment stage holds generic outputs.
   */
  function GetFragmentShaderOutputs(s: StageData): (r: Result<seq<FragmentOutput>, string>)
    ensures r.Failure? <==> s.shaderStage == Fragment && !s.outputs.FragmentOutputs?
    ensures r.Success? && r.value != [] ==>
      s.shaderStage == Fragment && r.value == s.outputs.fragment
  {
    if s.shaderStage != Fragment then Success([])
    else if s.outputs.GenericOutputs? then Failure("bad_variant_access")
    else Success(s.outputs.fragment)
  }

  /**
    `getShaderOutputs()`: empty for an unknown or a fragment stage; `std::get`
    throws `bad_variant_access` (a `Failure` here) when another stage holds
    fragment outputs.
   */
  function GetShaderOutputs(s: StageData): (r: Result<seq<Interface>, string>)
    ensures r.Failure? <==>
      s.shaderStage != Unknown && s.shaderStage != Fragment && !s.outputs.GenericOutputs?
    ensures r.Success? && r.value != [] ==>
      s.shaderStage != Unknown && s.shaderStage != Fragment && r.value == s.outputs.generic
  {
    if s.shaderStage == Unknown || s.shaderStage == Fragment then Success([])
    else if s.outputs.FragmentOutputs? then Failure("bad_variant_access")
    else Success(s.outputs.generic)
  }

  /**
    The two output getters never both return outputs: a fragment stage gets
    its fragment outputs and no generic ones, any other known stage gets its
    generic outputs and no fragment ones, and an unknown stage gets neither.
   */
  lemma OutputGettersExclusive(s: StageData)
    requires OutputsMatchStage(s)
    ensures GetFragmentShaderOutputs(s).Success? && GetShaderOutputs(s).Success?
    ensures GetFragmentShaderOutputs(s).value == [] || GetShaderOutputs(s).value == []
    ensures s.shaderStage == Fragment ==>
      GetFragmentShaderOutputs(s) == Success(s.outputs.fragment) && GetShaderOutputs(s) == Success([])
    ensures s.shaderStage != Fragment && s.shaderStage != Unknown ==>
      GetShaderOutputs(s) == Success(s.outputs.generic) && GetFragmentShaderOutputs(s) == Success([])
    ensures s.shaderStage == Unknown ==>
      GetFragmentShaderOutputs(s) == Success([]) && GetShaderOutputs(s) == Success([])
  {
  }

  /**
    Neither getter throws exactly when the variant agrees with the stage, or
    the stage is unknown (both getters then return early).
   */
  lemma OutputGettersThrowOnMismatch(s: StageData)
    ensures GetFragmentShaderOutputs(s).Success? && GetShaderOutputs(s).Success? <==>
      OutputsMatchStage(s) || s.shaderStage == Unknown
  {
  }
}
