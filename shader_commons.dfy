/**
  Enumerations the introspector uses from the engine's shader and descriptor
  headers (shader stage, shader content type, descriptor type). Only the
  values the introspector distinguishes matter; their numeric encodings do not.
 */
module ShaderCommons {

  /** `IShader::E_SHADER_STAGE`; `Unknown` is `ESS_UNKNOWN`. */
  datatype ShaderStage =
    | Unknown
    | Vertex
    | TessellationControl
    | TessellationEvaluation
    | Geometry
    | Fragment
    | Compute
    | Task
    | Mesh

  /** `core::bitflag<E_SHADER_STAGE>`: the stages whose bit is set; `ESS_UNKNOWN` is the empty mask. */
  type StageMask = m: set<ShaderStage> | Unknown !in m

  /** `IShader::E_CONTENT_TYPE`. */
  datatype ContentType = UnknownContent | Glsl | Hlsl | Spirv

  /** `IDescriptor::E_TYPE`; `Count` is the `ET_COUNT` "no type" value. */
  datatype DescriptorType =
    | CombinedImageSampler
    | StorageImage
    | UniformTexelBuffer
    | StorageTexelBuffer
    | UniformBuffer
    | StorageBuffer
    | UniformBufferDynamic
    | StorageBufferDynamic
    | InputAttachment
    | AccelerationStructure
    | Count
}
