/**
 * `FrameGraphFormat`: the pixel formats a render target or image may have.
 *
 * The core compares formats only for equality and classifies three of them
 * as depth/stencil formats, so the numeric values the enum copies from
 * `VkFormat` are not modelled; the constructors are the enumerators that
 * are not commented out, in declaration order.
 */
module Formats {

  datatype FrameGraphFormat =
    | UNDEFINED | R8_UNORM | R8_SNORM | R8_UINT
    | R8_SINT | R8G8_UNORM | R8G8_SNORM | R8G8_UINT
    | R8G8_SINT | R8G8B8_UNORM | R8G8B8_SNORM | R8G8B8_UINT
    | R8G8B8_SINT | R8G8B8A8_UNORM | R8G8B8A8_SNORM | R8G8B8A8_UINT
    | R8G8B8A8_SINT | R16_UNORM | R16_SNORM | R16_UINT
    | R16_SINT | R16_SFLOAT | R16G16_UNORM | R16G16_SNORM
    | R16G16_UINT | R16G16_SINT | R16G16_SFLOAT | R16G16B16_UNORM
    | R16G16B16_SNORM | R16G16B16_UINT | R16G16B16_SINT | R16G16B16_SFLOAT
    | R16G16B16A16_UNORM | R16G16B16A16_SNORM | R16G16B16A16_UINT | R16G16B16A16_SINT
    | R16G16B16A16_SFLOAT | R32_UINT | R32_SINT | R32_SFLOAT
    | R32G32_UINT | R32G32_SINT | R32G32_SFLOAT | R32G32B32_UINT
    | R32G32B32_SINT | R32G32B32_SFLOAT | R32G32B32A32_UINT | R32G32B32A32_SINT
    | R32G32B32A32_SFLOAT | D32_SFLOAT | D24_UNORM_S8_UINT | D32_SFLOAT_S8_UINT
    | MAX_ENUM

  /** The depth and depth/stencil formats. */
  const DepthFormats: set<FrameGraphFormat> := {D32_SFLOAT, D24_UNORM_S8_UINT, D32_SFLOAT_S8_UINT}

  /** `isDepth(f)`: holds exactly for the three depth/stencil formats. */
  predicate IsDepth(f: FrameGraphFormat): (r: bool)
    ensures r <==> f in DepthFormats
    ensures r ==> f != UNDEFINED && f != MAX_ENUM
  {
    f == D32_SFLOAT || f == D24_UNORM_S8_UINT || f == D32_SFLOAT_S8_UINT
  }
}
