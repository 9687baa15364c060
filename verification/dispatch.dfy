/** The dispatching `DataReshaper::reshapeImage(PixelBufferDescriptor*, ...)`: maps
    the destination's pixel format to a channel count and its component type to an
    instantiation of the 2-D kernel, and fails closed on anything else. Buffers hold
    raw component bit patterns (`nat`s), in the unit of the descriptor's type. */
module Dispatch {
  import opened Options
  import opened Arith
  import opened Components
  import opened ImageReshape
  import ImageReshapeProperties

  /** The pixel formats the dispatcher distinguishes; every other format of the
      driver is `OtherFormat`. */
  datatype PixelDataFormat = RGB | RGBA | OtherFormat

  /** The pixel data types the dispatcher distinguishes; every other type of the
      driver (including the 16-bit ones) is `OtherType`. */
  datatype PixelDataType = UBYTE | FLOAT | INT | UINT | OtherType

  /** The fields of a pixel buffer descriptor the dispatcher reads and writes. */
  datatype PixelBufferDescriptor = PixelBufferDescriptor(format: PixelDataFormat, dataType: PixelDataType, buffer: seq<nat>)

  /** The format switch: 3 for RGB, 4 for RGBA, 0 (unsupported) for anything else. */
  function ChannelCount(format: PixelDataFormat): nat
  {
    match format
    case RGB => 3
    case RGBA => 4
    case OtherFormat => 0
  }

  /** The type switch: the component type of the kernel instantiation, or None when
      the kernel pointer stays null. */
  function KernelType(t: PixelDataType): Option<ComponentType>
  {
    match t
    case UBYTE => Some(UInt8)
    case FLOAT => Some(Float32)
    case INT => Some(Int32)
    case UINT => Some(UInt32)
    case OtherType => None
  }

  /** The dispatcher has both a kernel and a channel count for this destination. */
  predicate Supported(dst: PixelBufferDescriptor)
  {
    ChannelCount(dst.format) != 0 && KernelType(dst.dataType).Some?
  }

  /** What the selected kernel demands of its arguments (and does not check):
      strides in whole components, and buffers that fit the geometry. */
  predicate KernelCallOk(dst: PixelBufferDescriptor, srcBytes: seq<nat>, srcBytesPerRow: nat,
                         dstBytesPerRow: nat, height: nat, swizzle: bool)
    requires Supported(dst)
  {
    var size := Size(KernelType(dst.dataType).value);
    && Rem(srcBytesPerRow, size) == 0 && Rem(dstBytesPerRow, size) == 0
    && Fits(Layout(size, srcBytesPerRow, dstBytesPerRow, ChannelCount(dst.format), height, swizzle),
            dst.buffer, srcBytes)
  }

  /** The destination buffer after a successful call: one run of the kernel over
      all `height` rows, with the default value of the destination's type. */
  function DispatchedBuffer(dst: PixelBufferDescriptor, srcBytes: seq<nat>, srcBytesPerRow: nat,
                            dstBytesPerRow: nat, height: nat, swizzle: bool): seq<nat>
    requires Supported(dst) && KernelCallOk(dst, srcBytes, srcBytesPerRow, dstBytesPerRow, height, swizzle)
  {
    var t := KernelType(dst.dataType).value;
    ReshapedImage(Layout(Size(t), srcBytesPerRow, dstBytesPerRow, ChannelCount(dst.format), height, swizzle),
                  dst.buffer, srcBytes, DefaultAlpha(t))
  }

  /** Every word of the buffer is a bit pattern of component type `t`. */
  predicate AllWords(t: ComponentType, words: seq<nat>)
  {
    forall w | w in words :: IsWord(t, w)
  }

  /** Returns false, and leaves the descriptor as it was, exactly when the format is
      neither RGB nor RGBA or the type is not UBYTE, FLOAT, INT or UINT. Otherwise
      runs the kernel once over all rows with 3 or 4 destination channels and
      returns true; the result then holds only patterns of the destination type
      when both inputs do. */
  method ReshapeImage(dst: PixelBufferDescriptor, srcType: PixelDataType, srcBytes: seq<nat>,
                      srcBytesPerRow: int, dstBytesPerRow: int, height: int, swizzle: bool)
    returns (ok: bool, result: PixelBufferDescriptor)
    requires srcType == dst.dataType
    requires srcBytesPerRow >= 0 && dstBytesPerRow >= 0 && height >= 0
    requires Supported(dst) ==> KernelCallOk(dst, srcBytes, srcBytesPerRow, dstBytesPerRow, height, swizzle)
    ensures ok <==> dst.format in {RGB, RGBA} && dst.dataType in {UBYTE, FLOAT, INT, UINT}
    ensures !ok ==> result == dst
    ensures ok ==> result.format == dst.format && result.dataType == dst.dataType
    ensures ok ==> result.buffer == DispatchedBuffer(dst, srcBytes, srcBytesPerRow, dstBytesPerRow, height, swizzle)
    ensures ok && AllWords(KernelType(dst.dataType).value, dst.buffer) && AllWords(KernelType(dst.dataType).value, srcBytes)
            ==> AllWords(KernelType(dst.dataType).value, result.buffer)
  {
    var dstChannelCount := ChannelCount(dst.format);
    var reshaper := KernelType(dst.dataType);
    if reshaper.None? || dstChannelCount == 0 {
      return false, dst;
    }
    var t := reshaper.value;
    var dstBytes := ImageReshape.ReshapeImage(dst.buffer, srcBytes, Size(t), srcBytesPerRow, dstBytesPerRow,
                                              dstChannelCount, height, swizzle, DefaultAlpha(t));
    ImageReshapeProperties.ResultValuesComeFromInputs(
      Layout(Size(t), srcBytesPerRow, dstBytesPerRow, dstChannelCount, height, swizzle),
      dst.buffer, srcBytes, DefaultAlpha(t));
    return true, dst.(buffer := dstBytes);
  }
}
