# DataReshaper, modelled in Dafny

Filament's backend `DataReshaper` converts interleaved pixel data between channel
layouts. Backends that only accept 4-component data use it, as do callers that
read back 3-component data. It consists of four pieces:

- `getDefaultAlpha<T>()` gives the "fully on" value of each component type. It is
  written into channels the source lacks.
- `reshape<T, N, M>` is the 1-D kernel. It walks `(numSrcBytes / sizeof T) / N`
  pixels. For each pixel it copies the first `min(N, M)` channels and fills
  channels `N .. M-1` with the default value.
- `reshapeImage<T>` is the 2-D kernel. The source always has 4 channels per pixel.
  The destination has `dstChannelCount` channels. Rows are a byte stride apart on
  each side. There are `(srcBytesPerRow / sizeof T) / 4` pixels per row. An
  optional swizzle reads source channels 0 and 2 swapped (the `inds` table).
- `reshapeImage(PixelBufferDescriptor*, ...)` is the dispatcher. RGB maps to 3
  channels and RGBA to 4. UBYTE, FLOAT, INT and UINT select a kernel
  instantiation. Any other format or type fails without writing anything.

The model works on components, not bytes:

- Buffers are sequences of components of an opaque type `T`.
- Byte strides become component strides by dividing by the component size. The
  model requires the division to be exact.
- A kernel takes the destination's contents before the call and returns its
  contents after the call. The source is an input value, so it is never written.
- In the dispatcher, a component is its raw bit pattern (a `nat`).
  `Components.DefaultAlpha` gives the patterns the source returns, for example
  `0x3f80_0000` for `1.0f`.
- The partner of that table is a set of decoders:
  - unsigned values;
  - two's-complement `int32_t`;
  - the finite values of IEEE 754 binary16 and binary32.

Each kernel has two definitions:

- a closed form for every destination index (`Reshape.Reshaped`,
  `ImageReshape.ReshapedImage`), which decodes the index into pixel and channel
  with `Arith.Quot` and `Arith.Rem`;
- a loop-by-loop method that follows the source's pointer walk.

Index arithmetic uses `Arith.Mul`, `Arith.Quot` and `Arith.Rem`, defined by
repeated addition and subtraction, the way the kernels' pointers advance by one
pixel or one row at a time. `Arith.MulIsProduct` and `Arith.QuotRemAreDivision`
show that they are `*`, `/` and `%` on naturals, the C++ operators on `size_t`.

Each method is proved equal to its closed form. The properties are then lemmas
about the closed form:

- which channel is copied from where;
- what is filled with the default value;
- that padding and rows past the image are untouched;
- round trips: pad then truncate, and swizzle twice;
- where the result's values can come from.

Both kernels copy values and never rescale them. The dispatcher requires the
source's pixel type to equal the destination's, so no conversion between types
happens. The model follows this code.

Files:

- `arith.dfy`: modules `Arith` and `Progress`.
  - `Arith` has `Min`, `Mul`, `Quot`, `Rem` and the facts that decode a flat index.
  - `Progress` has a generic "written up to k" loop invariant.
- `components.dfy`: modules `Options` and `Components` (component types, the
  default-alpha table, the decoders).
- `reshape.dfy`: module `Reshape` (the 1-D kernel and its typed form `ReshapeComponents`).
- `image.dfy`: modules `ImageReshape` (the 2-D kernel) and
  `ImageReshapeProperties` (its properties).
- `dispatch.dfy`: module `Dispatch` (the dispatcher).
- `examples.dfy`: module `DispatchExamples` (three small concrete cases).

## Model

| member | source | states |
|---|---|---|
| Arith.Min | filament/backend/src/DataReshaper.h:46 | the minimum channel count is at most each argument and equals one of them |
| Arith.QuotRemAreDivision | filament/backend/src/DataReshaper.h:45 | counting whole groups by repeated subtraction gives the C++ quotient and remainder of naturals |
| Arith.QuotRemOfOffset | filament/backend/src/DataReshaper.h:47-55 | after `q` advances of `d`, an offset `k < d` decodes back to group `q` and position `k` |
| Components.Size | filament/backend/src/DataReshaper.h:64 | `sizeof` is 1 for `uint8_t`, 2 for `uint16_t` and 4 for `int32_t`, `uint32_t` and `float`, and a type of that many bytes has `Limit(t) == 256^Size(t)` bit patterns |
| Components.DefaultAlpha | filament/backend/src/DataReshaper.h:28-33 | the default value is a bit pattern of its type; for `uint8_t` and `uint32_t` it is the largest pattern; for `int32_t` it decodes to 0x7fffffff, the largest signed value |
| Components.DefaultAlphaIsOne | filament/backend/src/DataReshaper.h:29-32 | for `float` the pattern decodes, as IEEE binary32, to 1.0; for `uint16_t` the pattern 0x3c00 decodes, as IEEE binary16, to 1.0 |
| Reshape.WordsFit | filament/backend/src/DataReshaper.h:45 | the pixels counted from the byte length, `(numSrcBytes / size) / N`, lie inside the source |
| Reshape.ReshapeAtPixel | filament/backend/src/DataReshaper.h:48-53 | channel `c` of pixel `w` is at `w * M + c` in the destination; it is source channel `c` of the same pixel when `c < N`, else the default value |
| Reshape.Reshape | filament/backend/src/DataReshaper.h:40-57 | the pixel loop returns exactly the closed-form result over `(numSrcBytes / size) / N` pixels, and both buffers fit those pixels |
| Reshape.ReshapePixel | filament/backend/src/DataReshaper.h:48-55 | the copy loop and the fill loop extend the finished prefix of the destination by exactly one pixel of `M` components |
| Reshape.FinishPass | filament/backend/src/DataReshaper.h:47-56 | once all processed pixels are written, the buffer equals the closed form, because the rest keeps its old value |
| Reshape.ReshapeCopiesChannel | filament/backend/src/DataReshaper.h:48-50 | channels below `min(N, M)` are copied from the same channel of the same source pixel |
| Reshape.ReshapePadsChannel | filament/backend/src/DataReshaper.h:51-53 | destination channels `N .. M-1` hold the default value |
| Reshape.ReshapeNarrowingNeverFills | filament/backend/src/DataReshaper.h:46-53 | when `M <= N`, every written component is a channel of the matching source pixel, so no default value is written |
| Reshape.ReshapeFrame | filament/backend/src/DataReshaper.h:47-56 | components past the `words * M` processed ones keep their old value |
| Reshape.ReshapeSameCountCopies | filament/backend/src/DataReshaper.h:46-50 | with `N == M` the processed prefix is an exact copy of the source |
| Reshape.ReshapeComponents | filament/backend/src/DataReshaper.h:40-57 | with components of a concrete type, the kernel uses that type's size and `getDefaultAlpha` value: every padded channel of a processed pixel holds the default pattern, and patterns of the type stay patterns of the type |
| Reshape.ReshapeOrigin | filament/backend/src/DataReshaper.h:47-56 | every result component is the old component, a source component or the default value |
| Reshape.PadThenTruncateRestores | filament/backend/src/DataReshaper.h:40-57 | padding N to M channels, then reshaping the `words * M` written components back to N channels, recovers the source; the second pass processes the same number of pixels |
| ImageReshape.Inds | filament/backend/src/DataReshaper.h:67 | the channel table is a self-inverse permutation of the four channels; it is the identity without the swizzle and swaps 0 and 2 with it |
| ImageReshape.SourceInRange | filament/backend/src/DataReshaper.h:69-78 | every channel the kernel reads, at `row * srcStride + column * 4 + s`, lies inside the source |
| ImageReshape.PixelIndex | filament/backend/src/DataReshaper.h:70-82 | pixel (row, column) channel `c` is at `row * dstStride + column * dstChannels + c`, inside the destination, and that index decodes back to (row, column, c) |
| ImageReshape.ImageAtPixel | filament/backend/src/DataReshaper.h:67-77 | that component is source channel `inds[c]` of the same pixel, read from row `row` at `row * srcStride`, when `c < min(4, dstChannels)`; destination channels `4 .. dstChannels-1` hold the default value |
| ImageReshape.ImageAtPadding | filament/backend/src/DataReshaper.h:78-82 | row padding past `width * dstChannels` components keeps its old value |
| ImageReshape.ImageAtBeyondRows | filament/backend/src/DataReshaper.h:68 | components at or past row `height` keep their old value |
| ImageReshape.ReshapeImage | filament/backend/src/DataReshaper.h:59-84 | the row, column and channel loops return exactly the closed-form image |
| ImageReshape.FinishImage | filament/backend/src/DataReshaper.h:68-83 | once `height` rows are written the buffer equals the closed form, because everything from row `height` on keeps its old value |
| ImageReshape.ReshapeRow | filament/backend/src/DataReshaper.h:69-82 | one row iteration finishes exactly that row: `width` pixels plus its untouched padding |
| ImageReshape.PaddingKeepsOldValues | filament/backend/src/DataReshaper.h:78-82 | the closed form leaves the padding of each row unchanged |
| ImageReshape.ReshapePixel | filament/backend/src/DataReshaper.h:72-79 | one column iteration finishes exactly one destination pixel |
| ImageReshapeProperties.ThreeChannelsDropSourceAlpha | filament/backend/src/DataReshaper.h:65-74 | with 3 destination channels each one reads a source channel below 3, so source channel 3 is dropped |
| ImageReshapeProperties.UnswizzledCopiesChannel | filament/backend/src/DataReshaper.h:67-74 | without the swizzle, channel `c` is copied from channel `c` of the same pixel |
| ImageReshapeProperties.ZeroHeightWritesNothing | filament/backend/src/DataReshaper.h:68 | with `height == 0` the destination is unchanged |
| ImageReshapeProperties.SameLayoutIsExactCopy | filament/backend/src/DataReshaper.h:64-80 | 4 channels, equal strides and no swizzle copy every pixel exactly |
| ImageReshapeProperties.SwizzleTwiceRestores | filament/backend/src/DataReshaper.h:67-74 | reshaping a 4-channel image into the same layout twice with the same swizzle flag gives back the source pixels |
| ImageReshapeProperties.ResultValuesComeFromInputs | filament/backend/src/DataReshaper.h:68-83 | every result component is an old destination component, a source component, or the default value; the default value only when the destination has more than 4 channels |
| ImageReshapeProperties.ComponentOrigin | filament/backend/src/DataReshaper.h:68-83 | one component of the result comes from the destination, the source, or (only with more than 4 channels) the default value |
| ImageReshapeProperties.PackedOrigin | filament/backend/src/DataReshaper.h:71-80 | a packed pixel component comes from the source, or is the default value when the destination has more than 4 channels |
| Dispatch.ReshapeImage | filament/backend/src/DataReshaper.h:86-123 | fails and returns the descriptor unchanged exactly when the format is not RGB/RGBA or the type is not UBYTE/FLOAT/INT/UINT; otherwise keeps format and type, runs the matching kernel over all rows with that type's default value, and keeps every component a valid pattern of the type |
| DispatchExamples.TruncationExample | filament/backend/src/DataReshaper.h:94-122 | an RGBA pixel (10, 20, 30, 255) reshaped into RGB UBYTE becomes (10, 20, 30) |
| DispatchExamples.SwizzleExample | filament/backend/src/DataReshaper.h:94-122 | a 2x1 RGBA UBYTE image with the swizzle has channels 0 and 2 of each pixel exchanged |
| DispatchExamples.SwizzledKernel | filament/backend/src/DataReshaper.h:67-80 | the kernel call of that example produces (30, 20, 10, 255, 60, 50, 40, 255) |
| DispatchExamples.SwizzledComponent | filament/backend/src/DataReshaper.h:72-74 | each channel of the two example pixels is the swizzled channel of the same source pixel |
| DispatchExamples.RejectionExample | filament/backend/src/DataReshaper.h:95-118 | a format other than RGB/RGBA fails and leaves the buffer as it was |

## Left out

- Rescaling between component types: the reshaper has none. The dispatcher demands equal source and destination types, so both kernels copy values unchanged.
- Byte-level reinterpretation: the source casts `uint8_t*` to `T*`. The model states buffers in components, and `Layout` divides byte strides by the component size. The source advances each row by the exact byte stride, so a stride that is not a whole number of components makes later rows start mid-component; the model excludes such strides (`ImageReshape.ReshapeImage` requires `Rem(srcBytesPerRow, size) == 0` and `Rem(dstBytesPerRow, size) == 0`, and `Dispatch.KernelCallOk` requires the same).
- Overlapping or aliased source and destination buffers: the model treats the source as a separate input value.
- Buffer bounds: the source checks none and overruns on a bad geometry. The kernels and the dispatcher require buffers that fit (`Reshape.Fits`, `ImageReshape.Fits`, `Dispatch.KernelCallOk`).
- Overlapping destination rows: `ImageReshape.Fits` requires a destination row stride of at least one packed row (`width * dstChannels` components) even when `height <= 1`. A call whose destination rows are closer than that, for example a single row with `dstBytesPerRow == 0`, is excluded although the source performs it; with overlapping rows a later row overwrites an earlier one, which the per-index closed form does not describe.
- Dispatch.ReshapeImage: requires non-negative `int` strides and height. The source's implicit `int` to `size_t` conversion would turn a negative value into a huge count.
- Machine integer widths: `size_t` counters cannot overflow for buffers that fit in memory. The `int` copy of `minChannelCount` in `reshape` holds a small template constant. Both are modelled as unbounded naturals.
- The `assert(minChannelCount <= 4)` and `assert(srcType == dst->type)` checks: the first holds by `Arith.Min`; the second becomes a precondition of `Dispatch.ReshapeImage`.
- `math::min` is defined in `libs/math/include/math/scalar.h`, which is not part of this model. It is modelled as the ordinary minimum `Arith.Min`.
- Floating-point semantics beyond decoding the bit patterns: the kernels only move components, so they never look at a value.
- The `uint16_t` default value, 0x3c00 (half-float 1.0): it is modelled and decoded, but the dispatcher never selects a 16-bit kernel.
- Row-stride and alignment computation for pixel buffer descriptors: it happens in the callers, not in this header.
- Pixel formats and data types other than RGB, RGBA, UBYTE, FLOAT, INT and UINT: they are collapsed into `OtherFormat` and `OtherType`, because the dispatcher treats them all alike.
