/** `DataReshaper::reshapeImage<T>`: the 2-D kernel. Every source pixel has four
    interleaved channels; the destination has `dstChannelCount` channels per pixel;
    channels 0 and 2 are optionally swapped when read; source and destination rows
    are `srcBytesPerRow` and `dstBytesPerRow` bytes apart. Buffers are sequences of
    components of an opaque type `T`, so byte strides are converted to component
    strides; the method takes the destination's contents before the call and returns
    them after it, and the source is an input value that is never written. */
module ImageReshape {
  import opened Arith
  import opened Progress

  /** The kernel always reads four channels per source pixel. */
  const SrcChannelCount: nat := 4

  /** The `inds` table: which source channel destination channel `c` reads. Without
      the swizzle it is the identity; with it, channels 0 and 2 trade places.
      Either way it is a permutation of the four channels that undoes itself. */
  function Inds(swizzle03: bool): (inds: seq<nat>)
    ensures |inds| == SrcChannelCount
    ensures forall c | 0 <= c < SrcChannelCount :: inds[c] < SrcChannelCount && inds[inds[c]] == c
    ensures !swizzle03 ==> forall c | 0 <= c < SrcChannelCount :: inds[c] == c
    ensures swizzle03 ==> inds[0] == 2 && inds[1] == 1 && inds[3] == 3
  {
    [if swizzle03 then 2 else 0, 1, if swizzle03 then 0 else 2, 3]
  }

  /** The geometry of one call, in components: row strides, destination channel
      count, number of rows and the swizzle flag. */
  datatype Geometry = Geometry(srcStride: nat, dstStride: nat, dstChannels: nat, height: nat, swizzle03: bool)
  {
    /** Pixels per row: as many whole four-channel pixels as a source row holds. */
    function Width(): nat
    {
      Quot(srcStride, SrcChannelCount)
    }

    /** Channels copied from the source. */
    function MinChannels(): nat
    {
      Min(SrcChannelCount, dstChannels)
    }

    /** Where channel `channel` of destination pixel (`row`, `column`) is stored. */
    function DstIndex(row: nat, column: nat, channel: nat): nat
    {
      Mul(row, dstStride) + Mul(column, dstChannels) + channel
    }

    /** Where channel `channel` of source pixel (`row`, `column`) is stored. */
    function SrcIndex(row: nat, column: nat, channel: nat): nat
    {
      Mul(row, srcStride) + Mul(column, SrcChannelCount) + channel
    }
  }

  /** The geometry of a call whose strides are given in bytes of `size`-byte components. */
  function Layout(size: nat, srcBytesPerRow: nat, dstBytesPerRow: nat, dstChannelCount: nat,
                  height: nat, swizzle03: bool): Geometry
    requires size > 0
  {
    Geometry(Quot(srcBytesPerRow, size), Quot(dstBytesPerRow, size), dstChannelCount, height, swizzle03)
  }

  /** What the kernel needs and does not check: a destination row stride at least as
      long as a packed destination row, and buffers long enough for every row. */
  predicate Fits<T>(g: Geometry, dst: seq<T>, src: seq<T>)
  {
    && Mul(g.Width(), g.dstChannels) <= g.dstStride
    && Extent(g.height, g.srcStride, Mul(g.Width(), SrcChannelCount)) <= |src|
    && Extent(g.height, g.dstStride, Mul(g.Width(), g.dstChannels)) <= |dst|
  }

  /** Closed form of destination component `i` after the call. Its row is
      `i / dstStride` and its offset in the row `i % dstStride`; inside one of the
      `height` rows and inside the packed part of the row it is channel `c` of pixel
      `x`, which is source channel `Inds[c]` of pixel `x` of the same source row when
      `c < min(4, dstChannels)` and the default value otherwise. Everything else
      (row padding, rows past `height`) keeps its old value. */
  function ImageAt<T>(g: Geometry, dst: seq<T>, src: seq<T>, defaultValue: T, i: nat): T
    requires Fits(g, dst, src) && i < |dst|
  {
    if g.dstStride == 0 then dst[i]
    else
      var row, offset := Quot(i, g.dstStride), Rem(i, g.dstStride);
      if row < g.height && offset < Mul(g.Width(), g.dstChannels) then PackedAt(g, dst, src, defaultValue, row, offset)
      else dst[i]
  }

  /** Component `offset` of the packed part of destination row `row`: channel
      `offset % dstChannels` of pixel `offset / dstChannels`. */
  function PackedAt<T>(g: Geometry, dst: seq<T>, src: seq<T>, defaultValue: T, row: nat, offset: nat): T
    requires Fits(g, dst, src) && row < g.height && offset < Mul(g.Width(), g.dstChannels)
  {
    QuotBelow(offset, g.Width(), g.dstChannels);
    var column, channel := Quot(offset, g.dstChannels), Rem(offset, g.dstChannels);
    if channel < g.MinChannels() then
      var s := Inds(g.swizzle03)[channel];
      SourceInRange(g, dst, src, row, column, s);
      src[g.SrcIndex(row, column, s)]
    else defaultValue
  }

  /** The destination as a whole after the call. */
  function ReshapedImage<T>(g: Geometry, dst: seq<T>, src: seq<T>, defaultValue: T): seq<T>
    requires Fits(g, dst, src)
  {
    seq(|dst|, i requires 0 <= i < |dst| => ImageAt(g, dst, src, defaultValue, i))
  }

  /** Every channel of every pixel the kernel reads lies inside the source. */
  lemma {:induction false} SourceInRange<T>(g: Geometry, dst: seq<T>, src: seq<T>, row: nat, column: nat, s: nat)
    requires Fits(g, dst, src)
    requires row < g.height && column < g.Width() && s < SrcChannelCount
    ensures g.SrcIndex(row, column, s) < |src|
  {
    GroupBound(column, g.Width(), SrcChannelCount, s);
    MulMono(row, g.height - 1, g.srcStride);
  }

  /** Channel `channel` of pixel (`row`, `column`) lies inside the destination, in
      the packed part of its row, and its index decodes back to row, pixel and
      channel. */
  lemma {:induction false} PixelIndex<T>(g: Geometry, dst: seq<T>, src: seq<T>, row: nat, column: nat, channel: nat)
    requires Fits(g, dst, src)
    requires row < g.height && column < g.Width() && channel < g.dstChannels
    ensures g.dstStride > 0 && g.dstChannels > 0
    ensures Mul(column, g.dstChannels) + channel < Mul(g.Width(), g.dstChannels) <= g.dstStride
    ensures g.DstIndex(row, column, channel) < |dst|
    ensures Quot(g.DstIndex(row, column, channel), g.dstStride) == row
    ensures Rem(g.DstIndex(row, column, channel), g.dstStride) == Mul(column, g.dstChannels) + channel
    ensures Quot(Mul(column, g.dstChannels) + channel, g.dstChannels) == column
    ensures Rem(Mul(column, g.dstChannels) + channel, g.dstChannels) == channel
  {
    var offset := Mul(column, g.dstChannels) + channel;
    GroupBound(column, g.Width(), g.dstChannels, channel);
    QuotRemOfOffset(column, g.dstChannels, channel);
    QuotRemOfOffset(row, g.dstStride, offset);
    MulMono(row, g.height - 1, g.dstStride);
  }

  /** What channel `channel` of pixel (`row`, `column`) holds after the call. */
  lemma {:induction false} ImageAtPixel<T>(g: Geometry, dst: seq<T>, src: seq<T>, defaultValue: T,
                                           row: nat, column: nat, channel: nat)
    requires Fits(g, dst, src)
    requires row < g.height && column < g.Width() && channel < g.dstChannels
    ensures g.DstIndex(row, column, channel) < |dst|
    ensures channel < g.MinChannels() ==> g.SrcIndex(row, column, Inds(g.swizzle03)[channel]) < |src|
    ensures channel < g.MinChannels() ==>
              ImageAt(g, dst, src, defaultValue, g.DstIndex(row, column, channel))
              == src[g.SrcIndex(row, column, Inds(g.swizzle03)[channel])]
    ensures g.MinChannels() <= channel ==>
              ImageAt(g, dst, src, defaultValue, g.DstIndex(row, column, channel)) == defaultValue
  {
    PixelIndex(g, dst, src, row, column, channel);
    if channel < g.MinChannels() {
      SourceInRange(g, dst, src, row, column, Inds(g.swizzle03)[channel]);
    }
  }

  /** Stride padding: components of a row past its `width * dstChannels` packed
      components keep their old value. */
  lemma {:induction false} ImageAtPadding<T>(g: Geometry, dst: seq<T>, src: seq<T>, defaultValue: T,
                                             row: nat, offset: nat)
    requires Fits(g, dst, src)
    requires Mul(g.Width(), g.dstChannels) <= offset < g.dstStride
    requires Mul(row, g.dstStride) + offset < |dst|
    ensures ImageAt(g, dst, src, defaultValue, Mul(row, g.dstStride) + offset) == dst[Mul(row, g.dstStride) + offset]
  {
    QuotRemOfOffset(row, g.dstStride, offset);
  }

  /** Rows at or past `height` keep their old value. */
  lemma {:induction false} ImageAtBeyondRows<T>(g: Geometry, dst: seq<T>, src: seq<T>, defaultValue: T, i: nat)
    requires Fits(g, dst, src)
    requires Mul(g.height, g.dstStride) <= i < |dst|
    ensures ImageAt(g, dst, src, defaultValue, i) == dst[i]
  {
    if g.dstStride > 0 {
      QuotAtLeast(i, g.height, g.dstStride);
    }
  }

  /** The kernel: `height` rows, `width = (srcBytesPerRow / size) / 4` pixels per row. */
  method ReshapeImage<T>(dst: seq<T>, src: seq<T>, size: nat, srcBytesPerRow: nat, dstBytesPerRow: nat,
                         dstChannelCount: nat, height: nat, swizzle03: bool, defaultValue: T)
    returns (out: seq<T>)
    requires size > 0 && Rem(srcBytesPerRow, size) == 0 && Rem(dstBytesPerRow, size) == 0
    requires Fits(Layout(size, srcBytesPerRow, dstBytesPerRow, dstChannelCount, height, swizzle03), dst, src)
    ensures out == ReshapedImage(Layout(size, srcBytesPerRow, dstBytesPerRow, dstChannelCount, height, swizzle03),
                                 dst, src, defaultValue)
  {
    QuotRemAreDivision(srcBytesPerRow, size);
    QuotRemAreDivision(dstBytesPerRow, size);
    var srcStride, dstStride := srcBytesPerRow / size, dstBytesPerRow / size;
    var g := Geometry(srcStride, dstStride, dstChannelCount, height, swizzle03);
    ghost var target := ReshapedImage(g, dst, src, defaultValue);
    out := dst;
    var row := 0;
    var srcRow, dstRow := 0, 0;
    while row < height
      invariant row <= height
      invariant srcRow == Mul(row, srcStride) && dstRow == Mul(row, dstStride)
      invariant WrittenUpTo(out, target, dst, dstRow)
    {
      out := ReshapeRow(g, dst, src, defaultValue, target, out, row, srcRow, dstRow);
      srcRow := srcRow + srcStride;
      dstRow := dstRow + dstStride;
      row := row + 1;
    }
    FinishImage(g, dst, src, defaultValue, target, out);
  }

  /** Once every row is written, the rest of the buffer already holds its final value. */
  lemma {:induction false} FinishImage<T>(g: Geometry, dst: seq<T>, src: seq<T>, defaultValue: T,
                                          target: seq<T>, out: seq<T>)
    requires Fits(g, dst, src) && target == ReshapedImage(g, dst, src, defaultValue)
    requires WrittenUpTo(out, target, dst, Mul(g.height, g.dstStride))
    ensures out == target
  {
    var k := Mul(g.height, g.dstStride);
    if k < |out| {
      forall i | k <= i < |target|
        ensures target[i] == dst[i]
      {
        ImageAtBeyondRows(g, dst, src, defaultValue, i);
      }
      SkipUnchanged(out, target, dst, k, |out|);
      Complete(out, target, dst, |out|);
    } else {
      Complete(out, target, dst, k);
    }
  }

  /** One iteration of the row loop: `width` pixels, then the row's padding is left alone. */
  method ReshapeRow<T>(g: Geometry, dst: seq<T>, src: seq<T>, defaultValue: T, ghost target: seq<T>,
                       out0: seq<T>, row: nat, srcRow: nat, dstRow: nat)
    returns (out: seq<T>)
    requires Fits(g, dst, src) && target == ReshapedImage(g, dst, src, defaultValue) && row < g.height
    requires srcRow == Mul(row, g.srcStride) && dstRow == Mul(row, g.dstStride)
    requires WrittenUpTo(out0, target, dst, dstRow)
    ensures WrittenUpTo(out, target, dst, dstRow + g.dstStride)
  {
    out := out0;
    var width := g.Width();
    var column := 0;
    var inBase, outBase := srcRow, dstRow;
    while column < width
      invariant column <= width
      invariant inBase == srcRow + Mul(column, SrcChannelCount) && outBase == dstRow + Mul(column, g.dstChannels)
      invariant WrittenUpTo(out, target, dst, outBase)
    {
      out := ReshapePixel(g, dst, src, defaultValue, target, out, row, column, inBase, outBase);
      inBase := inBase + SrcChannelCount;
      outBase := outBase + g.dstChannels;
      column := column + 1;
    }
    PaddingKeepsOldValues(g, dst, src, defaultValue, target, row);
    SkipUnchanged(out, target, dst, outBase, dstRow + g.dstStride);
  }

  /** The padding of each row keeps its old value. */
  lemma {:induction false} PaddingKeepsOldValues<T>(g: Geometry, dst: seq<T>, src: seq<T>, defaultValue: T,
                                                    target: seq<T>, row: nat)
    requires Fits(g, dst, src) && target == ReshapedImage(g, dst, src, defaultValue)
    ensures forall i | Mul(row, g.dstStride) + Mul(g.Width(), g.dstChannels) <= i < Mul(row, g.dstStride) + g.dstStride
                       && i < |target| :: target[i] == dst[i]
  {
    forall i | Mul(row, g.dstStride) + Mul(g.Width(), g.dstChannels) <= i < Mul(row, g.dstStride) + g.dstStride
               && i < |target|
      ensures target[i] == dst[i]
    {
      ImageAtPadding(g, dst, src, defaultValue, row, i - Mul(row, g.dstStride));
    }
  }

  /** One iteration of the column loop: the copy loop over the first
      `min(4, dstChannelCount)` channels, then the fill loop over channels
      `4 .. dstChannelCount - 1`. */
  method ReshapePixel<T>(g: Geometry, dst: seq<T>, src: seq<T>, defaultValue: T, ghost target: seq<T>,
                         out0: seq<T>, row: nat, column: nat, inBase: nat, outBase: nat)
    returns (out: seq<T>)
    requires Fits(g, dst, src) && target == ReshapedImage(g, dst, src, defaultValue)
    requires row < g.height && column < g.Width()
    requires inBase == g.SrcIndex(row, column, 0) && outBase == g.DstIndex(row, column, 0)
    requires WrittenUpTo(out0, target, dst, outBase)
    ensures WrittenUpTo(out, target, dst, outBase + g.dstChannels)
  {
    out := out0;
    var inds := Inds(g.swizzle03);
    var minChannelCount := g.MinChannels();
    var channel := 0;
    while channel < minChannelCount
      invariant channel <= minChannelCount
      invariant WrittenUpTo(out, target, dst, outBase + channel)
    {
      ImageAtPixel(g, dst, src, defaultValue, row, column, channel);
      WriteNext(out, target, dst, outBase + channel);
      out := out[outBase + channel := src[inBase + inds[channel]]];
      channel := channel + 1;
    }
    channel := SrcChannelCount;
    while channel < g.dstChannels
      invariant channel >= SrcChannelCount
      invariant WrittenUpTo(out, target, dst, outBase + Min(channel, g.dstChannels))
    {
      ImageAtPixel(g, dst, src, defaultValue, row, column, channel);
      WriteNext(out, target, dst, outBase + channel);
      out := out[outBase + channel := defaultValue];
      channel := channel + 1;
    }
  }
}

/** Properties of the 2-D kernel's result, stated on `ReshapedImage`. */
module ImageReshapeProperties {
  import opened Arith
  import opened ImageReshape

  /** Truncating to three channels drops source channel 3: each of the three
      destination channels reads one of source channels 0, 1, 2, and no default
      value is written. */
  lemma {:induction false} ThreeChannelsDropSourceAlpha<T>(g: Geometry, dst: seq<T>, src: seq<T>, defaultValue: T,
                                                           row: nat, column: nat, channel: nat)
    requires Fits(g, dst, src) && g.dstChannels == 3
    requires row < g.height && column < g.Width() && channel < 3
    ensures Inds(g.swizzle03)[channel] < 3
    ensures g.DstIndex(row, column, channel) < |dst| && g.SrcIndex(row, column, Inds(g.swizzle03)[channel]) < |src|
    ensures ReshapedImage(g, dst, src, defaultValue)[g.DstIndex(row, column, channel)]
            == src[g.SrcIndex(row, column, Inds(g.swizzle03)[channel])]
  {
    ImageAtPixel(g, dst, src, defaultValue, row, column, channel);
  }

  /** Without the swizzle, the first `min(4, dstChannels)` channels of every pixel
      are copied unchanged. */
  lemma {:induction false} UnswizzledCopiesChannel<T>(g: Geometry, dst: seq<T>, src: seq<T>, defaultValue: T,
                                                      row: nat, column: nat, channel: nat)
    requires Fits(g, dst, src) && !g.swizzle03
    requires row < g.height && column < g.Width() && channel < g.MinChannels()
    ensures g.DstIndex(row, column, channel) < |dst| && g.SrcIndex(row, column, channel) < |src|
    ensures ReshapedImage(g, dst, src, defaultValue)[g.DstIndex(row, column, channel)]
            == src[g.SrcIndex(row, column, channel)]
  {
    ImageAtPixel(g, dst, src, defaultValue, row, column, channel);
  }

  /** A call with `height == 0` writes nothing. */
  lemma {:induction false} ZeroHeightWritesNothing<T>(g: Geometry, dst: seq<T>, src: seq<T>, defaultValue: T)
    requires Fits(g, dst, src) && g.height == 0
    ensures ReshapedImage(g, dst, src, defaultValue) == dst
  {
    forall i | 0 <= i < |dst|
      ensures ReshapedImage(g, dst, src, defaultValue)[i] == dst[i]
    {
      ImageAtBeyondRows(g, dst, src, defaultValue, i);
    }
  }

  /** Same layout on both sides (four channels, equal strides) and no swizzle:
      every pixel of every row is copied exactly. */
  lemma {:induction false} SameLayoutIsExactCopy<T>(g: Geometry, dst: seq<T>, src: seq<T>, defaultValue: T,
                                                    row: nat, column: nat, channel: nat)
    requires Fits(g, dst, src) && !g.swizzle03
    requires g.dstChannels == SrcChannelCount && g.dstStride == g.srcStride
    requires row < g.height && column < g.Width() && channel < SrcChannelCount
    ensures g.DstIndex(row, column, channel) == g.SrcIndex(row, column, channel)
    ensures g.DstIndex(row, column, channel) < |dst| && g.DstIndex(row, column, channel) < |src|
    ensures ReshapedImage(g, dst, src, defaultValue)[g.DstIndex(row, column, channel)]
            == src[g.DstIndex(row, column, channel)]
  {
    UnswizzledCopiesChannel(g, dst, src, defaultValue, row, column, channel);
  }

  /** Reshaping a four-channel image into the same layout twice with the same
      swizzle flag restores every pixel: the channel mapping undoes itself. */
  lemma {:induction false} SwizzleTwiceRestores<T>(g: Geometry, dst1: seq<T>, dst2: seq<T>, src: seq<T>,
                                                   defaultValue: T, row: nat, column: nat, channel: nat)
    requires g.dstChannels == SrcChannelCount && g.dstStride == g.srcStride
    requires Fits(g, dst1, src) && Fits(g, dst2, dst1)
    requires row < g.height && column < g.Width() && channel < SrcChannelCount
    ensures Fits(g, dst2, ReshapedImage(g, dst1, src, defaultValue))
    ensures g.DstIndex(row, column, channel) < |dst2| && g.DstIndex(row, column, channel) < |src|
    ensures ReshapedImage(g, dst2, ReshapedImage(g, dst1, src, defaultValue), defaultValue)[g.DstIndex(row, column, channel)]
            == src[g.DstIndex(row, column, channel)]
  {
    var mid := ReshapedImage(g, dst1, src, defaultValue);
    var inds := Inds(g.swizzle03);
    ImageAtPixel(g, dst2, mid, defaultValue, row, column, channel);
    ImageAtPixel(g, dst1, src, defaultValue, row, column, inds[channel]);
    assert inds[inds[channel]] == channel;
  }

  /** Every component of the result is an old destination component, a source
      component, or the default value, and the default value only when the
      destination has more channels than the source. */
  lemma {:induction false} ResultValuesComeFromInputs<T>(g: Geometry, dst: seq<T>, src: seq<T>, defaultValue: T)
    requires Fits(g, dst, src)
    ensures forall v | v in ReshapedImage(g, dst, src, defaultValue) ::
              v in dst || v in src || (v == defaultValue && g.dstChannels > SrcChannelCount)
  {
    var out := ReshapedImage(g, dst, src, defaultValue);
    forall i | 0 <= i < |out|
      ensures out[i] in dst || out[i] in src || (out[i] == defaultValue && g.dstChannels > SrcChannelCount)
    {
      ComponentOrigin(g, dst, src, defaultValue, i);
    }
  }

  /** One component of the result comes from the old destination, the source, or
      (with more than four destination channels) is the default value. */
  lemma {:induction false} ComponentOrigin<T>(g: Geometry, dst: seq<T>, src: seq<T>, defaultValue: T, i: nat)
    requires Fits(g, dst, src) && i < |dst|
    ensures var v := ImageAt(g, dst, src, defaultValue, i);
            v == dst[i] || v in src || (v == defaultValue && g.dstChannels > SrcChannelCount)
  {
    if g.dstStride != 0 {
      var row, offset := Quot(i, g.dstStride), Rem(i, g.dstStride);
      if row < g.height && offset < Mul(g.Width(), g.dstChannels) {
        PackedOrigin(g, dst, src, defaultValue, row, offset);
      }
    }
  }

  /** A packed component comes from the source or is the default value. */
  lemma {:induction false} PackedOrigin<T>(g: Geometry, dst: seq<T>, src: seq<T>, defaultValue: T,
                                           row: nat, offset: nat)
    requires Fits(g, dst, src) && row < g.height && offset < Mul(g.Width(), g.dstChannels)
    ensures var v := PackedAt(g, dst, src, defaultValue, row, offset);
            v in src || (v == defaultValue && g.dstChannels > SrcChannelCount)
  {
    QuotBelow(offset, g.Width(), g.dstChannels);
    var column, channel := Quot(offset, g.dstChannels), Rem(offset, g.dstChannels);
    if channel < g.MinChannels() {
      var s := Inds(g.swizzle03)[channel];
      SourceInRange(g, dst, src, row, column, s);
      assert PackedAt(g, dst, src, defaultValue, row, offset) == src[g.SrcIndex(row, column, s)];
    }
  }
}
