/** Concrete cases of the dispatcher on tiny 8-bit images. */
module DispatchExamples {
  import opened Arith
  import opened Dispatch
  import opened ImageReshape

  /** One RGBA pixel (10, 20, 30, 255) reshaped into an RGB destination drops the
      alpha channel. */
  lemma TruncationExample()
    ensures var dst := PixelBufferDescriptor(RGB, UBYTE, [0, 0, 0]);
            && Supported(dst) && KernelCallOk(dst, [10, 20, 30, 255], 4, 3, 1, false)
            && DispatchedBuffer(dst, [10, 20, 30, 255], 4, 3, 1, false) == [10, 20, 30]
  {
    var dst := PixelBufferDescriptor(RGB, UBYTE, [0, 0, 0]);
    var r := DispatchedBuffer(dst, [10, 20, 30, 255], 4, 3, 1, false);
    assert r[0] == 10 && r[1] == 20 && r[2] == 30;
  }

  /** The 2x1 RGBA image of `SwizzleExample`, one row of two pixels, and its swizzled form. */
  const SwizzleSource: seq<nat> := [10, 20, 30, 255, 40, 50, 60, 255]
  const SwizzleBlank: seq<nat> := [0, 0, 0, 0, 0, 0, 0, 0]
  const SwizzleResult: seq<nat> := [30, 20, 10, 255, 60, 50, 40, 255]
  const SwizzleGeometry: Geometry := Geometry(8, 8, 4, 1, true)

  /** A 2x1 RGBA image reshaped with the swizzle exchanges channels 0 and 2 of
      every pixel and keeps channels 1 and 3. */
  lemma SwizzleExample()
    ensures var dst := PixelBufferDescriptor(RGBA, UBYTE, SwizzleBlank);
            && Supported(dst) && KernelCallOk(dst, SwizzleSource, 8, 8, 1, true)
            && DispatchedBuffer(dst, SwizzleSource, 8, 8, 1, true) == SwizzleResult
  {
    var g := Layout(1, 8, 8, 4, 1, true);
    assert g == SwizzleGeometry;
    SwizzledKernel();
  }

  /** The kernel call behind `SwizzleExample`. */
  lemma SwizzledKernel()
    ensures Fits(SwizzleGeometry, SwizzleBlank, SwizzleSource)
    ensures ReshapedImage(SwizzleGeometry, SwizzleBlank, SwizzleSource, 0xff) == SwizzleResult
  {
    SwizzleFits();
    var r := ReshapedImage(SwizzleGeometry, SwizzleBlank, SwizzleSource, 0xff);
    forall k | 0 <= k < 8
      ensures r[k] == SwizzleResult[k]
    {
      if k < 4 {
        SwizzledComponent(0, k);
      } else {
        SwizzledComponent(1, k - 4);
      }
    }
    assert r == SwizzleResult;
  }

  /** The example geometry has two pixels per row and fits both buffers. */
  lemma SwizzleFits()
    ensures SwizzleGeometry.Width() == 2
    ensures Fits(SwizzleGeometry, SwizzleBlank, SwizzleSource)
  {
    QuotRemOfOffset(2, 4, 0);
  }

  /** Channel `channel` of pixel `column` of the example. */
  lemma SwizzledComponent(column: nat, channel: nat)
    requires column < 2 && channel < 4
    ensures Fits(SwizzleGeometry, SwizzleBlank, SwizzleSource)
    ensures ReshapedImage(SwizzleGeometry, SwizzleBlank, SwizzleSource, 0xff)[4 * column + channel]
            == SwizzleResult[4 * column + channel]
  {
    SwizzleFits();
    MulIsProduct(column, 4);
    ImageAtPixel(SwizzleGeometry, SwizzleBlank, SwizzleSource, 0xff, 0, column, channel);
    var s := Inds(true)[channel];
    assert ReshapedImage(SwizzleGeometry, SwizzleBlank, SwizzleSource, 0xff)[4 * column + channel]
           == SwizzleSource[4 * column + s];
    SwizzleTable(column, channel);
  }

  /** Each channel of the expected result is the swizzled channel of the same pixel. */
  lemma SwizzleTable(column: nat, channel: nat)
    requires column < 2 && channel < 4
    ensures 4 * column + Inds(true)[channel] < |SwizzleSource| && 4 * column + channel < |SwizzleResult|
    ensures SwizzleSource[4 * column + Inds(true)[channel]] == SwizzleResult[4 * column + channel]
  {
  }

  /** A format the dispatcher does not know is rejected and nothing is written. */
  method RejectionExample() returns (ok: bool, result: PixelBufferDescriptor)
    ensures !ok && result.buffer == [7, 7, 7]
  {
    var dst := PixelBufferDescriptor(OtherFormat, UBYTE, [7, 7, 7]);
    ok, result := Dispatch.ReshapeImage(dst, UBYTE, [1, 2, 3, 4], 4, 3, 1, false);
  }
}
