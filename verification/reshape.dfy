/** `DataReshaper::reshape<T, srcChannelCount, dstChannelCount>`: pads or truncates
    interleaved data from `srcChannelCount` to `dstChannelCount` channels per pixel.
    Buffers are sequences of components of an opaque type `T`; the method takes the
    destination's contents before the call and returns them after it. The source is
    an input value and is never written. `defaultValue` stands for
    `getDefaultAlpha<T>()` (see `Components.DefaultAlpha`). */
module Reshape {
  import opened Arith
  import opened Progress
  import opened Components

  /** Number of whole source pixels in `numSrcBytes` bytes of `size`-byte components. */
  function WordCount(numSrcBytes: nat, size: nat, srcChannels: nat): nat
    requires size > 0 && srcChannels > 0
  {
    Quot(Quot(numSrcBytes, size), srcChannels)
  }

  /** The processed pixels fit in both buffers. */
  predicate Fits<T>(dst: seq<T>, src: seq<T>, words: nat, srcChannels: nat, dstChannels: nat)
  {
    Mul(words, srcChannels) <= |src| && Mul(words, dstChannels) <= |dst|
  }

  /** Closed form of destination component `i` after the call: for one of the first
      `words` pixels, channel `c` is copied from the same channel of the same source
      pixel when `c` is below both channel counts, and is `defaultValue` otherwise;
      components past the processed pixels keep their old value. */
  function ReshapeAt<T>(dst: seq<T>, src: seq<T>, words: nat, srcChannels: nat, dstChannels: nat,
                        defaultValue: T, i: nat): T
    requires Fits(dst, src, words, srcChannels, dstChannels) && i < |dst|
  {
    if i < Mul(words, dstChannels) then
      QuotBelow(i, words, dstChannels);
      var word, channel := Quot(i, dstChannels), Rem(i, dstChannels);
      if channel < Min(srcChannels, dstChannels) then
        GroupBound(word, words, srcChannels, channel);
        src[Mul(word, srcChannels) + channel]
      else defaultValue
    else dst[i]
  }

  /** The destination as a whole after the call. */
  function Reshaped<T>(dst: seq<T>, src: seq<T>, words: nat, srcChannels: nat, dstChannels: nat,
                       defaultValue: T): seq<T>
    requires Fits(dst, src, words, srcChannels, dstChannels)
  {
    seq(|dst|, i requires 0 <= i < |dst| => ReshapeAt(dst, src, words, srcChannels, dstChannels, defaultValue, i))
  }

  /** Component (`word`, `channel`) of the destination is at `Mul(word, dstChannels) + channel`. */
  lemma {:induction false} ReshapeAtPixel<T>(dst: seq<T>, src: seq<T>, words: nat, srcChannels: nat,
                                             dstChannels: nat, defaultValue: T, word: nat, channel: nat)
    requires Fits(dst, src, words, srcChannels, dstChannels)
    requires word < words && channel < dstChannels
    ensures Mul(word, dstChannels) + channel < |dst|
    ensures channel < srcChannels ==> Mul(word, srcChannels) + channel < |src|
    ensures ReshapeAt(dst, src, words, srcChannels, dstChannels, defaultValue, Mul(word, dstChannels) + channel)
            == if channel < srcChannels then src[Mul(word, srcChannels) + channel] else defaultValue
  {
    GroupBound(word, words, dstChannels, channel);
    QuotRemOfOffset(word, dstChannels, channel);
    if channel < srcChannels {
      GroupBound(word, words, srcChannels, channel);
    }
  }

  /** The kernel itself: one pass over the `(numSrcBytes / size) / srcChannelCount`
      source pixels, copying the first `min(srcChannelCount, dstChannelCount)`
      channels and filling channels `srcChannelCount .. dstChannelCount - 1` with
      the default value. */
  method Reshape<T>(dst: seq<T>, src: seq<T>, numSrcBytes: nat, size: nat,
                    srcChannelCount: nat, dstChannelCount: nat, defaultValue: T)
    returns (out: seq<T>)
    requires size > 0 && srcChannelCount > 0
    requires numSrcBytes <= Mul(|src|, size)
    requires Mul(WordCount(numSrcBytes, size, srcChannelCount), dstChannelCount) <= |dst|
    ensures Fits(dst, src, WordCount(numSrcBytes, size, srcChannelCount), srcChannelCount, dstChannelCount)
    ensures out == Reshaped(dst, src, WordCount(numSrcBytes, size, srcChannelCount),
                            srcChannelCount, dstChannelCount, defaultValue)
  {
    var srcWordCount := (numSrcBytes / size) / srcChannelCount;
    QuotRemAreDivision(numSrcBytes, size);
    QuotRemAreDivision(numSrcBytes / size, srcChannelCount);
    WordsFit(numSrcBytes, size, srcChannelCount, |src|);
    ghost var target := Reshaped(dst, src, srcWordCount, srcChannelCount, dstChannelCount, defaultValue);
    out := dst;
    var word := 0;
    var inBase, outBase := 0, 0;
    while word < srcWordCount
      invariant word <= srcWordCount
      invariant inBase == Mul(word, srcChannelCount) && outBase == Mul(word, dstChannelCount)
      invariant WrittenUpTo(out, target, dst, outBase)
    {
      out := ReshapePixel(dst, src, srcWordCount, srcChannelCount, dstChannelCount, defaultValue, target,
                          out, word, inBase, outBase);
      inBase := inBase + srcChannelCount;
      outBase := outBase + dstChannelCount;
      word := word + 1;
    }
    FinishPass(dst, src, srcWordCount, srcChannelCount, dstChannelCount, defaultValue, target, out);
  }

  /** The pixels counted from the source's byte length lie inside the source. */
  lemma {:induction false} WordsFit(numSrcBytes: nat, size: nat, srcChannels: nat, srcLength: nat)
    requires size > 0 && srcChannels > 0 && numSrcBytes <= Mul(srcLength, size)
    ensures Mul(WordCount(numSrcBytes, size, srcChannels), srcChannels) <= srcLength
  {
    QuotAtMost(numSrcBytes, size, srcLength);
    QuotRem(Quot(numSrcBytes, size), srcChannels);
  }

  /** Once every processed pixel is written, the rest of the buffer already holds
      its final value. */
  lemma {:induction false} FinishPass<T>(dst: seq<T>, src: seq<T>, words: nat, srcChannels: nat,
                                         dstChannels: nat, defaultValue: T, target: seq<T>, out: seq<T>)
    requires Fits(dst, src, words, srcChannels, dstChannels)
    requires target == Reshaped(dst, src, words, srcChannels, dstChannels, defaultValue)
    requires WrittenUpTo(out, target, dst, Mul(words, dstChannels))
    ensures out == target
  {
    SkipUnchanged(out, target, dst, Mul(words, dstChannels), |out|);
    Complete(out, target, dst, |out|);
  }

  /** One iteration of the pixel loop: the copy loop over the first
      `min(srcChannelCount, dstChannelCount)` channels, then the fill loop over
      channels `srcChannelCount .. dstChannelCount - 1`. */
  method ReshapePixel<T>(dst: seq<T>, src: seq<T>, words: nat, srcChannelCount: nat, dstChannelCount: nat,
                         defaultValue: T, ghost target: seq<T>, out0: seq<T>, word: nat, inBase: nat, outBase: nat)
    returns (out: seq<T>)
    requires Fits(dst, src, words, srcChannelCount, dstChannelCount) && word < words
    requires target == Reshaped(dst, src, words, srcChannelCount, dstChannelCount, defaultValue)
    requires inBase == Mul(word, srcChannelCount) && outBase == Mul(word, dstChannelCount)
    requires WrittenUpTo(out0, target, dst, outBase)
    ensures WrittenUpTo(out, target, dst, outBase + dstChannelCount)
  {
    out := out0;
    var minChannelCount := Min(srcChannelCount, dstChannelCount);
    var channel := 0;
    while channel < minChannelCount
      invariant channel <= minChannelCount
      invariant WrittenUpTo(out, target, dst, outBase + channel)
    {
      ReshapeAtPixel(dst, src, words, srcChannelCount, dstChannelCount, defaultValue, word, channel);
      WriteNext(out, target, dst, outBase + channel);
      out := out[outBase + channel := src[inBase + channel]];
      channel := channel + 1;
    }
    channel := srcChannelCount;
    while channel < dstChannelCount
      invariant channel >= srcChannelCount
      invariant WrittenUpTo(out, target, dst, outBase + Min(channel, dstChannelCount))
    {
      ReshapeAtPixel(dst, src, words, srcChannelCount, dstChannelCount, defaultValue, word, channel);
      WriteNext(out, target, dst, outBase + channel);
      out := out[outBase + channel := defaultValue];
      channel := channel + 1;
    }
  }

  /** Channels below both counts are copied verbatim from the same pixel. */
  lemma {:induction false} ReshapeCopiesChannel<T>(dst: seq<T>, src: seq<T>, words: nat, srcChannels: nat,
                                                   dstChannels: nat, defaultValue: T, word: nat, channel: nat)
    requires Fits(dst, src, words, srcChannels, dstChannels)
    requires word < words && channel < Min(srcChannels, dstChannels)
    ensures Mul(word, dstChannels) + channel < |dst| && Mul(word, srcChannels) + channel < |src|
    ensures Reshaped(dst, src, words, srcChannels, dstChannels, defaultValue)[Mul(word, dstChannels) + channel]
            == src[Mul(word, srcChannels) + channel]
  {
    ReshapeAtPixel(dst, src, words, srcChannels, dstChannels, defaultValue, word, channel);
  }

  /** Channels the source does not have are filled with the default value. */
  lemma {:induction false} ReshapePadsChannel<T>(dst: seq<T>, src: seq<T>, words: nat, srcChannels: nat,
                                                 dstChannels: nat, defaultValue: T, word: nat, channel: nat)
    requires Fits(dst, src, words, srcChannels, dstChannels)
    requires word < words && srcChannels <= channel < dstChannels
    ensures Mul(word, dstChannels) + channel < |dst|
    ensures Reshaped(dst, src, words, srcChannels, dstChannels, defaultValue)[Mul(word, dstChannels) + channel]
            == defaultValue
  {
    ReshapeAtPixel(dst, src, words, srcChannels, dstChannels, defaultValue, word, channel);
  }

  /** Narrowing (or keeping) the channel count writes no default value: every
      written component is the same channel of the same source pixel, and the
      trailing source channels are simply not read. */
  lemma {:induction false} ReshapeNarrowingNeverFills<T>(dst: seq<T>, src: seq<T>, words: nat, srcChannels: nat,
                                                         dstChannels: nat, defaultValue: T, i: nat)
    requires Fits(dst, src, words, srcChannels, dstChannels)
    requires dstChannels <= srcChannels && i < Mul(words, dstChannels)
    ensures i < |dst| && dstChannels > 0
    ensures Mul(Quot(i, dstChannels), srcChannels) + Rem(i, dstChannels) < |src|
    ensures Reshaped(dst, src, words, srcChannels, dstChannels, defaultValue)[i]
            == src[Mul(Quot(i, dstChannels), srcChannels) + Rem(i, dstChannels)]
  {
    QuotBelow(i, words, dstChannels);
    GroupBound(Quot(i, dstChannels), words, srcChannels, Rem(i, dstChannels));
  }

  /** Components at or past `words * dstChannels` are not written. */
  lemma ReshapeFrame<T>(dst: seq<T>, src: seq<T>, words: nat, srcChannels: nat,
                                           dstChannels: nat, defaultValue: T, i: nat)
    requires Fits(dst, src, words, srcChannels, dstChannels)
    requires Mul(words, dstChannels) <= i < |dst|
    ensures Reshaped(dst, src, words, srcChannels, dstChannels, defaultValue)[i] == dst[i]
  {
  }

  /** Reshaping to the same channel count is an exact copy of the processed pixels. */
  lemma {:induction false} ReshapeSameCountCopies<T>(dst: seq<T>, src: seq<T>, words: nat, channels: nat,
                                                     defaultValue: T, i: nat)
    requires Fits(dst, src, words, channels, channels)
    requires i < Mul(words, channels)
    ensures i < |dst| && i < |src|
    ensures Reshaped(dst, src, words, channels, channels, defaultValue)[i] == src[i]
  {
    QuotBelow(i, words, channels);
    QuotRem(i, channels);
    ReshapeAtPixel(dst, src, words, channels, channels, defaultValue, Quot(i, channels), Rem(i, channels));
  }

  /** Padding N channels to M >= N and truncating back to N recovers the source:
      the second pass processes the same number of pixels (its byte count is the
      `words * M` components the first pass wrote) and reads back exactly the
      channels the first one copied. */
  lemma {:induction false} PadThenTruncateRestores<T>(dst1: seq<T>, dst2: seq<T>, src: seq<T>, size: nat,
                                                      words: nat, n: nat, m: nat, defaultValue: T, i: nat)
    requires size > 0 && 0 < n <= m
    requires Fits(dst1, src, words, n, m) && Mul(words, n) <= |dst2|
    requires i < Mul(words, n)
    ensures WordCount(Mul(Mul(words, m), size), size, m) == words
    ensures Fits(dst2, Reshaped(dst1, src, words, n, m, defaultValue), words, m, n)
    ensures i < |dst2| && i < |src|
    ensures Reshaped(dst2, Reshaped(dst1, src, words, n, m, defaultValue), words, m, n, defaultValue)[i] == src[i]
  {
    QuotRemOfOffset(Mul(words, m), size, 0);
    QuotRemOfOffset(words, m, 0);
    var mid := Reshaped(dst1, src, words, n, m, defaultValue);
    QuotBelow(i, words, n);
    QuotRem(i, n);
    var word, channel := Quot(i, n), Rem(i, n);
    ReshapeCopiesChannel(dst2, mid, words, m, n, defaultValue, word, channel);
    ReshapeCopiesChannel(dst1, src, words, n, m, defaultValue, word, channel);
  }

  /** `reshape<T, n, m>` for a concrete component type: components are bit
      patterns of `t`, the component size is `sizeof` of `t`, and the fill value is
      `getDefaultAlpha` of `t`. Every padded channel of a processed pixel then holds
      that default pattern, and a result built from patterns of `t` holds only
      patterns of `t`. */
  method ReshapeComponents(t: ComponentType, dst: seq<nat>, src: seq<nat>, numSrcBytes: nat, n: nat, m: nat)
    returns (out: seq<nat>)
    requires n > 0
    requires numSrcBytes <= Mul(|src|, Size(t))
    requires Mul(WordCount(numSrcBytes, Size(t), n), m) <= |dst|
    ensures Fits(dst, src, WordCount(numSrcBytes, Size(t), n), n, m)
    ensures out == Reshaped(dst, src, WordCount(numSrcBytes, Size(t), n), n, m, DefaultAlpha(t))
    ensures forall i | 0 <= i < Mul(WordCount(numSrcBytes, Size(t), n), m) && m > 0 && n <= Rem(i, m) ::
              i < |out| && out[i] == DefaultAlpha(t)
    ensures (forall w | w in dst :: IsWord(t, w)) && (forall w | w in src :: IsWord(t, w))
            ==> forall w | w in out :: IsWord(t, w)
  {
    out := Reshape(dst, src, numSrcBytes, Size(t), n, m, DefaultAlpha(t));
    var words := WordCount(numSrcBytes, Size(t), n);
    forall i | 0 <= i < Mul(words, m) && m > 0 && n <= Rem(i, m)
      ensures i < |out| && out[i] == DefaultAlpha(t)
    {
      QuotBelow(i, words, m);
      QuotRem(i, m);
      ReshapePadsChannel(dst, src, words, n, m, DefaultAlpha(t), Quot(i, m), Rem(i, m));
    }
    forall i | 0 <= i < |out|
      ensures out[i] == dst[i] || out[i] in src || out[i] == DefaultAlpha(t)
    {
      ReshapeOrigin(dst, src, words, n, m, DefaultAlpha(t), i);
    }
  }

  /** Every component of the result is the old component, a source component or
      the default value. */
  lemma {:induction false} ReshapeOrigin<T>(dst: seq<T>, src: seq<T>, words: nat, srcChannels: nat,
                                            dstChannels: nat, defaultValue: T, i: nat)
    requires Fits(dst, src, words, srcChannels, dstChannels) && i < |dst|
    ensures var v := Reshaped(dst, src, words, srcChannels, dstChannels, defaultValue)[i];
            v == dst[i] || v in src || v == defaultValue
  {
    if i < Mul(words, dstChannels) {
      QuotBelow(i, words, dstChannels);
      var word, channel := Quot(i, dstChannels), Rem(i, dstChannels);
      if channel < Min(srcChannels, dstChannels) {
        GroupBound(word, words, srcChannels, channel);
        assert ReshapeAt(dst, src, words, srcChannels, dstChannels, defaultValue, i)
               == src[Mul(word, srcChannels) + channel];
      }
    }
  }
}
