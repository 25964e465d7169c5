/**
 * The pixel data path of `runWebGPU`: pack the RGBA surface, dispatch the
 * grayscale kernel over a zero-initialised output buffer, copy it back and
 * decode it into RGBA bytes.
 */
module Pipeline {
  import opened Bits
  import opened Pixel
  import opened Packer
  import opened Kernel
  import opened Dispatch
  import opened Decoder

  /**
   * The grayscale of an RGBA surface, byte by byte: each colour byte becomes
   * the truncated mean of its pixel's r, g and b, each alpha byte is kept.
   */
  function GrayscaleReference(data: seq<Byte>): (gray: seq<Byte>)
    requires |data| % 4 == 0
    ensures |gray| == |data|
  {
    seq(|data|, j requires 0 <= j < |data| =>
          var i := j / 4;
          if j % 4 == 3 then data[j] else Gray(data[4 * i], data[4 * i + 1], data[4 * i + 2]))
  }

  /** A buffer WebGPU creates without `mappedAtCreation` holds zeros. */
  function ZeroBuffer(n: nat): (words: seq<Word>)
    ensures |words| == n
  {
    seq(n, _ => 0)
  }

  /** The header of a packed surface describes it, and the kernel may index it with u32. */
  lemma PackedWellFormed(width: nat, height: nat, data: seq<Byte>)
    requires |data| == PixelCount(width, height) * 4 && PixelCount(width, height) + 2 <= WordModulus
    ensures WellFormed(Packed(width, height, data))
    ensures Packed(width, height, data)[0] <= width && Packed(width, height, data)[1] <= height
  {
    PixelCountIsProduct(width, height);
    if width > 0 && height > 0 {
      MulMonotone(1, height, width);
      MulMonotone(1, width, height);
    }
  }

  /** The kernel's word for a packed (r, g, b, a), as JavaScript decodes it. */
  lemma UnpackGrayPack(r: Byte, g: Byte, b: Byte, a: Byte)
    ensures var gray := Gray(r, g, b); Unpack(GrayPixel(Pack(r, g, b, a))) == [gray, gray, gray, a]
  {
    ChannelsOfPack(r, g, b, a);
    var gray := Gray(r, g, b);
    assert GrayPixel(Pack(r, g, b, a)) == Pack(gray, gray, gray, a);
    UnpackPack(gray, gray, gray, a);
  }

  /** What the data path computes for a `width` x `height` surface, step by step. */
  function Processed(width: nat, height: nat, data: seq<Byte>): (gray: seq<Byte>)
    requires |data| == PixelCount(width, height) * 4 && PixelCount(width, height) + 2 <= WordModulus
  {
    var input := Packed(width, height, data);
    PackedWellFormed(width, height, data);
    var output := Dispatched(input, ZeroBuffer(|input|), WorkgroupCount(width), WorkgroupCount(height));
    Decoded(PixelCount(width, height), output)
  }

  /** Byte j of the reference grayscale, by the pixel it belongs to. */
  lemma GrayscaleReferenceAt(data: seq<Byte>, j: nat)
    requires |data| % 4 == 0 && j < |data|
    ensures var i := j / 4;
            GrayscaleReference(data)[j]
            == if j % 4 == 3 then data[4 * i + 3] else Gray(data[4 * i], data[4 * i + 1], data[4 * i + 2])
  {
  }

  /** Byte j after grayscaling the packed surface and decoding it, by the pixel it belongs to. */
  lemma DecodedGrayscaledPackedAt(width: nat, height: nat, data: seq<Byte>, initial: seq<Word>, j: nat)
    requires |data| % 4 == 0 && |initial| == |data| / 4 + 2 && j < |data|
    ensures var i := j / 4;
            Decoded(|data| / 4, Grayscaled(Packed(width, height, data), initial))[j]
            == if j % 4 == 3 then data[4 * i + 3] else Gray(data[4 * i], data[4 * i + 1], data[4 * i + 2])
  {
    var i := j / 4;
    var r, g, b, a := data[4 * i], data[4 * i + 1], data[4 * i + 2], data[4 * i + 3];
    GrayscaledPackedWord(width, height, data, initial, i);
    DecodedIndex(|data| / 4, Grayscaled(Packed(width, height, data), initial), j);
    UnpackGrayPack(r, g, b, a);
  }

  /** Payload word i + 2 of the grayscaled packing is the kernel's word for pixel i. */
  lemma GrayscaledPackedWord(width: nat, height: nat, data: seq<Byte>, initial: seq<Word>, i: nat)
    requires |data| % 4 == 0 && |initial| == |data| / 4 + 2 && 4 * i + 4 <= |data|
    ensures Grayscaled(Packed(width, height, data), initial)[i + 2]
            == GrayPixel(Pack(data[4 * i], data[4 * i + 1], data[4 * i + 2], data[4 * i + 3]))
  {
    var input := Packed(width, height, data);
    assert i < |data| / 4;
    assert input[i + 2] == PackedPayload(data)[i];
    assert Grayscaled(input, initial)[i + 2] == GrayPixel(input[i + 2]);
  }

  /** Decoding the grayscaled packing of a surface gives the reference grayscale. */
  lemma DecodedGrayscaledPacked(width: nat, height: nat, data: seq<Byte>, initial: seq<Word>)
    requires |data| % 4 == 0 && |initial| == |data| / 4 + 2
    ensures Decoded(|data| / 4, Grayscaled(Packed(width, height, data), initial))
            == GrayscaleReference(data)
  {
    forall j | 0 <= j < |data|
      ensures Decoded(|data| / 4, Grayscaled(Packed(width, height, data), initial))[j]
              == GrayscaleReference(data)[j]
    {
      DecodedGrayscaledPackedAt(width, height, data, initial, j);
      GrayscaleReferenceAt(data, j);
    }
  }

  /** Packing, dispatching and decoding grayscale the surface exactly as the reference does. */
  lemma ProcessedIsGrayscale(width: nat, height: nat, data: seq<Byte>)
    requires |data| == PixelCount(width, height) * 4 && PixelCount(width, height) + 2 <= WordModulus
    ensures Processed(width, height, data) == GrayscaleReference(data)
  {
    var input := Packed(width, height, data);
    PackedWellFormed(width, height, data);
    assert |data| / 4 == PixelCount(width, height);
    var initial := ZeroBuffer(|input|);
    DispatchCoversImage(input, initial, WorkgroupCount(width), WorkgroupCount(height));
    DecodedGrayscaledPacked(width, height, data, initial);
  }

  /** `maxStorageBufferBindingSize` of a device requested without limits: 128 MiB, in u32 words. */
  const DefaultMaxStorageBindingWords: nat := 0x200_0000

  /** `maxBufferSize` of a device requested without limits: 256 MiB, in u32 words. */
  const DefaultMaxBufferWords: nat := 0x400_0000

  /** `maxComputeWorkgroupsPerDimension` of a device requested without limits. */
  const DefaultMaxWorkgroupsPerDimension: nat := 65535

  /**
   * Whether the bind group of the two `width * height + 2`-word buffers and the
   * `dispatchWorkgroups` call pass validation on a device with default limits.
   */
  predicate WithinDefaultLimits(width: nat, height: nat)
  {
    PixelCount(width, height) + 2 <= DefaultMaxStorageBindingWords
    && WorkgroupCount(width) <= DefaultMaxWorkgroupsPerDimension
    && WorkgroupCount(height) <= DefaultMaxWorkgroupsPerDimension
  }

  /** Decoding a read-back buffer that nothing was copied into gives only zero bytes. */
  lemma DecodedZeroBuffer(count: nat)
    ensures Decoded(count, ZeroBuffer(count + 2)) == seq(count * 4, _ => 0)
  {
    var bytes := Decoded(count, ZeroBuffer(count + 2));
    forall j | 0 <= j < count * 4
      ensures bytes[j] == 0
    {
      DecodedIndex(count, ZeroBuffer(count + 2), j);
      assert Unpack(0) == [0, 0, 0, 0];
    }
  }

  /**
   * How a call of `runWebGPU` ends: its promise rejects because a browser or
   * device call threw, it resolves to nothing after the "not supported" alert,
   * or it resolves with the processed image.
   */
  datatype Outcome = Rejected | Unsupported | Completed(image: array<Byte>)

  /**
   * The data path of `runWebGPU`. `getImageData` throws for an empty surface.
   * Without `navigator.gpu` the user is alerted after packing and nothing is
   * returned. `deviceReady` says that `requestAdapter` gave an adapter, that
   * `requestDevice` resolved and that `mapAsync` of a valid buffer resolves;
   * otherwise the call throws. Buffers larger than the default `maxBufferSize`
   * are invalid, so the mapping of the read-back buffer rejects. Below that, a
   * surface beyond the other default limits makes the bind group or the
   * dispatch fail validation, which throws nothing: the submitted commands do
   * not run, and the zero-initialised read-back buffer is decoded.
   */
  method RunWebGpu(width: nat, height: nat, data: array<Byte>, gpuPresent: bool, deviceReady: bool)
    returns (result: Outcome)
    requires data.Length == PixelCount(width, height) * 4
    ensures result.Rejected?
            <==> (width == 0 || height == 0
                  || (gpuPresent && (!deviceReady || PixelCount(width, height) + 2 > DefaultMaxBufferWords)))
    ensures result.Unsupported? <==> width > 0 && height > 0 && !gpuPresent
    ensures result.Completed? ==> fresh(result.image) && result.image.Length == data.Length
    ensures result.Completed? && WithinDefaultLimits(width, height)
            ==> result.image[..] == GrayscaleReference(data[..])
    ensures result.Completed? && !WithinDefaultLimits(width, height)
            ==> forall j :: 0 <= j < result.image.Length ==> result.image[j] == 0
  {
    if width == 0 || height == 0 {
      return Rejected;
    }
    var pixels := PackPixels(width, height, data);
    if !gpuPresent {
      return Unsupported;
    }
    var count := PixelCount(width, height);
    if !deviceReady || count + 2 > DefaultMaxBufferWords {
      return Rejected;
    }
    var bytes;
    if WithinDefaultLimits(width, height) {
      var outputBuffer := new Word[pixels.Length](_ => 0);
      PackedWellFormed(width, height, data[..]);
      var dispatchX := WorkgroupCount(width);
      var dispatchY := WorkgroupCount(height);
      RunDispatch(pixels, outputBuffer, dispatchX, dispatchY);
      var copyArray := new Word[outputBuffer.Length](k requires 0 <= k < outputBuffer.Length reads outputBuffer => outputBuffer[k]);
      bytes := DecodePixels(width, height, copyArray);
      assert copyArray[..] == outputBuffer[..];
      assert outputBuffer[..] == Dispatched(pixels[..], ZeroBuffer(pixels.Length), dispatchX, dispatchY);
      ProcessedIsGrayscale(width, height, data[..]);
    } else {
      var readBuffer := new Word[pixels.Length](_ => 0);
      bytes := DecodePixels(width, height, readBuffer);
      assert readBuffer[..] == ZeroBuffer(count + 2);
      DecodedZeroBuffer(count);
    }
    return Completed(bytes);
  }
}
