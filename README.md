# Grayscale data path of `runWebGPU`

This project models the pixel data path of `runWebGPU` in the WebGPU image
processor (`src/WebGPU.jsx`) and proves what it computes:

- the **packer** turns the RGBA bytes of a `width` x `height` surface into a
  `Uint32Array` holding a two-word header (width, height) and then one word
  `(a << 24) | (b << 16) | (g << 8) | r` per pixel;
- the **WGSL kernel** `main` runs once per global invocation `(x, y)`; an
  invocation outside the image does nothing, and one inside it stores, at
  `y * width + x + 2`, a word that keeps the alpha byte and holds the truncated
  mean of r, g and b in the three colour bytes;
- the **dispatch** launches `ceil(width / 16)` x `ceil(height / 16)` workgroups
  of 16 x 16 invocations;
- the **decoder** unpacks the words read back from the device into RGBA bytes
  with JavaScript's `pixel & 0xff` and `(pixel >> k) & 0xff`.

Modules, one file each:

- `Bits` holds the 32-bit operators written on naturals: `<<` and `>>` on u32,
  JavaScript's signed `>>` after ToInt32, `& 0xFF`, and a bitwise `|`.
- `Pixel` holds the packing of one pixel and both views of channel extraction.
- `Packer` holds the pack loop.
- `Kernel` holds one invocation of the shader.
- `Dispatch` holds the workgroup grid and the sweep of all invocations.
- `Decoder` holds the unpack loop.
- `Pipeline` holds the whole path, with the GPU's availability as a parameter.

Words are naturals below 2^32 and bytes are naturals below 256. The u32
operators of the shader are written with their wrap-around, and JavaScript's
`>>` in the decoder with its ToInt32 sign reinterpretation; JavaScript's `<<`
and `|` in the packer are taken on the unsigned bit patterns that the
`Uint32Array` store keeps (see "Left out"). The device runs the invocations in parallel. Each in-range invocation
writes its own index and reads only the input buffer, so the model runs them
one after another in row-major order. The end-to-end result is that packing,
dispatching over a zero-initialised output buffer, copying back and decoding
produce exactly `GrayscaleReference` of the input bytes. That reference
replaces every colour byte by its pixel's `(r + g + b) / 3` and keeps every
alpha byte.

`RunWebGpu` also models how a call ends without the grayscale image, on a
device with WebGPU's default limits. It rejects for an empty surface, when the
adapter or the device cannot be obtained, and when the buffers exceed the
default `maxBufferSize` of 256 MiB (the buffers are invalid, so mapping the
read-back buffer rejects). It resolves to nothing when the browser has no
WebGPU. Below 256 MiB, a surface beyond the other default limits (a 128 MiB
storage binding, 65535 workgroups per dimension) makes the bind group or the
dispatch fail validation. Nothing is submitted then, and the call returns an
all-zero image.

## Model

| member | source | states |
|---|---|---|
| Bits.Shl | src/WebGPU.jsx:57 | `x << k` on a u32: the result is x·2^k reduced modulo 2^32, so it is always below 2^32 |
| Bits.Shr | src/WebGPU.jsx:103-106 | `x >> k` on a u32 for k = 0, 8, 16, 24: the logical shift, x divided by 2^k rounded down |
| Bits.Sar | src/WebGPU.jsx:158-161 | JavaScript's `v >> k` on a signed 32-bit value: the arithmetic shift, rounding toward minus infinity |
| Bits.Mask8 | src/WebGPU.jsx:103-106 | `v & 0xFF`: the low byte of the two's complement of v, always below 256, also for negative v |
| Bits.ToInt32 | src/WebGPU.jsx:158-161 | JavaScript's ToInt32 of a `Uint32Array` element: words from 2^31 up become negative by subtracting 2^32 |
| Bits.BitOr | src/WebGPU.jsx:57 | bitwise `x \| y`, bit by bit from the lowest; `BitOrDisjoint` gives its value on disjoint bit ranges |
| Bits.BitOrDisjoint | src/WebGPU.jsx:57 | or-ing a multiple of 2^k with a value below 2^k is their sum: no bit is set in both |
| Pixel.Pack | src/WebGPU.jsx:57 | the word of a pixel by value, a·2^24 + b·2^16 + g·2^8 + r; `PackIsBitwiseOr` shows the packer's shift-and-or expression equals it |
| Pixel.PackIsBitwiseOr | src/WebGPU.jsx:57 | `(a << 24) \| (b << 16) \| (g << 8) \| r` on u32 equals a·2^24 + b·2^16 + g·2^8 + r, so each channel owns one byte; the shader's repack at line 110 is the same expression on u32 |
| Pixel.Channel | src/WebGPU.jsx:103-106 | the shader's `(pixel >> k) & 0xFFu`: the byte of the word at bit k |
| Pixel.JsChannel | src/WebGPU.jsx:158-161 | JavaScript's `(pixel >> k) & 0xff`: ToInt32, then the arithmetic shift, then the low byte |
| Pixel.Unpack | src/WebGPU.jsx:158-161 | the four bytes the decoder writes for one word, in the order r, g, b, a: exactly four bytes |
| Pixel.ChannelsOfPack | src/WebGPU.jsx:103-106 | the shader's `(pixel >> k) & 0xFFu` for k = 0, 8, 16, 24 gives back r, g, b and a of a packed word |
| Pixel.PackOfChannels | src/WebGPU.jsx:103-106 | every u32 word is the packing of its four extracted channels |
| Pixel.JsChannelIsChannel | src/WebGPU.jsx:158-161 | JavaScript's `(pixel >> k) & 0xff` (ToInt32, then a sign-propagating shift) gives the same byte as the unsigned u32 shift, for every word, including words with the top bit set |
| Pixel.UnpackPack | src/WebGPU.jsx:157-161 | decoding a packed pixel gives back its bytes [r, g, b, a] in order |
| Pixel.PackUnpack | src/WebGPU.jsx:157-161 | re-packing the four decoded bytes of any word gives back that word |
| Packer.PixelCount | src/WebGPU.jsx:48 | the number of pixels of a surface, `width * height`, as repeated addition |
| Packer.PixelCountIsProduct | src/WebGPU.jsx:48 | the pixel count used throughout is `width * height` |
| Packer.Header | src/WebGPU.jsx:49-50 | storing a dimension into a `Uint32Array` element keeps it modulo 2^32, so any dimension below 2^32 is stored unchanged |
| Packer.PackedPayload | src/WebGPU.jsx:52-58 | one packed word per RGBA quadruple, in order: a quarter as many words as bytes |
| Packer.Packed | src/WebGPU.jsx:48-50 | the packed buffer has one word per pixel plus two; word 0 is width and word 1 is height, each stored modulo 2^32 as a `Uint32Array` stores them |
| Packer.PackedWord | src/WebGPU.jsx:52-58 | payload word i + 2 is a·2^24 + b·2^16 + g·2^8 + r for the bytes data[4i .. 4i+3] |
| Packer.PackPixels | src/WebGPU.jsx:48-58 | the pack loop fills a new array with exactly the packed buffer: the header and then every pixel's word |
| Kernel.WellFormed | src/WebGPU.jsx:48-50 | a buffer laid out as the packer lays it out: header width and height, then width·height words, at most 2^32 words |
| Kernel.Gray | src/WebGPU.jsx:108 | the gray value of a pixel, `(r + g + b) / 3` truncated; `GrayIsMean` states its bounds |
| Kernel.GrayPixel | src/WebGPU.jsx:103-110 | the word the kernel stores for an input word: alpha kept and the gray value in r, g and b; `GrayPixelChannels` states it channel by channel |
| Kernel.GrayIsMean | src/WebGPU.jsx:108 | gray is the mean of r, g, b rounded down (3·gray ≤ r+g+b < 3·gray+3), so it fits in a byte, and three equal channels have that channel as gray |
| Kernel.GrayPixelChannels | src/WebGPU.jsx:103-110 | the stored word keeps the input's alpha byte and has the gray of the input's r, g, b in each of its three colour bytes |
| Kernel.GrayPixelFixed | src/WebGPU.jsx:108-110 | the kernel leaves a word unchanged if and only if its r, g and b are equal |
| Kernel.GrayPixelIdempotent | src/WebGPU.jsx:108-110 | grayscaling a grayscaled word changes nothing |
| Kernel.PixelIndexNoWrap | src/WebGPU.jsx:100 | for an in-range (x, y) the u32 computation of `y * width + x + 2u` does not wrap and stays below the buffer length |
| Kernel.RowMajorUnique | src/WebGPU.jsx:100 | two coordinates inside a row of the given width with the same row-major index are the same coordinate |
| Kernel.Invocation | src/WebGPU.jsx:90-111 | an invocation stores nothing if and only if x ≥ width or y ≥ height; otherwise it stores once, at index y·width + x + 2 in [2, width·height + 2), the grayscale of the input word at that same index |
| Kernel.InvocationInjective | src/WebGPU.jsx:100 | two in-range invocations that store to the same index are the same invocation |
| Dispatch.WorkgroupCount | src/WebGPU.jsx:134-136 | `Math.ceil(n / 16)` is the fewest workgroups whose 16 invocations per axis reach n: 16·d ≥ n and 16·(d − 1) < n |
| Dispatch.Column | src/WebGPU.jsx:100 | the column x of the pixel at payload word k, (k − 2) mod width |
| Dispatch.Row | src/WebGPU.jsx:100 | the row y of the pixel at payload word k, (k − 2) div width |
| Dispatch.Coordinates | src/WebGPU.jsx:100 | every payload index is `y * width + x + 2` for a column x < width and a row y < height |
| Dispatch.CoordinatesOf | src/WebGPU.jsx:100 | the converse of `Coordinates`: the index `y * width + x + 2` of an in-range column x has column x and row y |
| Dispatch.SweptWord | src/WebGPU.jsx:134-137 | output word k once the invocations before (cx, cy) of the row-major sweep have run: grayscaled if its own invocation has run, its initial value otherwise |
| Dispatch.SweepStep | src/WebGPU.jsx:137 | running one more invocation changes the swept output only at the index that invocation stores to |
| Dispatch.Dispatched | src/WebGPU.jsx:137 | the dispatch keeps the output's length and never writes the header words 0 and 1 |
| Dispatch.Grayscaled | src/WebGPU.jsx:89-111 | the intended output buffer: the initial header, then the kernel's word for every input word |
| Dispatch.DispatchCoversImage | src/WebGPU.jsx:134-137 | over a grid at least as large as the image, every payload word of the output is the grayscale of the same input word, and the header words keep their initial value |
| Dispatch.EachPixelOnce | src/WebGPU.jsx:134-137 | every payload word is stored by exactly one invocation of the `ceil(W/16)` x `ceil(H/16)` grid: its own column and row, which lie inside the grid |
| Dispatch.RunDispatch | src/WebGPU.jsx:137 | running every invocation of the grid on the output buffer leaves it equal to the dispatched buffer |
| Decoder.Decoded | src/WebGPU.jsx:155-162 | decoding `count` pixels yields exactly 4·count bytes |
| Decoder.DecodedIgnoresHeader | src/WebGPU.jsx:157 | the decoder reads only words 2 .. count + 1: buffers that agree there decode alike |
| Decoder.DecodedPacked | src/WebGPU.jsx:155-162 | decoding the packed buffer of a surface gives back every byte of the surface |
| Decoder.StorePixel | src/WebGPU.jsx:157-161 | one pass of the unpack loop writes the four decoded bytes of pixel i at 4i .. 4i+3 and leaves every other byte alone |
| Decoder.DecodePixels | src/WebGPU.jsx:155-162 | the unpack loop fills a new byte array with exactly the decoding of the read-back words |
| Pipeline.GrayscaleReference | src/WebGPU.jsx:103-110 | the independent reference result: each colour byte becomes its pixel's truncated mean of r, g, b, each alpha byte is kept, and the length is unchanged |
| Pipeline.ZeroBuffer | src/WebGPU.jsx:75-78 | the output buffer created without `mappedAtCreation`: n words, all zero |
| Pipeline.PackedWellFormed | src/WebGPU.jsx:48-50 | the packed buffer's header describes its payload, which the kernel relies on, and no header word exceeds the true size |
| Pipeline.UnpackGrayPack | src/WebGPU.jsx:103-110 | decoding the kernel's word for a packed (r, g, b, a) gives [gray, gray, gray, a] |
| Pipeline.DecodedGrayscaledPacked | src/WebGPU.jsx:155-162 | decoding a buffer whose payload is the grayscaled packing of a surface gives the reference grayscale of that surface |
| Pipeline.Processed | src/WebGPU.jsx:48-162 | the composed data path: pack, dispatch the `ceil` grid over a zero buffer, decode |
| Pipeline.ProcessedIsGrayscale | src/WebGPU.jsx:48-162 | pack, dispatch over a zeroed buffer and decode together compute the reference grayscale: each colour byte is its pixel's truncated mean, each alpha byte is kept |
| Pipeline.WithinDefaultLimits | src/WebGPU.jsx:121-137 | the two `width * height + 2`-word buffers fit the default 128 MiB storage binding, and both workgroup counts are at most the default 65535 per dimension; the separate 256 MiB `maxBufferSize` is checked in `RunWebGpu` |
| Pipeline.DecodedZeroBuffer | src/WebGPU.jsx:151-162 | decoding a read-back buffer that nothing was copied into gives 4·count zero bytes |
| Pipeline.RunWebGpu | src/WebGPU.jsx:40-170 | the call rejects exactly when the surface is empty or, with WebGPU present, the adapter, the device or the mapping fails, or the buffers exceed the default 256 MiB `maxBufferSize`. It resolves to nothing exactly when the surface is non-empty and WebGPU is absent. Otherwise it returns a new byte array as long as the input: the reference grayscale of the input bytes within the default device limits, and all zeros beyond them |

## Left out

- The React component, its state, the file input and the rendering (src/WebGPU.jsx:1-38, 172-207) are user interface.
- Image loading, pre-scaling (floating-point `Math.min` and `Math.round`), canvas drawing, `getImageData`, `createImageData`, `putImageData` and `toDataURL` are browser I/O. Only the byte arrays they produce and consume are modelled. For a non-empty surface `getImageData` yields `width * height * 4` bytes, which the methods require. For an empty one it throws an `IndexSizeError`, which `RunWebGpu` models as a rejected call.
- Device acquisition, buffer creation, mapping, the bind group, the pipeline, command encoding, queue submission and `mapAsync` are foreign asynchronous calls. Their effect on the data is modelled: the input buffer holds the packed words, the output buffer starts zeroed, and the read-back copy equals the output buffer. `navigator.gpu` becomes the `gpuPresent` parameter. Whether `requestAdapter` gave an adapter, `requestDevice` resolved and `mapAsync` of a valid buffer resolves becomes the `deviceReady` parameter; when one of them fails, the call rejects. Why they fail is not modelled, and neither is the alert's text. WebGPU validation errors throw nothing. The model covers the three that the surface size can cause on a device with default limits: buffer creation at lines 67, 75 and 80, after which `mapAsync` at line 151 rejects; the bind group at line 121; and the dispatch at line 137. It covers no other validation error.
- The GPU runs the invocations in parallel. The model runs them sequentially in row-major order. This is sound here because every in-range invocation writes a distinct index, which `Kernel.InvocationInjective` and `Dispatch.EachPixelOnce` state, and reads only the input buffer.
- Kernel.Gray: `u32((r + g + b) / 3.0)` is computed in f32 by the shader. It is modelled as integer division `(r + g + b) / 3`. This assumes that the device's f32 division of an integer in 0 .. 765 by 3, truncated, agrees with integer division. Correctly rounded IEEE division gives this, but WGSL only bounds f32 `/` to 2.5 ULP, so it is an assumption about the device, not a guarantee of the language.
- Pixel.PackIsBitwiseOr: JavaScript's `<<` and `|` produce signed 32-bit results, so `a << 24` is negative when a ≥ 128. The model works on the unsigned bit patterns, which is what the `Uint32Array` store keeps.
- Pipeline.RunWebGpu: browser limits on canvas area and typed-array length, which make `getImageData` or `new Uint32Array` throw for very large surfaces, are not modelled. The 500-pixel scaling before `runWebGPU` is called (src/WebGPU.jsx:16-22) keeps every call of the app far below them and below the default device limits.
- Kernel.Invocation requires a well-formed buffer, one whose header product plus two is its length. `runWebGPU` only ever dispatches the packed buffer, which `Pipeline.PackedWellFormed` shows is well-formed. Out-of-bounds reads of a malformed buffer are not modelled.
- `Math.ceil(width / 16)` is computed in floating point. For the integer sizes involved it is exact, and it is modelled as `(n + 15) / 16`.
