# DXTC: verified model of S3TC block decompression

This project models the DXTC library's decoder for block-compressed textures (DXT1, DXT1 with punch-through alpha, DXT3, DXT5). It also models `HighColor`, the 16-bit 5:6:5 colour the blocks store. Everything is written in Dafny and proved with it.

- `words.dfy` (module `Words`) holds the C fixed-width integer types (`uint8_t`, `uint16_t`, `uint32_t`) and little-endian 16-bit loads. It also holds the digit view of a packed integer: extracting k-bit fields by shift and mask is the same as reading base-2^k digits. The split/merge round trip is proved in both directions.
- `highcolor.dfy` (module `HighColors`) models `HighColor` as an immutable datatype: the `r5`/`g6`/`b5` fields, `trueColor:`, `scale:`, `add:`, `linearBlend:` and `linearInterpolation:`. Each operation returns a new value, so the receiver and the argument cannot change.
- `dxtc_blocks.dfy` (module `DxtcBlocks`) covers the format tags, the three 8-byte block records, the 4-entry colour palette with its punch-through rule, and the 8-entry DXT5 alpha palette. It also decodes the sixteen texels of one block.
- `dxtc.dfy` (module `Dxtc`) covers `+decompress:width:height:format:`. It checks the arguments, then loops over the rows of blocks, and within each row over its blocks. Each block's sixteen texels are written in place into a fresh row-major array of `w*h` RGBA words. Edge blocks are clipped.

Semantics fixed by this model, where the headers leave them open:

- Arithmetic on channels is exact. Each result is rounded down once and then clamped to the channel range:
  - `scale` by num/den: floor(c*num/den), clamped to [0, max];
  - `add`: saturating;
  - `linearBlend`: floor((a+b)/2);
  - `linearInterpolation`: floor((2a+b)/3).
- The `CGFloat` factor of `scale:` is an exact rational num/den.
- `trueColor:` expands by bit replication: r8 = (r5<<3)|(r5>>2) and g8 = (g6<<2)|(g6>>4). The word holds red in bits 0-7, green in 8-15, blue in 16-23 and alpha in 24-31.
- DXT3 and DXT5 blocks are 16 bytes: the 8-byte alpha block first, then the colour block, as in the S3TC extension. Their colour block always decodes in four-colour mode.
- The DXT5 interpolants are floor((w*a0 + (n-w)*a1)/n).
- In three-colour mode (color0 <= color1), palette entry 3 carries the RGB of the blend (entry 2). Its alpha is 0 under DXT1A and 255 under DXT1. The `EXT_texture_compression_s3tc` specification makes that entry black instead. This model follows the library's described behaviour, under which a DXT1 block with equal reference colours decodes to one uniform colour (`UniformDxt1Block`).
- Errors are checked in this order, before any block is decoded: an unknown format tag (`UnsupportedFormat`), then a zero width or height (`InvalidDimensions`), then a buffer whose length is not ceil(w/4)*ceil(h/4)*B (`InvalidBufferSize`). B is 8 for DXT1/1A and 16 for DXT3/5. The Objective-C API reports all three as a nil result.
- In an eight-entry DXT5 ramp (alpha0 > alpha1) the values fall in the palette order 0, 2, 3, 4, 5, 6, 7, 1, not in index order 0..7.

## Model

| member | source | states |
|---|---|---|
| `HighColors.HighColor.R5` | HighColor.h:15 | the red field of every 16-bit colour is below 32 |
| `HighColors.HighColor.G6` | HighColor.h:16 | the green field is below 64 |
| `HighColors.HighColor.B5` | HighColor.h:17 | the blue field is below 32 |
| `HighColors.Pack` | HighColor.h:14-17 | the colour packed from in-range r5, g6, b5 reads back exactly those fields |
| `HighColors.Components` | HighColor.h:14-26 | every 16-bit value is a colour with color == r5*2048 + g6*32 + b5, and repacking its fields gives the original colour |
| `HighColors.SameChannels` | HighColor.h:14-17 | two colours with equal fields are equal |
| `HighColors.Rgba.Word` | HighColor.h:29-37 | the true-colour word holds red in bits 0-7, green in bits 8-15, blue in bits 16-23 and alpha in bits 24-31 |
| `HighColors.Unpack` | HighColor.h:35-37 | the four channel bytes read out of a 32-bit word repack to that word |
| `HighColors.UnpackWord` | HighColor.h:35-37 | packing four channel bytes into a word loses nothing |
| `HighColors.Expand5` | HighColor.h:29-37 | 5-to-8-bit expansion is bit replication: the top five bits are the value and the low three bits are its top three bits (v >> 2), so 0 maps to 0 and 31 to 255 |
| `HighColors.Expand6` | HighColor.h:29-37 | 6-to-8-bit expansion is bit replication: the top six bits are the value and the low two bits are its top two bits (v >> 4), so 0 maps to 0 and 63 to 255 |
| `HighColors.HighColor.TrueColor` | HighColor.h:29-37 | the word's channels are the expanded r5, g6, b5 plus exactly the caller's alpha |
| `HighColors.TrueColorAlpha` | HighColor.h:29-37 | the alpha byte is the supplied alpha, the colour bytes do not depend on it, and distinct (colour, alpha) pairs give distinct words |
| `HighColors.ScaleChannel` | HighColor.h:56-65 | a scaled channel stays in range; it is the exact product rounded down whenever that product is in range, 0 when the product is negative, and the channel maximum when the product overflows |
| `HighColors.HighColor.Scale` | HighColor.h:56-65 | each channel of the result is the same channel of the receiver scaled, so the result is again a valid 5:6:5 colour |
| `HighColors.ScaleByOneOrZero` | HighColor.h:56-65 | scaling by 1 returns the colour, scaling by 0 returns black |
| `HighColors.AddChannel` | HighColor.h:68-75 | a sum channel is the exact sum, or the channel maximum when the sum overflows |
| `HighColors.HighColor.Add` | HighColor.h:68-75 | each channel of the sum depends only on the same channel of the two inputs |
| `HighColors.AddCommutes` | HighColor.h:68-75 | addition is commutative and black is neutral |
| `HighColors.MeanChannel` | HighColor.h:78-87 | the blended channel is (a+b)/2 rounded down and lies between a and b |
| `HighColors.HighColor.LinearBlend` | HighColor.h:78-87 | every channel is 0.5*c0 + 0.5*c1 of the same channel |
| `HighColors.BlendCommutes` | HighColor.h:78-87 | a.linearBlend(b) == b.linearBlend(a), and blending a colour with itself gives the colour |
| `HighColors.BlendVersusScaleAdd` | HighColor.h:56-87 | the blend is never below scale(1/2).add(other.scale(1/2)) and exceeds it by at most one step per channel |
| `HighColors.TwoThirdsChannel` | HighColor.h:90-99 | the interpolated channel is (2a+b)/3 rounded down and lies between a and b |
| `HighColors.HighColor.LinearInterpolation` | HighColor.h:90-99 | every channel is (2/3)*c0 + (1/3)*c1 of the same channel |
| `HighColors.InterpolationSelf` | HighColor.h:90-99 | interpolating a colour with itself gives the colour |
| `HighColors.InterpolationNotSymmetric` | HighColor.h:90-99 | interpolation is not symmetric: black and blue 3 give blue 1 one way and blue 2 the other |
| `HighColors.MixesBetween` | HighColor.h:78-99 | every channel of a blend or of either interpolation lies between the two input channels |
| `DxtcBlocks.Tag` | DXTC.h:12-16 | each format's tag is in 1..4 |
| `DxtcBlocks.FormatOfTag` | DXTC.h:12-16 | a tag names a format exactly when it is in 1..4, and it names the format whose tag it is |
| `DxtcBlocks.TagRoundTrip` | DXTC.h:12-16 | the four formats and the tags 1..4 correspond one to one |
| `DxtcBlocks.BlockSize` | DXTC.h:12-37 | a block record is 8 bytes for DXT1 and DXT1A and 16 bytes for DXT3 and DXT5 |
| `Words.Le16` | DXTC.h:21-25 | a little-endian 16-bit value has the first byte as its low byte and the second as its high byte |
| `DxtcBlocks.ColorBlock.Color0` | DXTC.h:22-23 | color0 is the little-endian value colorLow0 + 256*colorHigh0 |
| `DxtcBlocks.ColorBlock.Color1` | DXTC.h:24-25 | color1 is the little-endian value colorLow1 + 256*colorHigh1 |
| `DxtcBlocks.ColorBlock.Code` | DXTC.h:26 | texel i's code is in 0..3 and is bits 2c..2c+1 of code byte r, for row r = i/4 and column c = i%4 |
| `DxtcBlocks.ParseColorBlock` | DXTC.h:21-27 | reading the 8-byte record and writing its fields back gives the same bytes |
| `DxtcBlocks.ParseColorBlockBytes` | DXTC.h:21-27 | writing a record's fields out and reading them back gives the same record |
| `DxtcBlocks.ColorCodesRoundTrip` | DXTC.h:26 | a row's four 2-bit codes reassemble into its code byte |
| `Words.FromToDigits` | DXTC.h:26-36 | splitting a value that fits in n fields into n fields and merging them gives the value back |
| `Words.ToFromDigits` | DXTC.h:26-36 | merging n in-range fields fits in n fields, and splitting the result gives the same fields |
| `Words.DigitAt` | DXTC.h:26-36 | field i of the split is the shift-and-mask value x / base^i % base |
| `DxtcBlocks.ParseDxt3AlphaBlock` | DXTC.h:29-31 | each of the four alpha rows is the little-endian 16-bit value of its two bytes |
| `DxtcBlocks.Dxt3AlphaBlock.Alpha` | DXTC.h:29-31 | texel i's explicit alpha is in 0..15 and is bits 4c..4c+3 of row r's word |
| `DxtcBlocks.Dxt3AlphaRoundTrip` | DXTC.h:29-31 | a row's four 4-bit alphas reassemble into its 16-bit word |
| `DxtcBlocks.Expand4` | DXTC.h:15 | the 4-to-8-bit expansion (a OR a<<4) has a in both nibbles, so 15 becomes 255 |
| `DxtcBlocks.Dxt5AlphaBlock.CodeBits` | DXTC.h:36 | the six code bytes form one 48-bit little-endian value: byte j is bits 8j..8j+7 |
| `Words.MergedDigit` | DXTC.h:36 | each field of a value merged from in-range fields is read back by shift and mask |
| `DxtcBlocks.Dxt5AlphaBlock.Code` | DXTC.h:33-37 | texel i's alpha code is in 0..7 and is bits 3i..3i+2 of the 48-bit value |
| `DxtcBlocks.ParseDxt5AlphaBlock` | DXTC.h:33-37 | reading the 8-byte record and writing its fields back gives the same bytes |
| `DxtcBlocks.Dxt5CodesRoundTrip` | DXTC.h:33-37 | the sixteen 3-bit codes reassemble into the 48 code bits |
| `DxtcBlocks.FourColorMode` | DXTC.h:12-27 | DXT3 and DXT5 always decode colour in four-colour mode; DXT1 and DXT1A do so exactly when color0 > color1 as unsigned 16-bit values |
| `DxtcBlocks.ColorPalette` | DXTC.h:21-27 | the palette has four entries; entries 0 and 1 are color0 and color1; in four-colour mode entry 2 is the 2:1 interpolation of color0 and color1 and entry 3 the 1:2 one; otherwise entries 2 and 3 both carry the blend of the two |
| `DxtcBlocks.PaletteAlpha` | DXTC.h:13-14 | an entry is transparent if and only if the format is DXT1A, color0 <= color1 and the entry is 3; every other entry is fully opaque |
| `DxtcBlocks.PaletteBetween` | DXTC.h:21-27 | every palette colour lies channel by channel between color0 and color1 |
| `DxtcBlocks.UniformPalette` | DXTC.h:21-27 | with color0 == color1 every palette entry has that colour, in either mode |
| `DxtcBlocks.MixInRange` | DXTC.h:33-37 | a rounded-down weighted mean of two alphas lies between them |
| `DxtcBlocks.AlphaMix` | DXTC.h:33-37 | an interpolated alpha is the w/n : (n-w)/n mean rounded down and lies between the two reference alphas |
| `DxtcBlocks.AlphaPalette` | DXTC.h:33-37 | the alpha palette has eight entries and entries 0 and 1 are alpha0 and alpha1; when alpha0 > alpha1 entries 2..7 are the 6/7..1/7 mixes; otherwise entries 2..5 are the 4/5..1/5 mixes and entries 6 and 7 are 0 and 255 |
| `DxtcBlocks.MixMonotone` | DXTC.h:33-37 | when alpha0 >= alpha1, more weight on alpha0 never moves an interpolant away from alpha0, and moves it strictly when the alphas are at least n apart |
| `DxtcBlocks.EightAlphaRamp` | DXTC.h:33-37 | with alpha0 > alpha1 the entries never rise from alpha0 through 6/7..1/7 to alpha1, and fall strictly when alpha0 - alpha1 >= 7 |
| `DxtcBlocks.SixAlphaRamp` | DXTC.h:33-37 | with alpha0 <= alpha1, entries 2..5 rise from alpha0 to alpha1, and entries 6 and 7 are exactly 0 and 255 |
| `DxtcBlocks.AlphaRamp255To0` | DXTC.h:33-37 | the ramp for alpha0 = 255, alpha1 = 0 is 255, 0, 218, 182, 145, 109, 72, 36 |
| `DxtcBlocks.ColorBlockOf` | DXTC.h:21-37 | the colour block of a block is its last 8 bytes: the whole record for DXT1 and DXT1A, the half after the alpha block for DXT3 and DXT5 |
| `DxtcBlocks.TexelAlpha` | DXTC.h:12-37 | a DXT1 texel is opaque; a DXT1A texel has alpha 0 exactly when color0 <= color1 and its code is 3, and 255 otherwise; a DXT3 texel has its 4-bit alpha times 17; a DXT5 texel has the alpha-palette entry its 3-bit code selects |
| `DxtcBlocks.UniformDxt1Block` | DXTC.h:21-27 | a DXT1 block with color0 == color1 decodes to sixteen identical opaque texels, whatever its codes |
| `DxtcBlocks.DecodeBlock` | DXTC.h:21-37 | a block decodes to sixteen texels; texel i has the 8-bit expansion of the palette colour its 2-bit code selects, and the alpha of the format's rule |
| `Dxtc.BlockCount` | DXTC.h:47-48 | the block count is ceil(n/4): enough 4-pixel blocks to cover n pixels, with less than one block to spare |
| `Dxtc.RequiredLength` | DXTC.h:41-56 | the required length is a whole number of records, one per 4x4 block of the image |
| `Dxtc.CheckArguments` | DXTC.h:41-56 | decoding proceeds if and only if the tag is 1..4, both dimensions are non-zero and the length is exactly ceil(w/4)*ceil(h/4)*B; each error is returned exactly in its own case |
| `Dxtc.PixelIndex` | DXTC.h:47-48 | pixel (x, y) lies inside the w*h raster, at row-major place y*w + x: row y, column x |
| `Dxtc.PixelIndexInjective` | DXTC.h:47-48 | distinct in-image pixels have distinct places in the raster |
| `Dxtc.BlockInSource` | DXTC.h:41-44 | every block of the image lies inside a buffer of the required length |
| `Dxtc.BlockOffset` | DXTC.h:41-48 | block (blockX, blockY) starts at record number blockY*ceil(w/4) + blockX, counting row by row, and its record ends inside a buffer of the required length |
| `Dxtc.BlockBytes` | DXTC.h:41-44 | the bytes of a block are exactly its own record: byte j is the source byte at the block's offset plus j |
| `Dxtc.Pixel` | DXTC.h:41-56 | pixel (x, y) has the expanded colour and the alpha of texel (x%4, y%4) of block (x/4, y/4) |
| `Dxtc.WriteBlock` | DXTC.h:47-48 | writing a block sets exactly the pixels of that block that lie inside the image, to the texel at their position in the block, and leaves every other pixel unchanged |
| `Dxtc.DecodeBlockRow` | DXTC.h:53-56 | decoding a row of blocks sets every in-image pixel of its four pixel rows to its decoded value and leaves every other pixel unchanged |
| `Dxtc.Decompress` | DXTC.h:41-56 | bad arguments return the matching error and no raster; otherwise the result is a fresh raster of exactly w*h pixels, and pixel (x, y) is texel (x%4, y%4) of block (x/4, y/4) |

## Left out

- `calibratedColor:gammaCorrection:` and `DXTC_GAMMA_CORRECTION` (HighColor.h:53, DXTC.h:19) are not modelled. They use a floating-point power function and return the Cocoa `NSColor` type.
- `CGFloat` arithmetic is not modelled. `scale:` takes an exact rational factor, and the blend and interpolation are exact integer means rounded down. The implementation files are not part of this model, so their actual rounding and clamping are not visible; the choices above fix one.
- Building the `NSBitmapImageRep`, wrapping in `NSData`, and object lifecycle and reference counting are not modelled. The input is a byte sequence and the output is a fresh array of 32-bit RGBA words.
- Container or header parsing and mipmap chains are not modelled. The decoder takes exactly one headerless mip.
- Decoding blocks in parallel is not modelled. Blocks are decoded one after another, row by row.
