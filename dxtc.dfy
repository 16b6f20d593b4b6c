/** Decompression of one headerless mip level of DXT data into a row-major
    raster of 32-bit RGBA words, width * height of them with no padding.

    Blocks are stored row by row, ceil(width / 4) per row. Block (blockX, blockY)
    covers pixels (4 * blockX + col, 4 * blockY + row); of a partial block at the
    right or bottom edge only the pixels inside the image are written. */
module Dxtc {
  import opened Words
  import opened HighColors
  import opened DxtcBlocks

  datatype DecodeError = UnsupportedFormat | InvalidDimensions | InvalidBufferSize

  datatype Result<T> = Ok(value: T) | Err(error: DecodeError)

  /** The number of 4-pixel blocks that cover n pixels, ceil(n / 4). */
  function BlockCount(n: nat): (k: nat)
    ensures n <= 4 * k < n + 4
  {
    (n + 3) / 4
  }

  /** The exact byte length of a w x h image in format f: one whole record
      per 4x4 block. */
  function RequiredLength(w: nat, h: nat, f: Format): (n: nat)
    ensures n % BlockSize(f) == 0 && n / BlockSize(f) == BlockCount(w) * BlockCount(h)
  {
    DivModOf(BlockSize(f), BlockCount(w) * BlockCount(h), 0);
    BlockCount(w) * BlockCount(h) * BlockSize(f)
  }

  /** The checks made before any block is decoded: the format tag, then
      the dimensions, then the buffer length. */
  function CheckArguments(length: nat, w: nat, h: nat, tag: int): (r: Result<Format>)
    ensures r.Ok? <==> FormatOfTag(tag).Some? && w > 0 && h > 0 && length == RequiredLength(w, h, FormatOfTag(tag).value)
    ensures r.Ok? ==> Some(r.value) == FormatOfTag(tag)
    ensures r == Err(UnsupportedFormat) <==> !(1 <= tag <= 4)
    ensures r == Err(InvalidDimensions) <==> 1 <= tag <= 4 && (w == 0 || h == 0)
    ensures r == Err(InvalidBufferSize) <==> 1 <= tag <= 4 && w > 0 && h > 0 && length != RequiredLength(w, h, FormatOfTag(tag).value)
  {
    match FormatOfTag(tag)
    case None => Err(UnsupportedFormat)
    case Some(f) =>
      if w == 0 || h == 0 then Err(InvalidDimensions)
      else if length != RequiredLength(w, h, f) then Err(InvalidBufferSize)
      else Ok(f)
  }

  /** Where pixel (x, y) lies in the row-major raster. */
  function PixelIndex(w: nat, h: nat, x: nat, y: nat): (i: nat)
    requires x < w && y < h
    ensures i < w * h
    ensures i / w == y && i % w == x
  {
    MulLe(w, y + 1, h);
    DivModOf(w, y, x);
    y * w + x
  }

  /** Distinct pixels have distinct places in the raster. */
  lemma PixelIndexInjective(w: nat, h: nat, x0: nat, y0: nat)
    requires x0 < w && y0 < h
    ensures forall x: nat, y: nat | x < w && y < h && PixelIndex(w, h, x, y) == PixelIndex(w, h, x0, y0) :: x == x0 && y == y0
  {
    forall x: nat, y: nat | x < w && y < h && PixelIndex(w, h, x, y) == PixelIndex(w, h, x0, y0)
      ensures x == x0 && y == y0
    {
      DivModOf(w, y, x);
      DivModOf(w, y0, x0);
    }
  }

  /** Block (blockX, blockY) lies inside a buffer of the required length. */
  lemma BlockInSource(w: nat, h: nat, f: Format, blockX: nat, blockY: nat)
    requires blockX < BlockCount(w) && blockY < BlockCount(h)
    ensures (blockY * BlockCount(w) + blockX + 1) * BlockSize(f) <= RequiredLength(w, h, f)
  {
    var bw, bh := BlockCount(w), BlockCount(h);
    MulLe(bw, blockY + 1, bh);
    MulLe(BlockSize(f), blockY * bw + blockX + 1, bh * bw);
  }

  /** Where the record of block (blockX, blockY) starts: it is record
      number blockY * BlockCount(w) + blockX, counting row by row, and it
      ends inside a buffer of the required length. */
  function BlockOffset(w: nat, h: nat, f: Format, blockX: nat, blockY: nat): (o: nat)
    requires blockX < BlockCount(w) && blockY < BlockCount(h)
    ensures o % BlockSize(f) == 0 && o / BlockSize(f) == blockY * BlockCount(w) + blockX
    ensures o + BlockSize(f) <= RequiredLength(w, h, f)
  {
    BlockInSource(w, h, f, blockX, blockY);
    DivModOf(BlockSize(f), blockY * BlockCount(w) + blockX, 0);
    (blockY * BlockCount(w) + blockX) * BlockSize(f)
  }

  /** The bytes of block (blockX, blockY): its whole record and nothing else. */
  function BlockBytes(source: seq<Uint8>, w: nat, h: nat, f: Format, blockX: nat, blockY: nat): (b: seq<Uint8>)
    requires |source| == RequiredLength(w, h, f) && blockX < BlockCount(w) && blockY < BlockCount(h)
    ensures |b| == BlockSize(f)
    ensures forall j :: 0 <= j < BlockSize(f) ==> b[j] == source[BlockOffset(w, h, f, blockX, blockY) + j]
  {
    var offset := BlockOffset(w, h, f, blockX, blockY);
    source[offset..offset + BlockSize(f)]
  }

  /** The decoded pixel (x, y): texel (x % 4, y % 4) of block (x / 4, y / 4). */
  function Pixel(source: seq<Uint8>, w: nat, h: nat, f: Format, x: nat, y: nat): (p: Uint32)
    requires |source| == RequiredLength(w, h, f) && x < w && y < h
    ensures var block := BlockBytes(source, w, h, f, x / 4, y / 4);
      var i := 4 * (y % 4) + x % 4;
      var cb := ColorBlockOf(block, f);
      var c := ColorPalette(cb, f)[cb.Code(i)].rgb;
      Unpack(p) == Rgba(Expand5(c.R5()), Expand6(c.G6()), Expand5(c.B5()), TexelAlpha(block, f, i))
  {
    DecodeBlock(BlockBytes(source, w, h, f, x / 4, y / 4), f)[4 * (y % 4) + x % 4]
  }

  /** Decodes a headerless single-mip buffer. On bad arguments it returns the
      error the checks name and no raster; otherwise a fresh raster of
      exactly w * h pixels, every one of them decoded from its block. */
  method Decompress(source: seq<Uint8>, w: Uint32, h: Uint32, format: Uint32) returns (r: Result<array<Uint32>>)
    ensures r.Err? <==> CheckArguments(|source|, w, h, format).Err?
    ensures r.Err? ==> r.error == CheckArguments(|source|, w, h, format).error
    ensures r.Ok? ==>
      var f := CheckArguments(|source|, w, h, format).value;
      && fresh(r.value) && r.value.Length == w * h
      && forall x: nat, y: nat | x < w && y < h :: r.value[PixelIndex(w, h, x, y)] == Pixel(source, w, h, f, x, y)
  {
    var checked := CheckArguments(|source|, w, h, format);
    if checked.Err? {
      return Err(checked.error);
    }
    var f := checked.value;
    var out := new Uint32[w * h];
    var blockY := 0;
    while blockY < BlockCount(h)
      invariant 0 <= blockY <= BlockCount(h)
      invariant forall x: nat, y: nat | x < w && y < h && y / 4 < blockY ::
        out[PixelIndex(w, h, x, y)] == Pixel(source, w, h, f, x, y)
    {
      DecodeBlockRow(out, source, w, h, f, blockY);
      blockY := blockY + 1;
    }
    return Ok(out);
  }

  /** Decodes block row blockY, left to right: every pixel of rows
      4 * blockY to 4 * blockY + 3 that lies inside the image is set to its
      decoded value, and all other pixels keep theirs. */
  method DecodeBlockRow(out: array<Uint32>, source: seq<Uint8>, w: nat, h: nat, f: Format, blockY: nat)
    requires out.Length == w * h && |source| == RequiredLength(w, h, f) && blockY < BlockCount(h)
    modifies out
    ensures forall x: nat, y: nat | x < w && y < h ::
      out[PixelIndex(w, h, x, y)] ==
        if y / 4 == blockY then Pixel(source, w, h, f, x, y) else old(out[PixelIndex(w, h, x, y)])
  {
    var blockX := 0;
    while blockX < BlockCount(w)
      invariant 0 <= blockX <= BlockCount(w)
      invariant forall x: nat, y: nat | x < w && y < h ::
        out[PixelIndex(w, h, x, y)] ==
          if y / 4 == blockY && x / 4 < blockX then Pixel(source, w, h, f, x, y) else old(out[PixelIndex(w, h, x, y)])
    {
      var texels := DecodeBlock(BlockBytes(source, w, h, f, blockX, blockY), f);
      WriteBlock(out, w, h, blockX, blockY, texels);
      blockX := blockX + 1;
    }
  }

  /** Writes the sixteen texels of block (blockX, blockY) to the pixels of
      the block that lie inside the image, and nothing else: a partial block
      at the right or bottom edge is clipped. */
  method WriteBlock(out: array<Uint32>, w: nat, h: nat, blockX: nat, blockY: nat, texels: seq<Uint32>)
    requires out.Length == w * h && |texels| == 16
    modifies out
    ensures forall x: nat, y: nat | x < w && y < h ::
      out[PixelIndex(w, h, x, y)] ==
        if x / 4 == blockX && y / 4 == blockY then texels[4 * (y % 4) + x % 4] else old(out[PixelIndex(w, h, x, y)])
  {
    var row := 0;
    while row < 4
      invariant 0 <= row <= 4
      invariant forall x: nat, y: nat | x < w && y < h ::
        out[PixelIndex(w, h, x, y)] ==
          if x / 4 == blockX && y / 4 == blockY && y % 4 < row then texels[4 * (y % 4) + x % 4]
          else old(out[PixelIndex(w, h, x, y)])
    {
      var col := 0;
      while col < 4
        invariant 0 <= col <= 4
        invariant forall x: nat, y: nat | x < w && y < h ::
          out[PixelIndex(w, h, x, y)] ==
            if x / 4 == blockX && y / 4 == blockY && (y % 4 < row || (y % 4 == row && x % 4 < col)) then texels[4 * (y % 4) + x % 4]
            else old(out[PixelIndex(w, h, x, y)])
      {
        var x, y := 4 * blockX + col, 4 * blockY + row;
        if x < w && y < h {
          PixelIndexInjective(w, h, x, y);
          out[PixelIndex(w, h, x, y)] := texels[4 * row + col];
        }
        col := col + 1;
      }
      row := row + 1;
    }
  }
}
