/** Per-pixel texel decoding of the GX texture formats into packed RGBA words
    (the loops of make_textures), and the size guard that precedes them. */
module Texels {
  import opened Bits

  const FORMAT_PAL2: int := 0    // 2-bit palette index, four pixels per byte
  const FORMAT_PAL4: int := 1    // 4-bit palette index, two pixels per byte
  const FORMAT_PAL8: int := 2    // 8-bit palette index
  const FORMAT_A5I3: int := 4    // 3-bit palette index, 5-bit alpha level
  const FORMAT_DIRECT: int := 5  // 16-bit direct colour, bit 15 = transparent
  const FORMAT_A3I5: int := 6    // 5-bit palette index, 3-bit alpha level

  /** The fill word of a texture in a format the viewer cannot decode (memset 0x7F). */
  const UNKNOWN_FORMAT_PIXEL: U32 := 0x7F7F_7F7F

  /** A texture record, already in host byte order. */
  datatype Texture = Texture(format: U16, width: U16, height: U16, imageOfs: U32, opaqueFlag: U32)

  /** A palette record: where its 16-bit colour entries start in the texture data. */
  datatype Palette = Palette(entriesOfs: U32, count: U32)

  /** The floating-point alpha scaling of the source, `level / top * 255 * (matAlpha / 31)`
      truncated to an integer, as a parameter: (level, top, matAlpha) -> value.
      `top` is 1 for the on/off alpha of the palettised and direct formats,
      31 for A5I3 and 7 for A3I5. */
  type AlphaScale = (nat, nat, Byte) -> nat

  /** The only facts about the scaling the model relies on: level 0 gives 0, and
      at material alpha 31 (multiplier exactly 1.0) the full level gives 255. */
  predicate ExactAlphaFacts(scale: AlphaScale)
  {
    && (forall k: Byte :: scale(0, 1, k) == 0 && scale(0, 7, k) == 0 && scale(0, 31, k) == 0)
    && scale(1, 1, 31) == 255 && scale(7, 7, 31) == 255 && scale(31, 31, 31) == 255
  }

  // ---------------------------------------------------------------------------
  // Texel fields

  /** Pixel k (0..3) of a 2-bit texel byte: bits (k*2)..(k*2+1). */
  function Crumb(b: Byte, k: nat): (r: nat)
    requires k < 4
    ensures r < 4
  {
    (b / [1, 4, 16, 64][k]) % 4
  }

  /** Pixel k (0..1) of a 4-bit texel byte: bits (k*4)..(k*4+3). */
  function Nibble(b: Byte, k: nat): (r: nat)
    requires k < 2
    ensures r < 16
  {
    (b / [1, 16][k]) % 16
  }

  /** The four 2-bit indices of a byte, least significant first, are the byte. */
  lemma CrumbsReassemble(b: Byte)
    ensures b == Crumb(b, 0) + 4 * Crumb(b, 1) + 16 * Crumb(b, 2) + 64 * Crumb(b, 3)
  {
    var q1, q2, q3 := b / 4, b / 16, b / 64;
    assert q2 == q1 / 4 && q3 == q2 / 4 && q3 < 4;
    assert b == b % 4 + 4 * q1 && q1 == q1 % 4 + 4 * q2 && q2 == q2 % 4 + 4 * q3;
    assert Crumb(b, 0) == b % 4 && Crumb(b, 1) == q1 % 4;
    assert Crumb(b, 2) == q2 % 4 && Crumb(b, 3) == q3;
  }

  /** The two 4-bit indices of a byte, low nibble first, are the byte. */
  lemma NibblesReassemble(b: Byte)
    ensures b == Nibble(b, 0) + 16 * Nibble(b, 1)
  {
  }

  /** A5I3 splits an entry into a palette index (low 3 bits) and an alpha level (high 5 bits). */
  function A5I3Index(entry: Byte): (r: nat)
    ensures r < 8 && r == entry % 8
  {
    entry % 8
  }

  function A5I3Level(entry: Byte): (r: nat)
    ensures r <= 31
    ensures entry == A5I3Index(entry) + 8 * r
  {
    entry / 8
  }

  /** A3I5 splits an entry into a palette index (low 5 bits) and an alpha level (high 3 bits). */
  function A3I5Index(entry: Byte): (r: nat)
    ensures r < 32 && r == entry % 32
  {
    entry % 32
  }

  function A3I5Level(entry: Byte): (r: nat)
    ensures r <= 7
    ensures entry == A3I5Index(entry) + 32 * r
  {
    entry / 32
  }

  /** An RGB channel of a 15-bit colour: the 5-bit field at `shift`, widened to 8 bits by `<< 3`. */
  function Channel(col: U16, shift: nat): (r: nat)
    requires shift == 0 || shift == 5 || shift == 10
    ensures r <= 248 && r % 8 == 0
    ensures r / 8 == (col / (if shift == 0 then 1 else if shift == 5 then 32 else 1024)) % 32
  {
    ((col / (if shift == 0 then 1 else if shift == 5 then 32 else 1024)) % 32) * 8
  }

  // ---------------------------------------------------------------------------
  // Packed RGBA words: r | g << 8 | b << 16 | a << 24, in 32 bits

  function Pack(r: nat, g: nat, b: nat, a: nat): (c: U32)
    requires r < 0x100 && g < 0x100 && b < 0x100
  {
    Le32(r, g, b, a % 0x100)
  }

  function Red(c: U32): (r: Byte) { c % 0x100 }
  function Green(c: U32): (r: Byte) { (c / 0x100) % 0x100 }
  function Blue(c: U32): (r: Byte) { (c / 0x1_0000) % 0x100 }
  function Alpha(c: U32): (r: Byte) { c / 0x100_0000 }

  /** Packing then unpacking gives the channels back; only the low byte of the
      alpha value survives the shift into the top byte. */
  lemma PackUnpack(r: nat, g: nat, b: nat, a: nat)
    requires r < 0x100 && g < 0x100 && b < 0x100
    ensures Red(Pack(r, g, b, a)) == r && Green(Pack(r, g, b, a)) == g
    ensures Blue(Pack(r, g, b, a)) == b && Alpha(Pack(r, g, b, a)) == a % 0x100
  {
  }

  /** Unpacking then packing gives the word back. */
  lemma UnpackPack(c: U32)
    ensures Pack(Red(c), Green(c), Blue(c), Alpha(c)) == c
  {
    assert Alpha(c) % 0x100 == Alpha(c);
    assert Pack(Red(c), Green(c), Blue(c), Alpha(c))
           == Le32(c % 0x100, (c / 0x100) % 0x100, (c / 0x1_0000) % 0x100, c / 0x100_0000);
    Le32OfBytes(c);
  }

  /** A 15-bit colour and an alpha value as a packed word. */
  function ColourWord(col: U16, a: nat): (c: U32)
    ensures Red(c) == Channel(col, 0) && Green(c) == Channel(col, 5) && Blue(c) == Channel(col, 10)
    ensures Alpha(c) == a % 0x100
  {
    PackUnpack(Channel(col, 0), Channel(col, 5), Channel(col, 10), a);
    Pack(Channel(col, 0), Channel(col, 5), Channel(col, 10), a)
  }

  // ---------------------------------------------------------------------------
  // Where a pixel's texel lies and what it holds

  predicate IsPalettised(format: int)
  {
    format == FORMAT_PAL2 || format == FORMAT_PAL4 || format == FORMAT_PAL8 ||
    format == FORMAT_A5I3 || format == FORMAT_A3I5
  }

  predicate IsKnownFormat(format: int)
  {
    IsPalettised(format) || format == FORMAT_DIRECT
  }

  /** The offset (relative to the image) of the last byte read for pixel p. */
  function TexelByteOffset(format: int, p: nat): (r: nat)
  {
    if format == FORMAT_PAL2 then p / 4
    else if format == FORMAT_PAL4 then p / 2
    else if format == FORMAT_DIRECT then 2 * p + 1
    else p
  }

  /** The bytes pixel p of the image reads lie inside the texture data. */
  predicate TexelInBounds(tex: Texture, data: seq<Byte>, p: nat)
  {
    IsKnownFormat(tex.format) ==> tex.imageOfs + TexelByteOffset(tex.format, p) < |data|
  }

  /** The palette index of pixel p of a palettised texture. */
  function TexelIndex(tex: Texture, data: seq<Byte>, p: nat): (r: nat)
    requires IsPalettised(tex.format) && TexelInBounds(tex, data, p)
    ensures tex.format == FORMAT_PAL2 ==> r < 4
    ensures tex.format == FORMAT_PAL4 ==> r < 16
    ensures tex.format == FORMAT_PAL8 ==> r < 256
    ensures tex.format == FORMAT_A5I3 ==> r < 8
    ensures tex.format == FORMAT_A3I5 ==> r < 32
  {
    var base := tex.imageOfs;
    if tex.format == FORMAT_PAL2 then Crumb(data[base + p / 4], p % 4)
    else if tex.format == FORMAT_PAL4 then Nibble(data[base + p / 2], p % 2)
    else if tex.format == FORMAT_PAL8 then data[base + p]
    else if tex.format == FORMAT_A5I3 then A5I3Index(data[base + p])
    else A3I5Index(data[base + p])
  }

  /** The palette entry pixel p reads lies inside the texture data (the source
      does not check this: its palette-size test is commented out). */
  predicate PaletteInBounds(tex: Texture, pal: Palette, data: seq<Byte>, p: nat)
    requires TexelInBounds(tex, data, p)
  {
    IsPalettised(tex.format) ==> pal.entriesOfs + 2 * TexelIndex(tex, data, p) + 2 <= |data|
  }

  predicate PixelReadable(tex: Texture, pal: Palette, data: seq<Byte>, p: nat)
  {
    TexelInBounds(tex, data, p) && PaletteInBounds(tex, pal, data, p)
  }

  /** The alpha level of pixel p, out of AlphaTop(format) levels. */
  function AlphaTop(format: int): (r: nat)
    ensures r > 0
  {
    if format == FORMAT_A5I3 then 31 else if format == FORMAT_A3I5 then 7 else 1
  }

  /** The 15-bit colour word of a direct-colour pixel: bytes 2p and 2p+1, low byte first. */
  function DirectColour(tex: Texture, data: seq<Byte>, p: nat): (r: U16)
    requires tex.format == FORMAT_DIRECT && TexelInBounds(tex, data, p)
    ensures r % 0x100 == data[tex.imageOfs + 2 * p] && r / 0x100 == data[tex.imageOfs + 2 * p + 1]
  {
    Read16(data, tex.imageOfs + 2 * p)
  }

  function AlphaLevel(tex: Texture, data: seq<Byte>, p: nat): (r: nat)
    requires IsKnownFormat(tex.format) && TexelInBounds(tex, data, p)
    ensures r <= AlphaTop(tex.format)
  {
    if tex.format == FORMAT_A5I3 then A5I3Level(data[tex.imageOfs + p])
    else if tex.format == FORMAT_A3I5 then A3I5Level(data[tex.imageOfs + p])
    else if tex.format == FORMAT_DIRECT then (if DirectColour(tex, data, p) >= 0x8000 then 0 else 1)
    else if tex.opaqueFlag != 0 then 1
    else if TexelIndex(tex, data, p) == 0 then 0
    else 1
  }

  /** The colour entry `index` of a palette. */
  function PaletteColour(pal: Palette, data: seq<Byte>, index: nat): (r: U16)
    requires pal.entriesOfs + 2 * index + 2 <= |data|
  {
    Read16(data, pal.entriesOfs + 2 * index)
  }

  /** The 15-bit colour of pixel p: its palette entry, or its direct colour. */
  function PixelColour(tex: Texture, pal: Palette, data: seq<Byte>, p: nat): U16
    requires IsKnownFormat(tex.format) && PixelReadable(tex, pal, data, p)
  {
    if tex.format == FORMAT_DIRECT then DirectColour(tex, data, p)
    else PaletteColour(pal, data, TexelIndex(tex, data, p))
  }

  /** The packed RGBA word of pixel p: in a known format the three channels of its
      colour and its alpha level scaled by the material alpha; otherwise the fill word. */
  function DecodePixel(tex: Texture, pal: Palette, data: seq<Byte>, matAlpha: Byte, scale: AlphaScale, p: nat): (c: U32)
    requires PixelReadable(tex, pal, data, p)
    ensures !IsKnownFormat(tex.format) ==> c == UNKNOWN_FORMAT_PIXEL
    ensures IsKnownFormat(tex.format) ==>
              var col := PixelColour(tex, pal, data, p);
              && Red(c) == Channel(col, 0) && Green(c) == Channel(col, 5) && Blue(c) == Channel(col, 10)
              && Alpha(c) == scale(AlphaLevel(tex, data, p), AlphaTop(tex.format), matAlpha) % 0x100
  {
    if !IsKnownFormat(tex.format) then UNKNOWN_FORMAT_PIXEL
    else ColourWord(PixelColour(tex, pal, data, p), scale(AlphaLevel(tex, data, p), AlphaTop(tex.format), matAlpha))
  }

  /** Unknown formats give the fill word in every channel. */
  lemma UnknownFormatFill(tex: Texture, pal: Palette, data: seq<Byte>, matAlpha: Byte, scale: AlphaScale, p: nat)
    requires PixelReadable(tex, pal, data, p) && !IsKnownFormat(tex.format)
    ensures var c := DecodePixel(tex, pal, data, matAlpha, scale, p);
            Red(c) == 0x7F && Green(c) == 0x7F && Blue(c) == 0x7F && Alpha(c) == 0x7F
  {
  }

  /** The byte count of the unknown-format fill: `num_pixels * 4` in 32-bit unsigned
      arithmetic. It covers the whole image exactly while the image has fewer than 2^30
      pixels; from there on it wraps and covers only a part of the image, or none. */
  function FillLength(tex: Texture): (r: nat)
    ensures r < 0x1_0000_0000 && r % 4 == 0
    ensures r == 4 * (tex.width * tex.height) <==> tex.width * tex.height < 0x4000_0000
  {
    (4 * (tex.width * tex.height)) % 0x1_0000_0000
  }

  /** The fill of a 32768 x 32768 texture writes no byte at all, and that of a
      65535 x 65535 texture only 0x3FFE0001 pixels of its 0xFFFE0001. */
  lemma FillLengthWraps()
    ensures FillLength(Texture(3, 0x8000, 0x8000, 0, 0)) == 0
    ensures FillLength(Texture(3, 0xFFFF, 0xFFFF, 0x2_0000, 0)) == 4 * 0x3FFE_0001
  {
  }

  /** A direct-colour pixel with bit 15 set is fully transparent; at material
      alpha 31 a pixel is transparent exactly when bit 15 is set, and opaque otherwise. */
  lemma DirectColourAlpha(tex: Texture, pal: Palette, data: seq<Byte>, matAlpha: Byte, scale: AlphaScale, p: nat)
    requires ExactAlphaFacts(scale)
    requires tex.format == FORMAT_DIRECT && PixelReadable(tex, pal, data, p)
    ensures DirectColour(tex, data, p) >= 0x8000 ==> Alpha(DecodePixel(tex, pal, data, matAlpha, scale, p)) == 0
    ensures matAlpha == 31 ==>
              Alpha(DecodePixel(tex, pal, data, matAlpha, scale, p)) == if DirectColour(tex, data, p) >= 0x8000 then 0 else 0xFF
  {
    var col := DirectColour(tex, data, p);
    var level := AlphaLevel(tex, data, p);
    assert level == if col >= 0x8000 then 0 else 1;
    assert DecodePixel(tex, pal, data, matAlpha, scale, p) == ColourWord(col, scale(level, 1, matAlpha));
  }

  /** In the palettised formats 0-2, index 0 of a texture not flagged opaque is
      fully transparent; a texture flagged opaque at material alpha 31 gives
      opaque pixels only. */
  lemma PalettisedAlpha(tex: Texture, pal: Palette, data: seq<Byte>, matAlpha: Byte, scale: AlphaScale, p: nat)
    requires ExactAlphaFacts(scale)
    requires (tex.format == FORMAT_PAL2 || tex.format == FORMAT_PAL4 || tex.format == FORMAT_PAL8)
    requires PixelReadable(tex, pal, data, p)
    ensures tex.opaqueFlag == 0 && TexelIndex(tex, data, p) == 0 ==> Alpha(DecodePixel(tex, pal, data, matAlpha, scale, p)) == 0
    ensures tex.opaqueFlag != 0 && matAlpha == 31 ==> Alpha(DecodePixel(tex, pal, data, matAlpha, scale, p)) == 0xFF
  {
    var index := TexelIndex(tex, data, p);
    var level := AlphaLevel(tex, data, p);
    assert level == if tex.opaqueFlag != 0 then 1 else if index == 0 then 0 else 1;
    assert DecodePixel(tex, pal, data, matAlpha, scale, p) == ColourWord(PaletteColour(pal, data, index), scale(level, 1, matAlpha));
  }

  // ---------------------------------------------------------------------------
  // The texture-size guard

  /** The byte size of the texel data of `numPixels` pixels. */
  function TexSize(format: int, numPixels: nat): nat
  {
    if format == FORMAT_PAL2 then numPixels / 4
    else if format == FORMAT_PAL4 then numPixels / 2
    else if format == FORMAT_DIRECT then 2 * numPixels
    else numPixels
  }

  /** The size guard as written: `texsize` and `image_ofs + texsize` are computed in
      32-bit unsigned arithmetic, so both can wrap. True when the texture is rejected.
      Where the exact sum fits in 32 bits it decides as the intended guard does. */
  function TexSizeRejectsAsWritten(tex: Texture, datasize: U32): (r: bool)
    ensures tex.imageOfs + TexSize(tex.format, tex.width * tex.height) < 0x1_0000_0000 ==>
              (r <==> TexSizeRejects(tex, datasize))
  {
    NoWrap(tex);
    var numPixels := (tex.width * tex.height) % 0x1_0000_0000;
    var texsize := TexSize(tex.format, numPixels) % 0x1_0000_0000;
    (tex.imageOfs + texsize) % 0x1_0000_0000 > datasize
  }

  /** Where the exact sum fits in 32 bits, none of the guard's reductions changes a value. */
  lemma NoWrap(tex: Texture)
    ensures var n := tex.width * tex.height;
            var size := TexSize(tex.format, n);
            tex.imageOfs + size < 0x1_0000_0000 ==>
              && n % 0x1_0000_0000 == n
              && TexSize(tex.format, n % 0x1_0000_0000) % 0x1_0000_0000 == size
              && (tex.imageOfs + TexSize(tex.format, n % 0x1_0000_0000) % 0x1_0000_0000) % 0x1_0000_0000 == tex.imageOfs + size
  {
    var n := tex.width * tex.height;
    var size := TexSize(tex.format, n);
    if tex.imageOfs + size < 0x1_0000_0000 {
      PixelCountFits(tex.width, tex.height);
      SmallMod(n);
      SmallMod(size);
      SmallMod(tex.imageOfs + size);
    }
  }

  lemma SmallMod(x: nat)
    requires x < 0x1_0000_0000
    ensures x % 0x1_0000_0000 == x
  {
  }

  /** An 8-bit texture of 65535 x 65535 pixels whose data would start 0x20000 bytes in a
      buffer of 0x20001 bytes passes the guard as written, although its last pixel lies
      far beyond the buffer. */
  lemma TexSizeGuardWraps()
    ensures var tex := Texture(FORMAT_PAL8, 0xFFFF, 0xFFFF, 0x2_0000, 0);
            && !TexSizeRejectsAsWritten(tex, 0x2_0001)
            && tex.imageOfs + TexelByteOffset(tex.format, tex.width * tex.height - 1) >= 0x2_0001
  {
  }

  /** The size guard with the intended, non-wrapping arithmetic. For a texture of
      whole texel bytes it rejects exactly the textures whose last pixel reads a byte
      at or beyond `datasize`. */
  function TexSizeRejects(tex: Texture, datasize: nat): (r: bool)
    ensures WholeBytes(tex) && tex.width * tex.height > 0 ==>
              (r <==> tex.imageOfs + TexelByteOffset(tex.format, tex.width * tex.height - 1) >= datasize)
  {
    var n := tex.width * tex.height;
    LastTexelByte(tex.format, n);
    tex.imageOfs + TexSize(tex.format, n) > datasize
  }

  /** For whole texel bytes, the texel size is one past the last byte of the last pixel. */
  lemma LastTexelByte(format: int, n: nat)
    ensures n > 0 && (format == FORMAT_PAL2 ==> n % 4 == 0) && (format == FORMAT_PAL4 ==> n % 2 == 0) ==>
              TexSize(format, n) == TexelByteOffset(format, n - 1) + 1
  {
    if n == 0 {
    } else if format == FORMAT_PAL2 && n % 4 == 0 {
      assert n == 4 * (n / 4);
      assert n - 1 == 4 * (n / 4 - 1) + 3;
    } else if format == FORMAT_PAL4 && n % 2 == 0 {
      assert n == 2 * (n / 2);
      assert n - 1 == 2 * (n / 2 - 1) + 1;
    }
  }

  /** Pixel counts of the 2- and 4-bit formats fill whole bytes (the source reads
      one byte beyond `texsize` otherwise). */
  predicate WholeBytes(tex: Texture)
  {
    (tex.format == FORMAT_PAL2 ==> (tex.width * tex.height) % 4 == 0) &&
    (tex.format == FORMAT_PAL4 ==> (tex.width * tex.height) % 2 == 0)
  }

  /** A texture the intended guard accepts reads only bytes inside the texture data. */
  lemma GuardCoversTexels(tex: Texture, data: seq<Byte>, p: nat)
    requires WholeBytes(tex) && !TexSizeRejects(tex, |data|)
    requires p < tex.width * tex.height
    ensures TexelInBounds(tex, data, p)
  {
    var n := tex.width * tex.height;
    if tex.format == FORMAT_PAL2 {
      assert p / 4 < n / 4;
    } else if tex.format == FORMAT_PAL4 {
      assert p / 2 < n / 2;
    }
  }

  /** Width times height of a texture fits in the source's 32-bit pixel count. */
  lemma PixelCountFits(w: U16, h: U16)
    ensures w * h < 0x1_0000_0000
  {
    assert w * h <= 0xFFFF * h by { MulMono(w, 0xFFFF, h); }
    assert 0xFFFF * h <= 0xFFFF * 0xFFFF;
  }

  lemma MulMono(a: nat, b: nat, c: nat)
    requires a <= b
    ensures a * c <= b * c
  {
  }

}
