/** make_textures up to the texture upload: for each material, the checks on its
    texture and palette references, the decoding of its texels into an RGBA
    buffer, the decal pass, the scan for non-opaque alpha and the
    reclassification of the material's render mode. */
module Materials {
  import opened Bits
  import opened Texels
  import opened Wrappers

  // Render modes (RENDER_MODE); ALPHA_TEST is derived by the viewer, never stored in a file.
  const NORMAL: Byte := 0
  const DECAL: Byte := 1
  const TRANSLUCENT: Byte := 2
  const ALPHA_TEST: Byte := 3

  // Polygon modes (GXPolygonMode); only DECAL changes the decoded image.
  const POLYGON_MODE_MODULATE: U32 := 0
  const POLYGON_MODE_DECAL: U32 := 1
  const POLYGON_MODE_TOON: U32 := 2
  const POLYGON_MODE_SHADOW: U32 := 3

  /** Texture id of a material without a texture. */
  const NO_TEXTURE: U16 := 0xFFFF

  /** The fields of a material record of the file that make_textures reads. */
  datatype Material = Material(texid: U16, palid: U16, alpha: Byte, polygonMode: U32, renderMode: Byte)

  /** The decoded image handed to the texture upload. */
  datatype Image = Image(width: U16, height: U16, pixels: seq<U32>)

  /** A material of the scene: fields copied from the file by the loader, the render
      mode make_textures decides, and the uploaded image (the GL texture). */
  datatype SceneMaterial = SceneMaterial(texid: U16, alpha: Byte, polygonMode: U32, renderMode: Byte, image: Option<Image>)

  datatype SkipReason = NoTexture | BadTextureId | BadTexelOffset | BadPaletteOffset | BadTextureSize

  /** Whether a material's texture is decoded, and from which records. */
  datatype Admission = Decode(tex: Texture, pal: Palette) | Skip(reason: SkipReason)

  /** The source reads `palettes[palid]` for every material with a valid texture id. */
  predicate PaletteIdReadable(mat: Material, textures: seq<Texture>, palettes: seq<Palette>)
  {
    mat.texid != NO_TEXTURE && mat.texid < |textures| ==> mat.palid < |palettes|
  }

  /** The reference checks of make_textures, in the source's order. */
  function Admit(mat: Material, textures: seq<Texture>, palettes: seq<Palette>, datasize: U32): (r: Admission)
    requires PaletteIdReadable(mat, textures, palettes)
    ensures r.Decode? <==>
              && mat.texid != NO_TEXTURE && mat.texid < |textures|
              && textures[mat.texid].imageOfs < datasize
              && palettes[mat.palid].entriesOfs < datasize
              && !TexSizeRejectsAsWritten(textures[mat.texid], datasize)
    ensures r.Decode? ==> r.tex == textures[mat.texid] && r.pal == palettes[mat.palid]
    ensures mat.texid == NO_TEXTURE ==> r == Skip(NoTexture)
  {
    if mat.texid == NO_TEXTURE then Skip(NoTexture)
    else if mat.texid >= |textures| then Skip(BadTextureId)
    else
      var tex := textures[mat.texid];
      var pal := palettes[mat.palid];
      if tex.imageOfs >= datasize then Skip(BadTexelOffset)
      else if pal.entriesOfs >= datasize then Skip(BadPaletteOffset)
      else if TexSizeRejectsAsWritten(tex, datasize) then Skip(BadTextureSize)
      else Decode(tex, pal)
  }

  /** What make_textures needs of a material to stay inside the data: a 32-bit data
      size, a readable palette record and, for an admitted texture, whole texel bytes,
      a fill of an unknown format that covers the whole image, and texels and palette
      entries inside the data (the source checks none of the last four, and its size
      guard can wrap). */
  predicate Decodable(mat: Material, textures: seq<Texture>, palettes: seq<Palette>, data: seq<Byte>)
  {
    && |data| < 0x1_0000_0000
    && PaletteIdReadable(mat, textures, palettes)
    && match Admit(mat, textures, palettes, |data|)
       case Skip(_) => true
       case Decode(tex, pal) =>
         && WholeBytes(tex)
         && (!IsKnownFormat(tex.format) ==> FillLength(tex) == 4 * (tex.width * tex.height))
         && forall p :: 0 <= p < tex.width * tex.height ==> PixelReadable(tex, pal, data, p)
  }

  /** The image the per-format loops produce: one word per pixel, holding the channels
      of the pixel's colour and its scaled alpha level, or the fill word for a format
      the viewer cannot decode. */
  function DecodedPixels(tex: Texture, pal: Palette, data: seq<Byte>, matAlpha: Byte, scale: AlphaScale): (r: seq<U32>)
    requires forall p :: 0 <= p < tex.width * tex.height ==> PixelReadable(tex, pal, data, p)
    ensures |r| == tex.width * tex.height
    ensures forall p :: 0 <= p < |r| ==> r[p] == DecodePixel(tex, pal, data, matAlpha, scale, p)
    ensures !IsKnownFormat(tex.format) ==> forall p :: 0 <= p < |r| ==> r[p] == UNKNOWN_FORMAT_PIXEL
    ensures IsKnownFormat(tex.format) ==>
              forall p :: 0 <= p < |r| ==>
                var col := PixelColour(tex, pal, data, p);
                && Red(r[p]) == Channel(col, 0) && Green(r[p]) == Channel(col, 5) && Blue(r[p]) == Channel(col, 10)
                && Alpha(r[p]) == scale(AlphaLevel(tex, data, p), AlphaTop(tex.format), matAlpha) % 0x100
  {
    seq(tex.width * tex.height, p requires 0 <= p < tex.width * tex.height => DecodePixel(tex, pal, data, matAlpha, scale, p))
  }

  /** A pixel of the decal pass: its RGB bytes, with the full alpha level scaled by the material alpha. */
  function DecalPixel(c: U32, matAlpha: Byte, scale: AlphaScale): (r: U32)
    ensures Red(r) == Red(c) && Green(r) == Green(c) && Blue(r) == Blue(c)
    ensures Alpha(r) == scale(1, 1, matAlpha) % 0x100
  {
    PackUnpack(Red(c), Green(c), Blue(c), scale(1, 1, matAlpha));
    Pack(Red(c), Green(c), Blue(c), scale(1, 1, matAlpha))
  }

  /** The image after the polygon-mode pass: decal mode keeps every pixel's colour and
      gives all pixels one common alpha; every other mode leaves the image as it is. */
  function WithPolygonMode(img: seq<U32>, polygonMode: U32, matAlpha: Byte, scale: AlphaScale): (r: seq<U32>)
    ensures |r| == |img|
    ensures polygonMode != POLYGON_MODE_DECAL ==> r == img
    ensures polygonMode == POLYGON_MODE_DECAL ==>
              forall p :: 0 <= p < |r| ==>
                && Red(r[p]) == Red(img[p]) && Green(r[p]) == Green(img[p]) && Blue(r[p]) == Blue(img[p])
                && Alpha(r[p]) == scale(1, 1, matAlpha) % 0x100
  {
    if polygonMode == POLYGON_MODE_DECAL then seq(|img|, p requires 0 <= p < |img| => DecalPixel(img[p], matAlpha, scale))
    else img
  }

  /** Some pixel's alpha byte is not 0xFF. */
  predicate HasTranslucent(img: seq<U32>)
  {
    exists p :: 0 <= p < |img| && Alpha(img[p]) != 0xFF
  }

  /** Formats whose transparency is all-or-nothing, so alpha testing renders them exactly. */
  predicate IsHardEdged(format: int)
  {
    format == FORMAT_PAL2 || format == FORMAT_PAL4 || format == FORMAT_PAL8 || format == FORMAT_DIRECT
  }

  /** The render-mode decision after decoding, step by step as the source takes it. The
      postconditions give the same decision as a table of cases. */
  function Classify(fileMode: Byte, matAlpha: Byte, translucent: bool, format: U16): (r: Byte)
    ensures !translucent ==> r == NORMAL
    ensures translucent && matAlpha < 31 ==> r == TRANSLUCENT
    ensures translucent && matAlpha >= 31 && fileMode == NORMAL ==> r == ALPHA_TEST
    ensures translucent && matAlpha == 31 && fileMode == TRANSLUCENT && IsHardEdged(format) ==> r == ALPHA_TEST
    ensures (translucent && matAlpha >= 31 && fileMode != NORMAL
             && !(fileMode == TRANSLUCENT && matAlpha == 31 && IsHardEdged(format))) ==> r == fileMode
  {
    var forced := if matAlpha < 31 then TRANSLUCENT else fileMode;
    var checked := if forced != NORMAL then (if !translucent then NORMAL else forced)
                   else if translucent then ALPHA_TEST
                   else forced;
    if checked == TRANSLUCENT && matAlpha == 31 && IsHardEdged(format) then ALPHA_TEST else checked
  }

  /** Re-applying the decision to its own outcome, with the same inputs, changes nothing. */
  lemma ClassifyIdempotent(fileMode: Byte, matAlpha: Byte, translucent: bool, format: U16)
    ensures Classify(Classify(fileMode, matAlpha, translucent, format), matAlpha, translucent, format)
            == Classify(fileMode, matAlpha, translucent, format)
  {
  }

  /** The scene material after make_textures has handled it. */
  function Outcome(sm: SceneMaterial, mat: Material, textures: seq<Texture>, palettes: seq<Palette>,
                   data: seq<Byte>, scale: AlphaScale): (r: SceneMaterial)
    requires Decodable(mat, textures, palettes, data)
    ensures r.texid == sm.texid && r.alpha == sm.alpha && r.polygonMode == sm.polygonMode
  {
    match Admit(mat, textures, palettes, |data|)
    case Skip(_) => sm.(renderMode := mat.renderMode)
    case Decode(tex, pal) =>
      var pixels := WithPolygonMode(DecodedPixels(tex, pal, data, mat.alpha, scale), mat.polygonMode, mat.alpha, scale);
      sm.(renderMode := Classify(mat.renderMode, mat.alpha, HasTranslucent(pixels), tex.format),
          image := Some(Image(tex.width, tex.height, pixels)))
  }

  // ---------------------------------------------------------------------------
  // The passes over the image buffer

  /** The per-format decoding loops, filling the buffer pixel by pixel. */
  method DecodeTexels(image: array<U32>, tex: Texture, pal: Palette, data: seq<Byte>, matAlpha: Byte, scale: AlphaScale)
    requires image.Length == tex.width * tex.height
    requires forall p :: 0 <= p < tex.width * tex.height ==> PixelReadable(tex, pal, data, p)
    modifies image
    ensures image[..] == DecodedPixels(tex, pal, data, matAlpha, scale)
  {
    var p := 0;
    while p < image.Length
      invariant 0 <= p <= image.Length
      invariant forall q :: 0 <= q < p ==> image[q] == DecodePixel(tex, pal, data, matAlpha, scale, q)
    {
      image[p] := DecodePixel(tex, pal, data, matAlpha, scale, p);
      p := p + 1;
    }
  }

  /** The polygon-mode switch: the decal loop rewrites every pixel's alpha. */
  method ApplyPolygonMode(image: array<U32>, polygonMode: U32, matAlpha: Byte, scale: AlphaScale)
    modifies image
    ensures image[..] == WithPolygonMode(old(image[..]), polygonMode, matAlpha, scale)
  {
    if polygonMode == POLYGON_MODE_DECAL {
      var p := 0;
      while p < image.Length
        invariant 0 <= p <= image.Length
        invariant forall q :: 0 <= q < p ==> image[q] == DecalPixel(old(image[q]), matAlpha, scale)
        invariant forall q :: p <= q < image.Length ==> image[q] == old(image[q])
      {
        image[p] := DecalPixel(image[p], matAlpha, scale);
        p := p + 1;
      }
    }
  }

  /** The translucency scan: stops at the first alpha byte that is not 0xFF. */
  method ScanTranslucent(image: array<U32>) returns (translucent: bool)
    ensures translucent <==> HasTranslucent(image[..])
  {
    translucent := false;
    var p := 0;
    while p < image.Length
      invariant 0 <= p <= image.Length
      invariant forall q :: 0 <= q < p ==> Alpha(image[q]) == 0xFF
    {
      if Alpha(image[p]) != 0xFF {
        translucent := true;
        break;
      }
      p := p + 1;
    }
  }

  /** The body of make_textures for one material: the file render mode first, then,
      when the texture passes the checks, the decoded image and the reclassified mode. */
  method MakeTexture(sm: SceneMaterial, mat: Material, textures: seq<Texture>, palettes: seq<Palette>,
                     data: seq<Byte>, scale: AlphaScale) returns (r: SceneMaterial)
    requires Decodable(mat, textures, palettes, data)
    ensures r == Outcome(sm, mat, textures, palettes, data, scale)
  {
    r := sm.(renderMode := mat.renderMode);
    var admission := Admit(mat, textures, palettes, |data|);
    if admission.Decode? {
      var tex, pal := admission.tex, admission.pal;
      var image := new U32[tex.width * tex.height];
      DecodeTexels(image, tex, pal, data, mat.alpha, scale);
      ApplyPolygonMode(image, mat.polygonMode, mat.alpha, scale);
      var translucent := ScanTranslucent(image);
      r := r.(renderMode := Classify(r.renderMode, mat.alpha, translucent, tex.format),
              image := Some(Image(tex.width, tex.height, image[..])));
    }
  }

  /** make_textures: every scene material gets its file render mode, and a material
      whose texture passes the checks gets its decoded image and reclassified mode. */
  method MakeTextures(materials: array<SceneMaterial>, raw: seq<Material>, textures: seq<Texture>,
                      palettes: seq<Palette>, data: seq<Byte>, scale: AlphaScale)
    requires materials.Length == |raw|
    requires forall m :: 0 <= m < |raw| ==> Decodable(raw[m], textures, palettes, data)
    modifies materials
    ensures forall m :: 0 <= m < materials.Length ==>
              materials[m] == Outcome(old(materials[m]), raw[m], textures, palettes, data, scale)
  {
    var m := 0;
    while m < materials.Length
      invariant 0 <= m <= materials.Length
      invariant forall k :: 0 <= k < m ==> materials[k] == Outcome(old(materials[k]), raw[k], textures, palettes, data, scale)
      invariant forall k :: m <= k < materials.Length ==> materials[k] == old(materials[k])
    {
      materials[m] := MakeTexture(materials[m], raw[m], textures, palettes, data, scale);
      m := m + 1;
    }
  }

  // ---------------------------------------------------------------------------
  // Properties of the outcome

  /** A material whose texture reference fails a check keeps its file render mode and gets no new image. */
  lemma SkippedKeepsFileMode(sm: SceneMaterial, mat: Material, textures: seq<Texture>, palettes: seq<Palette>,
                             data: seq<Byte>, scale: AlphaScale)
    requires Decodable(mat, textures, palettes, data)
    requires mat.texid == NO_TEXTURE || mat.texid >= |textures|
             || textures[mat.texid].imageOfs >= |data| || palettes[mat.palid].entriesOfs >= |data|
             || TexSizeRejectsAsWritten(textures[mat.texid], |data|)
    ensures Outcome(sm, mat, textures, palettes, data, scale) == sm.(renderMode := mat.renderMode)
  {
  }

  /** The texture of the wrapping size guard: admitted in 0x20001 bytes of data, yet its
      last texel lies beyond them, so no material using it is decodable. */
  lemma WrappedTextureNotDecodable(data: seq<Byte>)
    requires |data| == 0x2_0001
    ensures var tex := Texture(FORMAT_PAL8, 0xFFFF, 0xFFFF, 0x2_0000, 0);
            var mat := Material(0, 0, 31, POLYGON_MODE_MODULATE, NORMAL);
            && Admit(mat, [tex], [Palette(0, 0)], |data|) == Decode(tex, Palette(0, 0))
            && !Decodable(mat, [tex], [Palette(0, 0)], data)
  {
    var tex := Texture(FORMAT_PAL8, 0xFFFF, 0xFFFF, 0x2_0000, 0);
    TexSizeGuardWraps();
    assert !PixelReadable(tex, Palette(0, 0), data, 0xFFFF * 0xFFFF - 1);
  }

  /** For an admitted texture of an unknown format, the fill's 32-bit byte count is four
      bytes for every pixel of the decoded image, so every pixel holds the fill word. */
  lemma UnknownFillCoversImage(mat: Material, textures: seq<Texture>, palettes: seq<Palette>,
                               data: seq<Byte>, scale: AlphaScale)
    requires Decodable(mat, textures, palettes, data)
    requires Admit(mat, textures, palettes, |data|).Decode?
    requires !IsKnownFormat(textures[mat.texid].format)
    ensures var tex, pal := textures[mat.texid], palettes[mat.palid];
            var image := DecodedPixels(tex, pal, data, mat.alpha, scale);
            && FillLength(tex) == 4 * |image|
            && forall p :: 0 <= p < |image| ==> image[p] == UNKNOWN_FORMAT_PIXEL
  {
  }

  /** A texture without pixels has no translucent pixel, so its material is NORMAL even
      when the material alpha is below 31. */
  lemma EmptyTextureIsNormal(sm: SceneMaterial, mat: Material, textures: seq<Texture>, palettes: seq<Palette>,
                             data: seq<Byte>, scale: AlphaScale)
    requires Decodable(mat, textures, palettes, data)
    requires Admit(mat, textures, palettes, |data|).Decode?
    requires textures[mat.texid].width == 0
    ensures Outcome(sm, mat, textures, palettes, data, scale).renderMode == NORMAL
  {
    var tex, pal := textures[mat.texid], palettes[mat.palid];
    var pixels := WithPolygonMode(DecodedPixels(tex, pal, data, mat.alpha, scale), mat.polygonMode, mat.alpha, scale);
    assert |pixels| == 0;
    assert !HasTranslucent(pixels);
  }

  /** A palettised texture (formats 0-2) flagged opaque, on a material of alpha 31, is NORMAL
      whatever the file says, in every polygon mode. */
  lemma OpaqueTextureAtFullAlphaIsNormal(sm: SceneMaterial, mat: Material, textures: seq<Texture>,
                                         palettes: seq<Palette>, data: seq<Byte>, scale: AlphaScale)
    requires ExactAlphaFacts(scale)
    requires Decodable(mat, textures, palettes, data)
    requires Admit(mat, textures, palettes, |data|).Decode?
    requires mat.alpha == 31
    requires var tex := textures[mat.texid];
             (tex.format == FORMAT_PAL2 || tex.format == FORMAT_PAL4 || tex.format == FORMAT_PAL8) && tex.opaqueFlag != 0
    ensures Outcome(sm, mat, textures, palettes, data, scale).renderMode == NORMAL
  {
    var tex, pal := textures[mat.texid], palettes[mat.palid];
    var decoded := DecodedPixels(tex, pal, data, mat.alpha, scale);
    var pixels := WithPolygonMode(decoded, mat.polygonMode, mat.alpha, scale);
    forall p | 0 <= p < |pixels|
      ensures Alpha(pixels[p]) == 0xFF
    {
      PalettisedAlpha(tex, pal, data, mat.alpha, scale, p);
    }
    assert !HasTranslucent(pixels);
  }

  /** A pixel of palette index 0 in a texture of formats 0-2 not flagged opaque makes the
      material non-NORMAL (unless decal mode overrides every alpha): TRANSLUCENT below
      alpha 31, ALPHA_TEST when the file said NORMAL. */
  lemma TransparentTexelIsNotNormal(sm: SceneMaterial, mat: Material, textures: seq<Texture>,
                                    palettes: seq<Palette>, data: seq<Byte>, scale: AlphaScale, p: nat)
    requires ExactAlphaFacts(scale)
    requires Decodable(mat, textures, palettes, data)
    requires Admit(mat, textures, palettes, |data|).Decode?
    requires mat.polygonMode != POLYGON_MODE_DECAL
    requires var tex := textures[mat.texid];
             && (tex.format == FORMAT_PAL2 || tex.format == FORMAT_PAL4 || tex.format == FORMAT_PAL8)
             && tex.opaqueFlag == 0
             && p < tex.width * tex.height
             && PixelReadable(tex, palettes[mat.palid], data, p)
             && TexelIndex(tex, data, p) == 0
    ensures var mode := Outcome(sm, mat, textures, palettes, data, scale).renderMode;
            && mode != NORMAL
            && (mat.alpha < 31 ==> mode == TRANSLUCENT)
            && (mat.alpha >= 31 && mat.renderMode == NORMAL ==> mode == ALPHA_TEST)
  {
    var tex, pal := textures[mat.texid], palettes[mat.palid];
    var pixels := DecodedPixels(tex, pal, data, mat.alpha, scale);
    PalettisedAlpha(tex, pal, data, mat.alpha, scale, p);
    assert Alpha(pixels[p]) == 0;
    assert HasTranslucent(pixels);
  }

  /** In decal mode at material alpha 31 every pixel is opaque, so the material is NORMAL. */
  lemma DecalAtFullAlphaIsNormal(sm: SceneMaterial, mat: Material, textures: seq<Texture>,
                                 palettes: seq<Palette>, data: seq<Byte>, scale: AlphaScale)
    requires ExactAlphaFacts(scale)
    requires Decodable(mat, textures, palettes, data)
    requires Admit(mat, textures, palettes, |data|).Decode?
    requires mat.polygonMode == POLYGON_MODE_DECAL && mat.alpha == 31
    ensures Outcome(sm, mat, textures, palettes, data, scale).renderMode == NORMAL
  {
    var tex, pal := textures[mat.texid], palettes[mat.palid];
    var pixels := WithPolygonMode(DecodedPixels(tex, pal, data, mat.alpha, scale), mat.polygonMode, mat.alpha, scale);
    DecalIsOpaque(DecodedPixels(tex, pal, data, mat.alpha, scale), scale);
    assert Outcome(sm, mat, textures, palettes, data, scale).renderMode
           == Classify(mat.renderMode, mat.alpha, HasTranslucent(pixels), tex.format);
  }

  /** The decal pass at material alpha 31 leaves no translucent pixel. */
  lemma DecalIsOpaque(img: seq<U32>, scale: AlphaScale)
    requires ExactAlphaFacts(scale)
    ensures !HasTranslucent(WithPolygonMode(img, POLYGON_MODE_DECAL, 31, scale))
  {
    var pixels := WithPolygonMode(img, POLYGON_MODE_DECAL, 31, scale);
    assert scale(1, 1, 31) == 255;
    forall p | 0 <= p < |pixels|
      ensures Alpha(pixels[p]) == 0xFF
    {
    }
  }
}
