# mph-viewer scene loading, modelled in Dafny

This project models the core of `src/model.c` from mph-viewer, a viewer for the
room and object models of Metroid Prime Hunters. The modelled parts are how a scene
file's tables become a drawable scene:

- **Texture decoding and render-mode classification** (`make_textures`).
  Each material's texture and palette references are checked. Its texels are
  decoded from the GX formats (2, 4 and 8-bit palettised, A5I3, A3I5, direct
  colour) into packed RGBA words, and decal mode rewrites their alpha. The
  material's render mode is then reclassified from the alpha values it finds
  (`Texels`, `Materials`).
- **The display-list interpreter** (`do_dlist`, `do_reg`, `update_bounds`).
  A header word packs four register selectors. After it come the operand words
  of those registers. The interpreter emits geometry, which is modelled as a
  trace of events, and widens a scene-wide bounding box (`Bounds`,
  `DisplayList`).
- **The loader's tables** (`CModel_load`, `build_meshes`). The mesh scan
  counts the mesh records up to the end of the scene data. The display-list
  count is the largest display-list id plus one. The handle table starts at
  -1, and `build_meshes` compiles each display list at most once. Node records
  are decoded with their `(s16)` links. The room node is found by name
  (`Loader`, `Nodes`).
- **The layer filter** (`CModel_filter_nodes`). It disables nodes whose
  `_ml0`/`_ml1`/`_mpu`/`_ctf`/`_sNN` name tags select none of the requested
  layers (`LayerFilter`).
- **The node-transform traversal** (`CModel_compute_node_matrices`). It walks
  first-child/next-sibling links, writes every node's world matrix in place,
  and recentres a node only after its child subtree (`NodeTransforms`).

Conventions:

- Numbers in the file are little-endian. The byte-swapping helpers
  (`get16bit_LE`, `get32bit_LE`) are modelled as assembling bytes, least
  significant first, into `U16`/`U32`. These are integer subset types, and
  fields are taken out with `/` and `%`.
- Vertex coordinates are exact integers in 1/4096 units. All the vertex forms
  produce multiples of that unit. `FLT_MAX` is the exact integer
  (2^24 - 1) · 2^104 · 4096.
- The layer filter's flag words, the layer mask and the `LAYER_*` values are
  32-bit words. Each one is modelled as the set of the positions of its 1 bits:
  `|` is union, `&` is intersection, and `<<`/`>>` move positions and drop
  those outside 0..31. This is exact for 32-bit words.
- `LAYER_ML0`, `LAYER_ML1`, `LAYER_MPU` and `LAYER_CTF` are defined outside
  `model.c`, so they are parameters (`LayerFilter.LayerBits`).
- World matrices are symbolic (`Nodes.Mtx`): a matrix is a free term built from
  local matrices, translations and `Concat`, which records the order of
  composition and nothing of the arithmetic. Two terms are equal only when they
  are built alike.
- OpenGL is modelled by what the scene keeps of it:
  - a display list's compiled content is the trace of events its
    interpretation emits;
  - `glGenLists` names are 1, 2, 3, … in compilation order;
  - the uploaded texture is the decoded image.

The model follows the code where its behaviour is easy to mistake:

- The bounding box of the vertices (0,0,0), (5,2,-3), (-1,4,1) is not minimum
  (-1, 0, -3) and maximum (5, 4, 1), as one would expect. The code gives minimum
  (-1, 0, -1) and maximum (5, 4, -FLT_MAX). The else-if never updates a maximum
  together with a minimum, and the z minimum is assigned the x coordinate
  (`Bounds.ThreeVertexExample`).
- A name such as `room_ml0` is never filtered. The segment loop stops at once
  because the name does not start with `_` (`LayerFilter.PlainNamesKept`).
- The operand words a display list's last registers read may lie beyond its
  `size` bytes. The code reads them from the following scene data, and so does
  the model. Only a read past the end of the scene data is a fault (`Overrun`).

## Model

| member | source | states |
|---|---|---|
| Bits.Le16 | src/model.c:780 | the low byte comes first: the value's low and high bytes are the two bytes |
| Bits.Le32 | src/model.c:1083 | a little-endian assembly gives back each of its four bytes by `%` and `/` |
| Bits.Le32OfBytes | src/model.c:1083 | every 32-bit word is the little-endian assembly of its own four bytes |
| Bits.Read32 | src/model.c:1083 | a little-endian 32-bit field: its four bytes, from least to most significant, are the four bytes at the offset in order |
| Bits.SignExtend10 | src/model.c:465-467 | sign-extending a 10-bit field gives a value in -512..511 that is the field again modulo 2^10, negative exactly when bit 9 is set |
| Bits.SignExtend16 | src/model.c:475-476 | the same for 16-bit fields and the `(s16)` cast: -32768..32767, the field modulo 2^16, negative exactly when bit 15 is set |
| Bits.SignExtend32 | src/model.c:1085-1087 | the `(fx32)` cast is the signed 32-bit value congruent to the word |
| Bits.High16 | src/model.c:484-485 | a word is its low half plus 2^16 times its high half |
| Bits.Field10Slices | src/model.c:464-467 | the three 10-bit fields and the two top bits are disjoint slices that reassemble the word |
| Bits.NoLinkIsMinusOne | src/model.c:1078-1080 | the `(s16)` of 0xFFFF is -1 |
| Texels.CrumbsReassemble | src/model.c:733-734 | the four 2-bit indices of a byte, least significant first, are the byte |
| Texels.NibblesReassemble | src/model.c:745-746 | the two 4-bit indices of a byte, low nibble first, are the byte |
| Texels.A5I3Level | src/model.c:768-774 | an A5I3 entry is its 3-bit palette index plus 8 times its 5-bit alpha level |
| Texels.A3I5Level | src/model.c:790-796 | an A3I5 entry is its 5-bit palette index plus 32 times its 3-bit alpha level |
| Texels.Channel | src/model.c:736-738 | a colour channel is the 5-bit field at bit 0, 5 or 10 shifted left by 3: at most 248, a multiple of 8 |
| Texels.PackUnpack | src/model.c:740 | packing r, g, b, a into a word and reading the bytes back gives r, g, b and the low byte of a |
| Texels.UnpackPack | src/model.c:811-816 | reading a word's four bytes and packing them gives the word back |
| Texels.ColourWord | src/model.c:736-740 | the packed word of a 15-bit colour has the colour's three channels and the alpha's low byte |
| Texels.TexelIndex | src/model.c:733-734 | the palette index of a pixel is below the format's palette size (4, 16, 256, 8 or 32) |
| Texels.DirectColour | src/model.c:780 | a direct-colour pixel is bytes 2p and 2p+1 of the image, low byte first |
| Texels.AlphaLevel | src/model.c:739 | a pixel's alpha level never exceeds its format's top level |
| Texels.DecodePixel | src/model.c:730-803 | every known format decodes a pixel to the three channels of its palette entry, or of its direct colour, and to the scaled alpha level of its format; an unknown format gives the 0x7F fill word (the model decodes only textures whose fill covers the image; see `Texels.FillLength`) |
| Texels.UnknownFormatFill | src/model.c:799-803 | a pixel the fill reaches holds 0x7F in every byte |
| Texels.FillLength | src/model.c:802 | the fill's byte count `num_pixels * 4` is computed modulo 2^32: it is four bytes per pixel exactly when the image has fewer than 2^30 pixels |
| Texels.FillLengthWraps | src/model.c:802 | a 32768 × 32768 texture gets no fill at all, and a 65535 × 65535 texture only 0x3FFE0001 filled pixels |
| Texels.DirectColourAlpha | src/model.c:784 | a direct-colour pixel with bit 15 set is transparent; at material alpha 31 it is opaque exactly when bit 15 is clear |
| Texels.PalettisedAlpha | src/model.c:739 | in formats 0-2, index 0 of a texture not flagged opaque is transparent; a texture flagged opaque is opaque at material alpha 31 |
| Texels.TexSizeGuardWraps | src/model.c:705-718 | the guard as written accepts a 65535×65535 8-bit texture in a 0x20001-byte buffer, because its 32-bit sum wraps |
| Texels.GuardCoversTexels | src/model.c:705-718 | a texture the intended guard accepts reads only bytes inside the texture data |
| Texels.TexSizeRejectsAsWritten | src/model.c:705-718 | the guard as written, in 32-bit arithmetic; where the exact sum fits in 32 bits it decides as the intended guard does |
| Texels.TexSizeRejects | src/model.c:705-718 | the intended guard rejects a texture of whole texel bytes exactly when its last pixel reads a byte at or beyond the data size |
| Texels.LastTexelByte | src/model.c:705-713 | for whole texel bytes, the texel size is one past the last byte the last pixel reads |
| Texels.PixelCountFits | src/model.c:705 | width times height of a texture fits the 32-bit pixel count |
| Materials.Admit | src/model.c:683-718 | a material's texture is decoded exactly when its id is set and in range, both offsets lie inside the data and the 32-bit size guard as written accepts it; it is then decoded from its own texture and palette records |
| Materials.DecodedPixels | src/model.c:730-803 | the image has width × height pixels; in a known format each holds the three channels of its own palette entry or direct colour and its scaled alpha level, and in an unknown one the 0x7F fill word, for a texture whose fill covers the image |
| Materials.UnknownFillCoversImage | src/model.c:799-803 | for an admitted decodable texture of an unknown format, the 32-bit fill length is four bytes for every pixel of the image, and every pixel is the fill word |
| Materials.WrappedTextureNotDecodable | src/model.c:705-733 | the texture that the wrapping guard admits in 0x20001 bytes reads beyond them, so no material using it is decodable |
| Materials.DecalPixel | src/model.c:811-816 | a decal pixel keeps its RGB bytes and takes the full level scaled by the material alpha |
| Materials.WithPolygonMode | src/model.c:806-826 | decal mode keeps every pixel's colour and gives all pixels one alpha; every other mode leaves the image unchanged |
| Materials.Classify | src/model.c:837-863 | the render-mode decision as a case table: NORMAL without translucent pixels; with them, TRANSLUCENT below alpha 31, and at alpha 31 or above ALPHA_TEST for a NORMAL file mode or for a TRANSLUCENT one at exactly 31 on formats 0, 1, 2, 5, else the file's mode |
| Materials.ClassifyIdempotent | src/model.c:837-863 | re-applying the decision to its own outcome changes nothing |
| Materials.Outcome | src/model.c:680-863 | make_textures changes only a material's render mode and image |
| Materials.DecodeTexels | src/model.c:730-803 | the buffer after the format loops is the decoded image |
| Materials.ApplyPolygonMode | src/model.c:805-826 | the buffer after the polygon-mode switch is the image with the polygon mode applied |
| Materials.ScanTranslucent | src/model.c:828-836 | the scan reports a translucent image exactly when some pixel's alpha byte is not 0xFF |
| Materials.MakeTexture | src/model.c:680-862 | the work on one material yields that material's outcome |
| Materials.MakeTextures | src/model.c:677-863 | every scene material ends as the outcome of its own material record |
| Materials.SkippedKeepsFileMode | src/model.c:682-718 | a material whose texture fails a check keeps its file render mode and gets no image |
| Materials.EmptyTextureIsNormal | src/model.c:829-844 | a texture without pixels makes its material NORMAL, even below alpha 31 |
| Materials.OpaqueTextureAtFullAlphaIsNormal | src/model.c:739-863 | an opaque-flagged palettised texture at alpha 31 makes its material NORMAL in every polygon mode |
| Materials.TransparentTexelIsNotNormal | src/model.c:739-850 | a transparent index-0 pixel makes its material non-NORMAL: TRANSLUCENT below alpha 31, ALPHA_TEST when the file said NORMAL |
| Materials.DecalAtFullAlphaIsNormal | src/model.c:809-844 | decal mode at alpha 31 makes the material NORMAL |
| Materials.DecalIsOpaque | src/model.c:809-818 | the decal pass at alpha 31 leaves no translucent pixel |
| Bounds.UpdateBounds | src/model.c:417-434 | each axis changes at most one of its minimum and maximum; the x and y minima become true minima; a maximum rises only when the coordinate did not lower the minimum; the z minimum is compared with z but takes x |
| Bounds.FirstVertexSetsOnlyMinima | src/model.c:417-434 | from the initial box, the first vertex sets only the minima, and z's to the x coordinate |
| Bounds.MinimumZCanGrow | src/model.c:429-430 | the z "minimum" can increase |
| Bounds.ThreeVertexExample | src/model.c:417-434 | (0,0,0), (5,2,-3), (-1,4,1) give minimum (-1,0,-1) and maximum (5,4,-FLT_MAX) |
| Bounds.AccumulateMinX | src/model.c:419-423 | over any vertex sequence, the x minimum is the least of the start value and every x, and no maximum decreases |
| DisplayList.Selector | src/model.c:620-624 | a register selector is one byte of the header |
| DisplayList.ShiftedSelector | src/model.c:623-624 | shifting the header right by 8 bits each round walks the selectors, least significant first |
| DisplayList.SelectorsReassemble | src/model.c:620-624 | the four selectors reassemble the header word |
| DisplayList.Signed10 | src/model.c:500-502 | a signed 10-bit field lies in -512..511 |
| DisplayList.DoReg | src/model.c:436-601 | an unknown register is fatal, and only it; a bad primitive kind is fatal exactly at BEGIN_VTXS; a success consumes the register's operand words, appends at most one event, emits a vertex exactly for vertex registers, and widens the bounds by exactly that vertex |
| DisplayList.EventForms | src/model.c:441-593 | BEGIN_VTXS appends Begin of the primitive its type word 0..3 names (triangles, quads, triangle strip, quad strip); END_VTXS appends End; COLOR the three 5-bit channels, red lowest; NORMAL the three signed 10-bit fields; TEXCOORD the two signed 16-bit halves; NOP, MTX_RESTORE and DIF_AMB append nothing |
| DisplayList.PartialVertexForms | src/model.c:480-563 | VTX_16 writes the three signed 16-bit halves of its two words; VTX_10 writes 64 times each signed 10-bit field; VTX_XY/XZ/YZ set their two axes from the signed halves of the word and keep the third coordinate of the current vertex; VTX_DIFF adds the three signed fields to it |
| DisplayList.DoHeader | src/model.c:622-627 | the four register writes of a header only move the cursor forward, append to the trace and widen the bounds by the emitted vertices |
| DisplayList.RunFrom | src/model.c:619-628 | the run stops at or after the list's end, having only extended the machine |
| DisplayList.RunDlist | src/model.c:613-629 | a successful run's bounds are the start bounds widened by every emitted vertex in order, and the whole list was read |
| DisplayList.DoDlist | src/model.c:613-629 | the interpreter's outer loop, over header words up to the list's end, computes the run |
| DisplayList.DoHeaderWord | src/model.c:619-626 | the inner loop, shifting the header right 8 bits per round, performs the header's four register writes lowest byte first |
| DisplayList.RunCoversX | src/model.c:613-629 | after a run, the x minimum is at most every emitted vertex's x |
| DisplayList.TriangleExample | src/model.c:573-590 | a BEGIN/VTX_16/END/NOP header emits a triangle-list start, the vertex (1,-1,2) and an end |
| Loader.MeshTable | src/model.c:1157-1164 | the mesh records fill the scene data from the mesh offset to its end |
| Loader.DlistCount | src/model.c:1165-1166 | the display-list count is above every mesh's display-list id |
| Loader.DlistCountIsMaxPlusOne | src/model.c:1165-1166 | the display-list count is 0 only without meshes, above every mesh's id, and one more than some mesh's id |
| Loader.ScanMeshes | src/model.c:1157-1177 | the scan's counts are the number of mesh records and the display-list count |
| Loader.WordsAt | src/model.c:650 | a display list's words are the whole words of the scene data from its start offset: word i holds bytes 4i to 4i+3 from that offset, least significant first |
| Loader.BuildStep | src/model.c:648-659 | a step copies the mesh, leaves its list's handle set, never clears a handle, and changes nothing but the mesh copies when the handle already was set |
| Loader.AppendAgrees | src/model.c:654-657 | setting a -1 handle to the next GL name while appending that list's compilation keeps handles and compilations in agreement |
| Loader.StepAgrees | src/model.c:648-659 | one step keeps handles and compilations in agreement |
| Loader.BuildFrom | src/model.c:648-659 | a build never changes the size of the handle table |
| Loader.BuildCopiesMeshes | src/model.c:648-652 | a build copies every mesh from the current one on, in order |
| Loader.BuildAgrees | src/model.c:648-659 | a whole build keeps handles and compilations in agreement |
| Loader.BuildKeepsHandles | src/model.c:653-654 | a build never clears a handle |
| Loader.AgreeingListsDistinct | src/model.c:653-657 | while handles and compilations agree, no display list is compiled twice |
| Loader.StepCompiledIds | src/model.c:653-657 | one step compiles at most the list of its own mesh |
| Loader.BuildCompilesOnlyUsed | src/model.c:648-659 | a build compiles only lists that some remaining mesh uses |
| Loader.UsedIdsCompiled | src/model.c:653-657 | once every used list has a handle, every used list has been compiled |
| Loader.StepBounds | src/model.c:653-657 | one step keeps the bounds those of all compiled geometry |
| Loader.BuildBounds | src/model.c:641-659 | the scene bounds after a build are the initial box widened by every vertex of every compiled list, in compilation order |
| Loader.BuildCompilesEachListOnce | src/model.c:648-659 | each display list is compiled exactly once: compiled ids are distinct, the set of compiled ids is the set of ids the meshes use, and every mesh is copied |
| Loader.CompiledWhereUsed | src/model.c:648-659 | after a build, every display list a mesh uses has a handle |
| Loader.Scene.constructor | src/model.c:1179-1181 | the handle table starts with every entry -1 |
| Loader.Scene.BuildMesh | src/model.c:649-658 | one loop iteration leaves the scene's tables as the build step does, or reports its fault |
| Loader.Scene.BuildMeshes | src/model.c:631-660 | the scene's tables after build_meshes are the build's result, or the fault that stopped it |
| Nodes.CString | src/model.c:1077 | a name is the prefix of its field before the first NUL |
| Nodes.DecodeNode | src/model.c:1073-1093 | links and the mesh id are the (s16) values of their 16-bit fields: in -32768..32767, congruent to the field modulo 2^16, and -1 exactly when the field is 0xFFFF; scale and position are the (fx32) values of their words; the name is the field up to the NUL that follows it when shorter than 64; the three angles are all angle_x; enabled, mesh count and type are the record's fields |
| Nodes.LoadNodes | src/model.c:1073-1094 | every node is the decoding of its own record |
| Nodes.FirstWhere | src/model.c:909-915 | the first index whose element satisfies the test, or none when no element does |
| Nodes.GetRoomNodeName | src/model.c:903-919 | the room node name is that of the first node starting with "rm", else "rmMain" |
| Nodes.GetNodeChild | src/model.c:921-932 | the child of the first node with that name, or -1 |
| Nodes.RoomNodeId | src/model.c:1096-1097 | the room node id is the child of the first "rm" node, or -1 when there is none |
| Nodes.AllOnesLinkIsNone | src/model.c:1079 | a child field of 0xFFFF decodes to the "no node" link |
| NodeTransforms.Base | src/model.c:1248-1255 | a root's first matrix is its own local matrix; any other node's is a product term, never a bare local matrix |
| NodeTransforms.Walk | src/model.c:1245-1267 | the walk changes only matrices |
| NodeTransforms.Visit | src/model.c:1246-1266 | a node's visit changes only matrices |
| NodeTransforms.ComputeNodeMatrices | src/model.c:1236-1268 | the node array after the traversal is the walk's result |
| NodeTransforms.VisitNode | src/model.c:1246-1266 | the node array after one loop body is the visit's result |
| NodeTransforms.WalkFrame | src/model.c:1245-1267 | nodes the walk does not reach keep everything, matrices included |
| NodeTransforms.VisitFrame | src/model.c:1246-1266 | a visit changes only the node and its child subtree |
| NodeTransforms.ReachBelow | src/model.c:1245-1258 | every node a walk reaches ranks no higher than where it starts |
| NodeTransforms.VisitRecentres | src/model.c:1246-1266 | a node's visit leaves the node with its base matrix recentred: the child subtree never writes the node |
| NodeTransforms.ReachDescends | src/model.c:1245-1258 | every node reached from a child chain lies below the chain's parent |
| NodeTransforms.ReachNotBelow | src/model.c:1245-1258 | the walk from a later sibling never reaches below an earlier one, so sibling subtrees are disjoint |
| NodeTransforms.VisitWorld | src/model.c:1246-1266 | in a consistent tree, a node's visit leaves it and its whole subtree with their world matrices recentred |
| NodeTransforms.WalkWorld | src/model.c:1245-1267 | in a consistent tree, the walk along a sibling chain leaves every node it reaches with its world matrix (its local matrix composed with its ancestors', root last) recentred |
| NodeTransforms.ChildSeesParentBeforeRecentring | src/model.c:1252-1266 | after the traversal from the roots, any reached child's matrix is its local matrix composed with its parent's matrix from before the parent's recentring, recentred; the parent ends with its own world matrix recentred |
| LayerFilter.ShiftLeftBit | src/model.c:950 | bit i of `w << k` is bit i - k of w, and clear below k |
| LayerFilter.ShiftRightBit | src/model.c:950 | bit i of `w >> k` is bit i + k of w |
| LayerFilter.LayerNumberUpdate | src/model.c:947-950 | an `_sNN` tag keeps the low half of the flags, clears the high half and sets bit NN + 6, which falls off the word for NN ≥ 26 |
| LayerFilter.SignedChar | src/model.c:948 | a name byte read as a char lies in -128..127 and is the byte modulo 256 |
| LayerFilter.SegmentFlags | src/model.c:947-960 | a layer tag adds exactly its own layer bits; any segment other than `_s` only adds layer bits; an `_s00` leaves the flags alone and other `_sNN` apply the layer-number update |
| LayerFilter.TagsDiffer | src/model.c:952-959 | the four layer tags are distinct and none starts with `_s` |
| LayerFilter.Keep | src/model.c:940-964 | a name is kept exactly when it is empty, does not start with `_`, or its flags meet the layer mask |
| LayerFilter.Scan | src/model.c:943-961 | the segment loop stops where it started exactly when the name ends there or the segment does not start with `_` |
| LayerFilter.Filtered | src/model.c:963-967 | the filter changes only `enabled`, only to 0, and only for names starting with `_` |
| LayerFilter.FilterNodes | src/model.c:934-973 | every node ends as the filter's verdict on it |
| LayerFilter.FilterNode | src/model.c:937-970 | the work on one node yields the filter's verdict on it |
| LayerFilter.KeepNode | src/model.c:940-964 | the decision for one name is the filter's keep predicate |
| LayerFilter.ScanTags | src/model.c:943-961 | the segment loop computes the scan's flags and stopping offset |
| LayerFilter.ApplySegment | src/model.c:947-960 | one loop body applies the segment's tag to the flags |
| LayerFilter.PlainNamesKept | src/model.c:945-946 | a name that is empty or does not start with `_` is always kept |
| LayerFilter.TaggedNamesFollowFlags | src/model.c:963-964 | a name starting with `_` is kept exactly when its flags meet the layer mask |
| LayerFilter.ScanStopsAtPlainSegment | src/model.c:943-946 | what follows the first segment not starting with `_` does not affect the flags |
| LayerFilter.Ml0Tag | src/model.c:953-954 | `_ml0` has exactly the ML0 bits, and is kept exactly when the mask meets them |
| LayerFilter.NumberTagExample | src/model.c:947-950 | `_s05` sets exactly bit 11 |

## Left out

- OpenGL calls, shaders, the texture upload and its parameters, `printf`,
  `BREAKPOINT` and `print_once`. They are not modelled, except that a GL
  list name is modelled as its compilation order.
- File I/O and memory allocation. The scene data is a byte sequence, and a
  failed `malloc` (the `fatal` on out of memory) is not modelled.
- Floating point:
  - `Texels.AlphaScale`: the float alpha scaling `level / top * 255 * (alpha / 31)`
    is a parameter. Only two exact facts about it are used: level 0 gives 0, and
    at alpha 31 the full level gives 255.
  - Materials.Classify: `alpha == 1.0f` is modelled as material alpha 31, where
    the quotient is exactly 1.0.
  - Node scale, angle and position stay raw fixed-point values. The
    `FX_FX32_TO_F32` and angle-to-radians conversions are left out.
  - Vertex coordinates are exact: float rounding of large coordinates and of
    accumulated VTX_DIFF offsets is not modelled.
- The colour, normal and texture-coordinate writes appear in the trace with
  their raw fixed-point components, not as the floats passed to GL.
- In place, the mesh scan byte-swaps the display-list words and mesh fields
  (model.c:1163-1175). This is the identity on a little-endian host, so the
  model reads the words in place.
- Loader.MeshTable: a mesh table with a partial trailing record is excluded by a
  precondition. The source would read past the scene data.
- Materials.Decodable: the source does not check that texels of 2- and 4-bit
  textures fill whole bytes, nor that palette entries lie inside the data (its
  palette-size check is commented out). Its size guard can also wrap (see
  Findings). The model requires of its callers that an admitted texture's texels
  and palette entries lie inside the data, because the source otherwise reads
  outside the buffer.
- Materials.Admit: the source reads `palettes[mat->palid]` (model.c:691) without
  checking `palid` against the number of palettes. The model requires it in range
  (`Materials.PaletteIdReadable`), because the read is otherwise outside the array.
- NodeTransforms.ComputeNodeMatrices:
  - the node graph must be acyclic (a ghost ranking), since the source's
    recursion would not end otherwise;
  - when the scene has node positions, the initial positions must exist, since
    the source reads `node_initial_pos` whenever `node_pos` is set;
  - the aliasing of `MTX44Concat`'s output with its input is not modelled,
    because the product is symbolic.
- LayerFilter.FilterNodes: layer numbers of `_s` tags must lie in 0..30,
  because `1 << nr` shifts a signed `int`: a negative or too large amount is
  undefined in C, and so is `1 << 31`, which overflows. A
  name is read as signed `char`, and a name field without NUL is treated as
  64 characters.
- DisplayList.DoReg: its own contract does not say which event a register
  appends. `DisplayList.PartialVertexForms` states the vertex of every vertex
  register, and `DisplayList.EventForms` the event of every other register.
- Texels.UnknownFormatFill: the fill of an unknown format is `memset(image, 0x7F,
  num_pixels * 4)` (model.c:802), whose length is a 32-bit unsigned product. From
  2^30 pixels on it wraps, and the pixels past the filled bytes keep whatever the
  fresh buffer held, which the translucency scan then reads. The model does not
  describe uninitialised memory. `Materials.Decodable` therefore requires the fill
  to cover the image (`Texels.FillLength`), and `Texels.FillLengthWraps` shows two
  textures it leaves out.
- NodeTransforms.Walk: its own contract says only that matrices are all it
  changes. The matrix each node ends with is stated by `NodeTransforms.WalkWorld`
  for a consistent tree, where every node on a child chain names the chain's
  owner as its parent. Over other node graphs, only the frame lemmas
  (`WalkFrame`, `VisitFrame`, `VisitRecentres`) describe the result.
- NodeTransforms.Visit: its own contract says only that matrices are all it
  changes. The visited node's final matrix is stated by
  `NodeTransforms.VisitRecentres`, and its subtree's by `NodeTransforms.VisitWorld`.
- NodeTransforms.Local: `scale_rotate_translate` (model.c:1197-1235) is kept
  symbolic. The entries of the matrix it builds (float sines and cosines of the
  angles) are not modelled.
- The `node_initial_pos` allocation sizes its buffer with `sizeof(NODE)`
  (model.c:1065). This is harmless over-allocation and not modelled.
- The `Dlist` bounds fields of the file, texture-coordinate animation and the
  texture repeat modes (model.c:865-898) are outside this model.

## Findings

| source | as written | input that shows it | evidently intended | confidence | as-written member | corrected member |
|---|---|---|---|---|---|---|
| src/model.c:705-718 | `image_ofs + texsize` is computed in 32-bit unsigned arithmetic, so the size guard can wrap and accept a texture that runs past the data | an 8-bit texture of 65535×65535 pixels at offset 0x20000 in 0x20001 bytes of texture data | reject every texture whose texels do not fit in the data | not executed | Texels.TexSizeGuardWraps | Texels.GuardCoversTexels |

`Materials.Admit` keeps the guard as written, as the source does. A texture that
passes it only through the wrap reads outside the data, so it is outside
`Materials.Decodable` (`Materials.WrappedTextureNotDecodable`). Where the sum does
not wrap, the two guards decide alike (`Texels.TexSizeRejectsAsWritten`).
