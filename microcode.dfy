/** The 64-bit command words of the ugfx microcode that mconv64 emits (binary_output.cpp): the
    encoding macros, and the field layout a reader of the words relies on. */
module Microcode {
  import opened Wrappers

  const OP_FINALIZE: bv64 := 0x80
  const OP_LOAD_VERTICES: bv64 := 0x81
  const OP_DRAW_TRIANGLE: bv64 := 0x8D

  /** The bits no field of a load-vertices word occupies: 50-55, 42-43, 32-35 and 25-27. */
  const LOAD_UNUSED: bv64 := 0x00FC_0C0F_0E00_0000
  /** The bits no field of a draw-triangle word occupies: 55 and 0-36. */
  const DRAW_UNUSED: bv64 := 0x0080_001F_FFFF_FFFF

  /** __ugfx_mask_shift: the low bits of `x` selected by `mask`, moved up by `shift`. */
  function MaskShift(x: bv64, mask: bv64, shift: bv64): bv64
    requires shift < 64
  {
    (x & mask) << shift
  }

  /** __ugfx_opcode: the opcode byte in bits 56-63. */
  function Opcode(op: bv64): (w: bv64)
    ensures w >> 56 == op & 0xFF && w & 0x00FF_FFFF_FFFF_FFFF == 0
  {
    MaskShift(op, 0xFF, 56)
  }

  /** ugfx_finalize: the opcode 0x80 and nothing else. */
  function FinalizeWord(): (w: bv64)
    ensures w == 0x8000_0000_0000_0000
  {
    Opcode(OP_FINALIZE)
  }

  /** ugfx_load_vertices: `count` vertices from byte address `vertices` into the cache from
      entry `index` on, through upload slot `slot`; each field masked to its width. */
  function LoadVerticesWord(slot: bv64, vertices: bv64, index: bv64, count: bv64): (w: bv64)
    ensures w >> 56 == OP_LOAD_VERTICES
    ensures (w >> 44) & 0x3F == count & 0x3F
    ensures (w >> 36) & 0x3F == index & 0x3F
    ensures (w >> 28) & 0xF == slot & 0xF
    ensures w & 0x1FF_FFFF == vertices & 0x1FF_FFFF
    ensures w & LOAD_UNUSED == 0
  {
    Opcode(OP_LOAD_VERTICES)
    | MaskShift(count, 0x3F, 44)
    | MaskShift(index, 0x3F, 36)
    | MaskShift(slot, 0xF, 28)
    | MaskShift(vertices, 0x1FF_FFFF, 0)
  }

  /** ugfx_draw_triangle: one triangle over cache entries v0, v1 and v2, each masked to 6 bits. */
  function DrawTriangleWord(v0: bv64, v1: bv64, v2: bv64): (w: bv64)
    ensures w >> 56 == OP_DRAW_TRIANGLE
    ensures (w >> 49) & 0x3F == v0 & 0x3F
    ensures (w >> 43) & 0x3F == v1 & 0x3F
    ensures (w >> 37) & 0x3F == v2 & 0x3F
    ensures w & DRAW_UNUSED == 0
  {
    Opcode(OP_DRAW_TRIANGLE)
    | MaskShift(v0, 0x3F, 49)
    | MaskShift(v1, 0x3F, 43)
    | MaskShift(v2, 0x3F, 37)
  }

  /** A microcode command with the arguments the macros take. */
  datatype Command =
    | LoadVertices(slot: bv64, vertices: bv64, index: bv64, count: bv64)
    | DrawTriangle(v0: bv64, v1: bv64, v2: bv64)
    | Finalize

  function Encode(c: Command): bv64 {
    match c
    case LoadVertices(slot, vertices, index, count) => LoadVerticesWord(slot, vertices, index, count)
    case DrawTriangle(v0, v1, v2) => DrawTriangleWord(v0, v1, v2)
    case Finalize => FinalizeWord()
  }

  /** Every argument fits its field. */
  predicate Representable(c: Command) {
    match c
    case LoadVertices(slot, vertices, index, count) =>
      slot <= 0xF && vertices <= 0x1FF_FFFF && index <= 0x3F && count <= 0x3F
    case DrawTriangle(v0, v1, v2) => v0 <= 0x3F && v1 <= 0x3F && v2 <= 0x3F
    case Finalize => true
  }

  /** How a reader of the command list takes a word apart: the opcode selects the layout,
      and a word with a stray bit outside its fields is no command. */
  function Decode(w: bv64): Option<Command> {
    var op := w >> 56;
    if op == OP_LOAD_VERTICES && w & LOAD_UNUSED == 0 then
      Some(LoadVertices((w >> 28) & 0xF, w & 0x1FF_FFFF, (w >> 36) & 0x3F, (w >> 44) & 0x3F))
    else if op == OP_DRAW_TRIANGLE && w & DRAW_UNUSED == 0 then
      Some(DrawTriangle((w >> 49) & 0x3F, (w >> 43) & 0x3F, (w >> 37) & 0x3F))
    else if w == FinalizeWord() then
      Some(Finalize)
    else
      None
  }

  /** Decoding a load-vertices word gives back its arguments, each cut to its field. */
  lemma DecodeLoadVertices(slot: bv64, vertices: bv64, index: bv64, count: bv64)
    ensures Decode(LoadVerticesWord(slot, vertices, index, count))
         == Some(LoadVertices(slot & 0xF, vertices & 0x1FF_FFFF, index & 0x3F, count & 0x3F))
  {
  }

  /** Decoding a draw-triangle word gives back its three indices, each cut to six bits. */
  lemma DecodeDrawTriangle(v0: bv64, v1: bv64, v2: bv64)
    ensures Decode(DrawTriangleWord(v0, v1, v2)) == Some(DrawTriangle(v0 & 0x3F, v1 & 0x3F, v2 & 0x3F))
  {
  }

  /** A command whose arguments fit their fields is decoded from its word exactly. */
  lemma DecodeEncode(c: Command)
    requires Representable(c)
    ensures Decode(Encode(c)) == Some(c)
  {
    match c
    case LoadVertices(slot, vertices, index, count) =>
      assert slot & 0xF == slot && vertices & 0x1FF_FFFF == vertices;
      assert index & 0x3F == index && count & 0x3F == count;
      DecodeLoadVertices(slot, vertices, index, count);
    case DrawTriangle(v0, v1, v2) =>
      assert v0 & 0x3F == v0 && v1 & 0x3F == v1 && v2 & 0x3F == v2;
      DecodeDrawTriangle(v0, v1, v2);
    case Finalize =>
  }

  lemma LoadVerticesFields(w: bv64)
    requires w >> 56 == OP_LOAD_VERTICES && w & LOAD_UNUSED == 0
    ensures LoadVerticesWord((w >> 28) & 0xF, w & 0x1FF_FFFF, (w >> 36) & 0x3F, (w >> 44) & 0x3F) == w
  {
  }

  lemma DrawTriangleFields(w: bv64)
    requires w >> 56 == OP_DRAW_TRIANGLE && w & DRAW_UNUSED == 0
    ensures DrawTriangleWord((w >> 49) & 0x3F, (w >> 43) & 0x3F, (w >> 37) & 0x3F) == w
  {
  }

  /** A word that decodes is the encoding of what it decodes to: no two commands share a word
      and no bit of a command word is lost. */
  lemma EncodeDecode(w: bv64)
    ensures Decode(w).Some? ==> Encode(Decode(w).value) == w
  {
    if w >> 56 == OP_LOAD_VERTICES && w & LOAD_UNUSED == 0 {
      LoadVerticesFields(w);
    } else if w >> 56 == OP_DRAW_TRIANGLE && w & DRAW_UNUSED == 0 {
      DrawTriangleFields(w);
    }
  }

  /** The load of five vertices from byte 160 to cache entry 3 through slot 1. */
  lemma LoadExample()
    ensures LoadVerticesWord(1, 160, 3, 5) == 0x8100_5030_1000_00A0
    ensures Decode(0x8100_5030_1000_00A0) == Some(LoadVertices(1, 160, 3, 5))
  {
    DecodeEncode(LoadVertices(1, 160, 3, 5));
  }

  /** The triangle over cache entries 1, 2 and 3. */
  lemma DrawExample()
    ensures DrawTriangleWord(1, 2, 3) == 0x8D02_1060_0000_0000
    ensures Decode(0x8D02_1060_0000_0000) == Some(DrawTriangle(1, 2, 3))
  {
    DecodeEncode(DrawTriangle(1, 2, 3));
  }
}
