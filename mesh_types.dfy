/** The value types of mconv64's mesh (mesh.hpp): vertex records, vertex blocks, batches and the mesh. */
module MeshTypes {

  /** The capacity of the microcode's vertex cache: at most this many vertices per batch. */
  const MAX_BATCH_SIZE: nat := 32

  /** Global vertex indices stay below 2^31 - 1 and block ends at most 2^31 - 1, so that the
      int32 arithmetic of the block sizing never overflows (index 2^31 - 1 at offset 0 already
      would). */
  const INDEX_LIMIT: nat := 0x7FFF_FFFF

  type byte = x: int | 0 <= x < 0x100
  type int16 = x: int | -0x8000 <= x < 0x8000

  /** Three vertex indices of one triangle, in source order (global in a face, batch-local in a batch). */
  type Triple = t: seq<nat> | |t| == 3 witness [0, 0, 0]

  /** A contiguous run [offset, offset + n) of the global vertex array, uploaded by one load command. */
  datatype Block = Block(offset: nat, n: nat)

  function End(b: Block): nat { b.offset + b.n }

  predicate Contains(b: Block, index: nat) { b.offset <= index < End(b) }

  /** `outer` spans at least the indices `inner` spans. */
  predicate Covers(outer: Block, inner: Block) {
    outer.offset <= inner.offset && End(inner) <= End(outer)
  }

  predicate InRange(b: Block) { End(b) <= INDEX_LIMIT }

  predicate AllInRange(blocks: seq<Block>) {
    forall k :: 0 <= k < |blocks| ==> InRange(blocks[k])
  }

  predicate FaceInRange(face: Triple) {
    forall m :: 0 <= m < 3 ==> face[m] < INDEX_LIMIT
  }

  predicate FacesInRange(faces: seq<Triple>) {
    forall i :: 0 <= i < |faces| ==> FaceInRange(faces[i])
  }

  /** A batch: the blocks loaded into the cache, in order, and the triangles drawn from it,
      whose indices are local to the concatenation of the blocks. */
  datatype Batch = Batch(blocks: seq<Block>, triangles: seq<Triple>)

  /** The four bytes of the vertex attribute union, as stored: either the colour channels
      r, g, b, a or the normal (x, y, z as two's complement bytes) and its alpha. */
  datatype Attributes = Attributes(r: byte, g: byte, b: byte, a: byte)

  /** A vertex record: s10.5 position, texture coordinates, the `_unused` word (1 when the
      attributes are a colour, 0 when a normal) and the attribute bytes. */
  datatype Vertex = Vertex(x: int16, y: int16, z: int16, unused: int16, s: int16, t: int16, attr: Attributes)

  datatype Mesh = Mesh(batches: seq<Batch>, vertices: seq<Vertex>, name: string)
}
