# mconv64 batch packer and MC64 writer, in Dafny

This project models the core of `mconv64`, the mesh converter of n64conv. The core has two parts.

1. The triangle batch packer (`mesh.cpp`). It splits a mesh's triangle list into batches. Each
   batch loads at most 32 vertices into the microcode's vertex cache, as contiguous runs of the
   global vertex array called blocks. Each triangle's global indices are rewritten as indices
   into that cache.
2. The binary writer (`binary_output.cpp`). It encodes every batch as 64-bit `ugfx` microcode
   words: one load-vertices word per block, one draw-triangle word per triangle, and one
   finalize word at the very end. It then writes the `MC64` file: a 16-byte header, the 16-byte
   vertex records, and the command words, all big-endian.

Files:

- `mesh_types.dfy` (module `MeshTypes`) holds the value types of `mesh.hpp`: blocks, batches,
  vertices and the mesh, together with the 32-vertex capacity.
- `packer.dfy` (module `Packer`) holds the packer.
  - Block sizing and growth are functions over the `Block` value.
  - `get_vertex_count` and `find_best_fit` are loops proved against specification functions.
  - `triangle_batch` is a class whose `blocks` field `TryAddTriangle` replaces on commit.
  - The batching loop is a method that grows the batch and the batch list step by step.
- `wrappers.dfy` (module `Wrappers`) holds the optional result shared by the packer, the
  command decoder and the command reader.
- `seqs.dfy` (module `Seqs`) holds small facts about concatenating and slicing sequences.
- `microcode.dfy` (module `Microcode`) holds the `ugfx_*` macros on `bv64`, together with a
  decoder that reads the fields back.
- `binary_output.dfy` (module `BinaryOutput`) holds `write_be`, `write_be<vertex>`,
  `write_be_vector`, `make_cmd_list` and `output_binary`.
  - The output stream is a `Stream` object whose `written` bytes grow with every write.
  - Each writer is proved against a byte-sequence function.
  - A model of the consumer of the command list, `Execute`, runs the words against a vertex
    cache. With it the model proves that the command list of a packed mesh draws exactly the
    input faces, in order.

The packer's specification functions take a `Rules` parameter. `AsWritten` is the code as it
stands. `Intended` corrects the two defects listed under "## Findings", and the corrected
properties are proved about it. The executable methods (`BuildBatches`, `TryAddTriangle`,
`FindBestFit`) follow `AsWritten`, as the code does.

## Model

| member | source | states |
|---|---|---|
| Packer.GetNewSize | mconv64/src/mesh.cpp:7-12 | a contained index leaves the size at n; an index past the end gives index - offset + 1; an index before the offset gives n + (offset - index) - 1; the result stays in int32 range |
| Packer.Insert | mconv64/src/mesh.cpp:14-25 | the grown block starts at min(offset, index) and ends at max(end, index + 1); it contains the index and covers the old range; inserting a contained index changes nothing |
| Packer.GetNewSizeVersusInsert | mconv64/src/mesh.cpp:9-11 | for index >= offset the size estimate equals the n that insert produces; for index < offset it is exactly one less |
| Packer.GetNewSizeExample | mconv64/src/mesh.cpp:7-25 | block {10, 5}: index 12 gives 5 and no change; index 8 gives 6 while insert makes {8, 7}; index 20 gives 11 and {10, 11} |
| Packer.GetNewSizeIntended | mconv64/src/mesh.cpp:14-25 | the corrected size estimate is exactly the n of the block insert produces |
| Packer.VertexCount | mconv64/src/mesh.cpp:27-37 | defines the vertex count of a block list as the sum of n over its blocks, the quantity the accumulator loop computes |
| Packer.GetVertexCount | mconv64/src/mesh.cpp:27-37 | the accumulator loop returns the sum of n over all blocks |
| Packer.VertexCountUpdate | mconv64/src/mesh.cpp:88 | growing block k in place changes the total by the difference of the two sizes |
| Packer.VertexCountAppend | mconv64/src/mesh.cpp:84 | appending a block adds its n to the total |
| Packer.Prefix | mconv64/src/mesh.cpp:59-64 | defines the cache slot where block k starts as the sum of n over the blocks before it: the running `block_offset` of `transform_index`, and the running `v0` of `make_cmd_list` |
| Packer.ExpandAt | mconv64/src/mesh.cpp:57-67 | an index contained in block k sits in cache slot prefix(k) + index - offset, which lies below the total vertex count |
| Packer.Expand | mconv64/src/mesh.cpp:27-37 | the cache image of the blocks has exactly get_vertex_count entries |
| Packer.ExtendsTransitive | mconv64/src/mesh.cpp:71-96 | "only grows blocks in place or appends blocks" composes over several steps |
| Packer.Fits | mconv64/src/mesh.cpp:47 | defines when block k qualifies: as written, its own new size plus the reserve is at most 32; as intended, the whole batch's count after the growth plus the reserve is |
| Packer.Scan | mconv64/src/mesh.cpp:39-55 | the scan's answer is -1 or the index of a block already scanned |
| Packer.BestFit | mconv64/src/mesh.cpp:39-55 | defines find_best_fit's answer as the scan over all blocks, the function the loop is proved equal to |
| Packer.NoneFitsStep | mconv64/src/mesh.cpp:44-52 | "no block qualifies among the first i" extends by one block exactly when block i - 1 does not qualify |
| Packer.FirstLeastTaken | mconv64/src/mesh.cpp:47-51 | a qualifying block strictly smaller than the best so far becomes the first least block |
| Packer.FirstLeastKept | mconv64/src/mesh.cpp:47-51 | a block that does not qualify, or is not strictly smaller, leaves the best so far in place |
| Packer.ScanSpec | mconv64/src/mesh.cpp:39-55 | the scan gives -1 exactly when no block qualifies; otherwise it gives the first block of least size among those that qualify |
| Packer.FindBestFit | mconv64/src/mesh.cpp:39-55 | -1 exactly when no block has get_new_size + reserve <= 32; otherwise a qualifying block of minimal size, and the first one on ties |
| Packer.Grow | mconv64/src/mesh.cpp:75-91 | placing one index never removes a block and names a block that exists |
| Packer.GrowSound | mconv64/src/mesh.cpp:75-91 | placing one index only grows or appends blocks, and the chosen block contains the index |
| Packer.GrowCountBound | mconv64/src/mesh.cpp:75-91 | placing one index adds at most 33 to the vertex count, since the chosen block grows to at most 33 |
| Packer.GrowIntendedFits | mconv64/src/mesh.cpp:47 | with the corrected capacity test, placing an index keeps the total within 32 minus the reserve |
| Packer.LandsLater | mconv64/src/mesh.cpp:183-195 | indices placed in earlier blocks still lie in those blocks after they grow |
| Packer.Place | mconv64/src/mesh.cpp:71-92 | placing a face's indices records one block index per placed corner, each naming a block |
| Packer.LandsSnoc | mconv64/src/mesh.cpp:91 | recording the block that contains the next corner extends the placement |
| Packer.PlaceSound | mconv64/src/mesh.cpp:71-92 | placing the corners only grows or appends blocks, and every placed corner lies in its recorded block |
| Packer.PlaceVertexCountBound | mconv64/src/mesh.cpp:71-92 | placing i corners adds at most 33 i vertices |
| Packer.AttemptAdd | mconv64/src/mesh.cpp:69-103 | the attempt fails exactly when the copied blocks exceed 32 vertices; a committed copy holds at most 32 vertices, only grows or appends blocks, records three block indices, and each corner of the face lies in the block recorded for it |
| Packer.PlaceIntendedFits | mconv64/src/mesh.cpp:73-92 | under the corrected rules, a batch with room for three vertices stays within 32 after placing each corner |
| Packer.AttemptAddIntendedSucceeds | mconv64/src/mesh.cpp:69-103 | under the corrected rules, a batch with room for three more vertices always accepts the triangle |
| Packer.LocalIndex | mconv64/src/mesh.cpp:57-67 | the local index of a contained global index addresses that very vertex in the cache image |
| Packer.TranslateDecodes | mconv64/src/mesh.cpp:183-195 | a translated triangle, looked up in the cache image, gives back the original face |
| Packer.TriangleBatch.constructor | mconv64/src/mesh.hpp:52-59 | a new batch has no blocks and no triangles |
| Packer.TriangleBatch.TransformIndex | mconv64/src/mesh.cpp:57-67 | the prefix-sum loop returns the sum of n over the earlier blocks plus index - offset, mod 2^32 as the uint32 result wraps; for a contained index in a batch of at most 32 vertices it is below the vertex count and addresses the index |
| Packer.TriangleBatch.TryAddTriangle | mconv64/src/mesh.cpp:69-103 | on false the blocks are unchanged; on true they are the committed copy, at most 32 vertices, extending the old blocks, with each index inside its recorded block |
| Packer.FillFrom | mconv64/src/mesh.cpp:172-181 | the inner loop stops at or before the end of the faces, records one triple of block indices per accepted face, and keeps the batch within 32 vertices |
| Packer.IndexedCons | mconv64/src/mesh.cpp:180 | recording one more triple of valid block indices keeps every recorded index valid |
| Packer.FillFromStep | mconv64/src/mesh.cpp:172-181 | one iteration: a rejection stops the loop where it is; an acceptance records the indices and continues |
| Packer.FillFromStops | mconv64/src/mesh.cpp:172-181 | the inner loop takes no face exactly when the faces are exhausted or the next face is rejected |
| Packer.FillFromSound | mconv64/src/mesh.cpp:172-181 | the blocks only grow, and every accepted face lies in its recorded blocks of the final batch |
| Packer.RecordedCons | mconv64/src/mesh.cpp:172-181 | a face placed in its recorded blocks can be put in front of the faces already recorded |
| Packer.TranslateAll | mconv64/src/mesh.cpp:183-195 | one local triangle per accepted face |
| Packer.TranslateAllAt | mconv64/src/mesh.cpp:183-195 | the t-th local triangle is face t translated through its recorded block indices |
| Packer.TranslatedSnoc | mconv64/src/mesh.cpp:194 | pushing the next translated triangle keeps the triangle list a prefix of the translation |
| Packer.TranslatedAll | mconv64/src/mesh.cpp:183-195 | once every face is translated, the triangle list is the full translation |
| Packer.MakeBatch | mconv64/src/mesh.cpp:168-195 | one batch takes a contiguous run of faces and holds one triangle per face in it |
| Packer.MakeBatchSound | mconv64/src/mesh.cpp:168-195 | the batch draws exactly its run of faces within 32 vertices; it is empty exactly when the faces are exhausted or a fresh batch rejects the first face |
| Packer.PackStep | mconv64/src/mesh.cpp:166-199 | one outer iteration: no progress ends the loop with no result; progress puts the batch in front of the remaining batches |
| Packer.PrependPrepend | mconv64/src/mesh.cpp:197 | putting two runs of batches in front one after the other is putting their concatenation in front |
| Packer.PackSound | mconv64/src/mesh.cpp:153-199 | when the loop ends, its batches draw exactly the input faces, in order, each within 32 vertices |
| Packer.DrawsAllCons | mconv64/src/mesh.cpp:197-198 | a batch drawing the next run of faces, followed by batches drawing the rest, draws all of them |
| Packer.PackIntendedTotal | mconv64/src/mesh.cpp:153-199 | under the corrected rules the batching loop always ends |
| Packer.SpreadPlacement | mconv64/src/mesh.cpp:73-92 | placing (0, 100, 31) into a fresh batch gives the blocks {0, 32} and {100, 1} |
| Packer.FreshBatchRejectsSpread | mconv64/src/mesh.cpp:69-103 | an empty batch rejects the face (0, 100, 31): its blocks {0, 32} and {100, 1} hold 33 vertices |
| Packer.FreshBatchRejectsBackward | mconv64/src/mesh.cpp:69-103 | an empty batch rejects the face (100, 69, 68), through the size underestimate |
| Packer.PackStuck | mconv64/src/mesh.cpp:166-199 | on the single face (0, 100, 31) a fresh batch takes nothing, so the loop makes no progress and gives no result |
| Packer.PackTotalWhenFreshAccepts | mconv64/src/mesh.cpp:166-199 | as written, the loop ends whenever a fresh batch accepts each face on its own |
| Packer.GrowWithinWindow | mconv64/src/mesh.cpp:75-91 | a single block inside the window [lo, lo + 30] is chosen for any index of the window, with at most one slot reserved, and grows in place |
| Packer.PlaceWithinWindow | mconv64/src/mesh.cpp:73-92 | placing corners within [lo, lo + 30] into a fresh batch keeps one block, inside that window |
| Packer.FreshAcceptsWithinWindow | mconv64/src/mesh.cpp:69-103 | a fresh batch accepts every face whose three indices are at most 30 apart |
| Packer.PackWithinWindows | mconv64/src/mesh.cpp:153-199 | when every face's indices are at most 30 apart, the loop ends and its batches draw exactly the faces, in order |
| Packer.GrowOffsets | mconv64/src/mesh.cpp:75-91 | growing keeps every block offset below any bound the index is below: a new block starts at the index, a grown one at min(offset, index) |
| Packer.PlaceOffsets | mconv64/src/mesh.cpp:73-92 | placing a face keeps every block offset below any bound its indices are below |
| Packer.FillFromOffsets | mconv64/src/mesh.cpp:172-181 | filling a batch keeps every block offset below any bound the face indices are below |
| Packer.PackOffsets | mconv64/src/mesh.cpp:166-199 | every block of every packed batch starts below any bound on the face indices |
| Packer.AfterAfter | mconv64/src/mesh.cpp:180 | recording two runs of block indices one after the other is recording their concatenation |
| Packer.AddNext | mconv64/src/mesh.cpp:174-180 | one inner iteration: a rejection leaves the blocks unchanged and stops; an acceptance records the face's block indices and advances by one face |
| Packer.FillBatch | mconv64/src/mesh.cpp:168-181 | the inner loop leaves the batch's blocks and the recorded block indices as the inner loop's specification gives them |
| Packer.Translate | mconv64/src/mesh.cpp:185-193 | defines a face's local indices as the three transform_index results, one per corner, through the block recorded for that corner |
| Packer.Pack | mconv64/src/mesh.cpp:166-199 | defines the batch list of the outer loop from a start face: one batch after another until the faces run out, and None when a batch takes no face, where the source loops forever |
| Packer.TranslateFace | mconv64/src/mesh.cpp:185-193 | the three transform_index calls give the face translated through its block indices |
| Packer.TranslateBatch | mconv64/src/mesh.cpp:183-195 | the triangle loop fills the batch with the translation of every accepted face |
| Packer.PackOne | mconv64/src/mesh.cpp:168-195 | one outer iteration builds the batch and the next start the specification gives |
| Packer.BuildBatches | mconv64/src/mesh.cpp:153-199 | the batching loop computes the specified batch list; when it ends the batches draw exactly the faces, in order, and it does end whenever a fresh batch accepts each face on its own |
| Microcode.MaskShift | mconv64/src/binary_output.cpp:11 | defines __ugfx_mask_shift as the bits of x that the mask selects, shifted up by shift |
| Microcode.Opcode | mconv64/src/binary_output.cpp:12 | the opcode sits in bits 56-63 and every lower bit is zero |
| Microcode.FinalizeWord | mconv64/src/binary_output.cpp:14 | the finalize word is 0x80 << 56 |
| Microcode.LoadVerticesWord | mconv64/src/binary_output.cpp:16-21 | opcode 0x81; count, index, slot and byte address masked into bits 44-49, 36-41, 28-31 and 0-24; every other bit zero |
| Microcode.DrawTriangleWord | mconv64/src/binary_output.cpp:23-27 | opcode 0x8D; v0, v1 and v2 masked into bits 49-54, 43-48 and 37-42; every other bit zero |
| Microcode.Encode | mconv64/src/binary_output.cpp:14-27 | defines the word of each command as the macro of its kind: finalize, load vertices or draw triangle |
| Microcode.Decode | mconv64/src/binary_output.cpp:14-27 | defines the reading of a word: a load or draw opcode with no bit outside the fields gives that command's fields, the finalize word gives Finalize, anything else gives None |
| Microcode.DecodeLoadVertices | mconv64/src/binary_output.cpp:16-21 | decoding a load word gives back its arguments, each cut to its field's width |
| Microcode.DecodeDrawTriangle | mconv64/src/binary_output.cpp:23-27 | decoding a draw word gives back its three indices, each cut to six bits |
| Microcode.DecodeEncode | mconv64/src/binary_output.cpp:14-27 | a command whose arguments fit their fields decodes from its word unchanged |
| Microcode.LoadVerticesFields | mconv64/src/binary_output.cpp:16-21 | a word with the load opcode and no stray bit is the load word of its own fields |
| Microcode.DrawTriangleFields | mconv64/src/binary_output.cpp:23-27 | a word with the draw opcode and no stray bit is the draw word of its own fields |
| Microcode.EncodeDecode | mconv64/src/binary_output.cpp:14-27 | every word that decodes is the encoding of what it decodes to, so the fields do not overlap and no bit is lost |
| Microcode.LoadExample | mconv64/src/binary_output.cpp:16-21 | the load of (slot 1, address 160, index 3, count 5) is 0x81005030100000A0 and decodes back to those four values |
| Microcode.DrawExample | mconv64/src/binary_output.cpp:23-27 | the draw of (1, 2, 3) is 0x8D02106000000000 and decodes back to those three indices |
| BinaryOutput.BigEndian | mconv64/src/binary_output.cpp:35-38 | byte i of the size bytes written is (v / 256^(size - 1 - i)) mod 256, most significant first |
| BinaryOutput.BigEndianSnoc | mconv64/src/binary_output.cpp:35-38 | the last byte written is v mod 256, after the bytes of v / 256 |
| BinaryOutput.BigEndianRoundTrip | mconv64/src/binary_output.cpp:29-41 | reading the sizeof(T) bytes back as big-endian gives v mod 256^size |
| BinaryOutput.ReadBigEndianInverse | mconv64/src/binary_output.cpp:29-41 | every byte string is the big-endian form of what it reads as, so no two values below 256^size share bytes |
| BinaryOutput.Int16RoundTrip | mconv64/src/binary_output.cpp:46-51 | a signed 16-bit field written as two bytes reads back, as two's complement, as itself |
| BinaryOutput.Stream.constructor | mconv64/src/binary_output.cpp:93 | a freshly truncated file holds no bytes |
| BinaryOutput.Stream.Write | mconv64/src/binary_output.cpp:40 | a write appends the buffer to the file |
| BinaryOutput.WriteBe | mconv64/src/binary_output.cpp:29-41 | the buffer loop appends the size big-endian bytes of v to the stream |
| BinaryOutput.VertexRecord | mconv64/src/binary_output.cpp:43-56 | a vertex record is 16 bytes |
| BinaryOutput.ByteRecord | mconv64/src/binary_output.cpp:52-55 | an attribute byte is written as itself |
| BinaryOutput.VertexRoundTrip | mconv64/src/binary_output.cpp:43-56 | the record reads back as x, y, z, s, t and the four attribute bytes; the `_unused` word is written as 0 |
| BinaryOutput.WriteBeVertex | mconv64/src/binary_output.cpp:43-56 | the ten writes append the vertex's record |
| BinaryOutput.Flatten | mconv64/src/binary_output.cpp:58-65 | a written vector of fixed-size items is size times its length |
| BinaryOutput.FlattenAt | mconv64/src/binary_output.cpp:58-65 | item i of a written vector occupies bytes size * i up to size * (i + 1) |
| BinaryOutput.FlattenSnoc | mconv64/src/binary_output.cpp:61-64 | writing one more item appends its bytes |
| BinaryOutput.WriteBeVertices | mconv64/src/binary_output.cpp:58-65 | the vertex loop appends every vertex record, in order |
| BinaryOutput.WordBytes | mconv64/src/binary_output.cpp:29-41 | a command word is written as 8 bytes |
| BinaryOutput.WordRoundTrip | mconv64/src/binary_output.cpp:29-41 | the eight bytes of a command word read back as the word |
| BinaryOutput.WriteBeWords | mconv64/src/binary_output.cpp:58-65 | the command loop appends every word's eight bytes, in order |
| BinaryOutput.BitsValue | mconv64/src/binary_output.cpp:11 | an argument cast to the word and masked to width bits is the argument mod 2^width |
| BinaryOutput.FieldBits | mconv64/src/binary_output.cpp:18-21 | the 6-bit and 25-bit fields carry the argument mod 64 and mod 2^25, and masking again changes nothing |
| BinaryOutput.LoadWord | mconv64/src/binary_output.cpp:76 | defines a block's load word: slot 1, byte address offset * 16 in 25 bits, cache index v0 and count n in six bits each |
| BinaryOutput.DrawWord | mconv64/src/binary_output.cpp:82 | defines a triangle's draw word from its three local indices, six bits each |
| BinaryOutput.LoadWordFields | mconv64/src/binary_output.cpp:76 | a load word decodes to slot 1, byte address (offset * 16) mod 2^25, cache index v0 mod 64 and count n mod 64 |
| BinaryOutput.DrawWordFields | mconv64/src/binary_output.cpp:82 | a draw word decodes to the triangle's three local indices, each mod 64 |
| BinaryOutput.LoadCommands | mconv64/src/binary_output.cpp:74-78 | one load word per block |
| BinaryOutput.DrawCommands | mconv64/src/binary_output.cpp:80-83 | one draw word per triangle |
| BinaryOutput.BatchCommands | mconv64/src/binary_output.cpp:71-84 | defines a batch's commands as the load words of its blocks followed by the draw words of its triangles |
| BinaryOutput.Commands | mconv64/src/binary_output.cpp:71-84 | defines the commands of a batch list as each batch's commands, in order |
| BinaryOutput.CommandList | mconv64/src/binary_output.cpp:67-89 | defines the command list as the batches' commands followed by one finalize word |
| BinaryOutput.PrefixStep | mconv64/src/binary_output.cpp:77 | after block i the running v0 has grown by that block's n |
| BinaryOutput.AppendBatch | mconv64/src/binary_output.cpp:71-84 | one batch appends its loads, with v0 reset to 0 and summed over the blocks, then its draws |
| BinaryOutput.MakeCmdList | mconv64/src/binary_output.cpp:67-89 | the loop returns the batches' commands, in order, followed by the finalize word |
| BinaryOutput.CommandListLength | mconv64/src/binary_output.cpp:67-89 | the list has one word per block and per triangle of every batch, plus one |
| BinaryOutput.CommandsLength | mconv64/src/binary_output.cpp:71-84 | the batches contribute one word per block and per triangle |
| BinaryOutput.BatchLayout | mconv64/src/binary_output.cpp:71-84 | within a batch every load comes before every draw; load k carries slot 1, address offset * 16, cache index the sum of n over blocks 0..k-1 and count n; draw t carries the triangle's indices |
| BinaryOutput.CommandsAreLoadsAndDraws | mconv64/src/binary_output.cpp:71-84 | every word before the last decodes to a load or a draw |
| BinaryOutput.FinalizeOnlyLast | mconv64/src/binary_output.cpp:86 | the only finalize word is the last one |
| BinaryOutput.LoadEntries | mconv64/src/binary_output.cpp:16-21 | a load fills cache entries index .. index + count - 1 with vertices first .. first + count - 1 and leaves the other entries alone |
| BinaryOutput.EmitThenAll | mconv64/src/binary_output.cpp:80-83 | drawing one triangle and then a run is drawing the longer run |
| BinaryOutput.PrefixAtMost | mconv64/src/binary_output.cpp:73-78 | the cache range a load fills ends within the batch's vertex count |
| BinaryOutput.CornersCached | mconv64/src/binary_output.cpp:80-83 | after a batch's loads, each local index of its triangles is cached and holds that corner's global vertex |
| BinaryOutput.Execute | mconv64/src/binary_output.cpp:67-89 | defines the reader of a command list: loads fill the cache, draws emit the faces their cached corners hold, and the finalize word ends the list; an undecodable word, an uncached corner or a missing finalize gives None |
| BinaryOutput.LoadStep | mconv64/src/binary_output.cpp:76 | executing a load word with in-range fields performs that load on the cache |
| BinaryOutput.ExecuteLoads | mconv64/src/binary_output.cpp:74-78 | executing a batch's loads from load k on performs those loads in order |
| BinaryOutput.LoadFromAgrees | mconv64/src/binary_output.cpp:73-78 | after the loads, the cache holds the batch's whole vertex image |
| BinaryOutput.DrawStep | mconv64/src/binary_output.cpp:82 | executing a draw word whose corners are cached draws the face they hold |
| BinaryOutput.ExecuteDraws | mconv64/src/binary_output.cpp:80-83 | executing a batch's draws, after its loads, draws its faces in order |
| BinaryOutput.ExecuteBatch | mconv64/src/binary_output.cpp:71-84 | executing one batch's commands loads its blocks and then draws exactly its faces |
| BinaryOutput.CommandsCons | mconv64/src/binary_output.cpp:71-84 | the commands of the batches are the first batch's commands followed by the rest's |
| BinaryOutput.ExecuteCommandList | mconv64/src/binary_output.cpp:67-89 | batches that draw a face list, with byte offsets below 2^25, give a command list that executes to exactly that face list |
| BinaryOutput.PackedCommandListDrawsFaces | mconv64/src/mesh.cpp:153-199 | for faces whose indices are below 2^21, the command list of a packed face list executes to exactly the input faces, in order |
| BinaryOutput.FreshAcceptsCommandListDrawsFaces | mconv64/src/mesh.cpp:153-199 | for faces below 2^21 that a fresh batch accepts one by one, the loop ends and its command list executes to exactly the faces, in order |
| BinaryOutput.Header | mconv64/src/binary_output.cpp:101-107 | the header is 16 bytes |
| BinaryOutput.FileBytes | mconv64/src/binary_output.cpp:91-111 | defines the file as the header, then every vertex record, then every command word |
| BinaryOutput.OutputBinary | mconv64/src/binary_output.cpp:91-111 | the file is the header, then every vertex record, then every command word |
| BinaryOutput.HeaderFields | mconv64/src/binary_output.cpp:101-107 | the header reads back as "MC64", version 1, (16 V) mod 2^32 and (8 C) mod 2^32 |
| BinaryOutput.ReadWord32 | mconv64/src/binary_output.cpp:105-107 | a uint32_t written as four bytes reads back as itself |
| BinaryOutput.FileHeader | mconv64/src/binary_output.cpp:104-107 | the first 16 bytes of the file are the header |
| BinaryOutput.FileLength | mconv64/src/binary_output.cpp:91-111 | the file is 16 + 16 V + 8 C bytes long |
| BinaryOutput.RecordAt | mconv64/src/binary_output.cpp:58-65 | item i of a vector written after a prefix sits at the prefix's length plus size * i |
| BinaryOutput.FileVertex | mconv64/src/binary_output.cpp:109 | vertex i is the record at byte 16 + 16 i, and it reads back as the vertex with `_unused` 0 |
| BinaryOutput.FileWord | mconv64/src/binary_output.cpp:110 | command word j is the eight bytes at 16 + 16 V + 8 j |

## Left out

- The vertex attribute conversion (mconv64/src/mesh.cpp:110-151 and `util.hpp`) is not modelled. It consists of float-to-integer casts. Vertices are records of integer fields given as input.
- The Assimp glue is left out. Faces arrive as a sequence of index triples, so the "exactly three indices" filter at mconv64/src/mesh.cpp:158 is applied by the caller.
- Name lowercasing (mconv64/src/mesh.cpp:202-204) is left out because it depends on the locale.
- `c_output.cpp` is not part of this model. It prints the same loads and draws as C text.
- The two `main.cpp` files are not part of this model: command-line parsing, image loading and file I/O.
- In `output_binary`, opening the file, the `exit(5)` on failure and the locale setup are left out. The stream is an in-memory byte sequence, and the file name is dropped.
- Packer.GetNewSize, FindBestFit, TryAddTriangle, BuildBatches: indices must stay below 2^31 - 1, and block ends at most 2^31 - 1. Above that the `int32_t` casts in `get_new_size` overflow, and that wrap is not modelled.
- ExecuteCommandList, PackedCommandListDrawsFaces: block offsets must be below 2^21. Above that the 25-bit byte-address field silently truncates `offset * 16`. LoadWordFields states that truncation. ExecuteCommandList requires offsets that fit; PackedCommandListDrawsFaces requires face indices below 2^21, which PackOffsets carries over to the block offsets.
- Packer.TriangleBatch.TransformIndex: the uint32 result is taken mod 2^32, as is LocalIndex. The `int` accumulator `block_offset` (mconv64/src/mesh.cpp:59) is kept unbounded, so its overflow past 2^31 - 1 is not modelled. It cannot happen, because the accumulator is at most the batch's vertex count, at most 32.
- Packer.GetVertexCount: the wrap of the uint32 accumulator is not modelled. The sum never exceeds 32 + 99 in the packer (PlaceVertexCountBound), so it never wraps.
- AppendBatch: `v0` is an `int` in the source. The model keeps it unbounded, since a batch holds at most 32 vertices. The 6-bit field still masks it, and LoadWordFields states that.
- `Execute` models a reader of the command list, which is not part of this program. It gives the words the meaning the field comments and the load/draw pairing imply: a load fills consecutive cache entries, and a draw reads three of them.
- Block is a value, not an object. `insert` on an element of the copied vector is a sequence update with the grown block.
- The batches produced by the packer are values, not `triangle_batch` objects. Each is a copy of the class's two fields.
- FileWord: states the bytes of word j. That they read back as the word is WordRoundTrip.

## Findings

| source | as written | input that shows it | evidently intended | confidence | as-written member | corrected member |
|---|---|---|---|---|---|---|
| mconv64/src/mesh.cpp:9-11 | for an index before the block, `get_new_size` returns n + offset - index - 1, one less than the n that `insert` produces | block {offset 10, n 5}, index 8: the estimate is 6, while `insert(8)` makes {8, 7} | the estimate equals the size of the block `insert` produces (n + offset - index) | not executed | Packer.GetNewSizeVersusInsert | Packer.GetNewSizeIntended |
| mconv64/src/mesh.cpp:166-199 | `find_best_fit` (line 47) tests only the chosen block's size plus the reserve, not the batch total, so an empty batch can reject a triangle; the outer loop then pushes an empty batch, adds 0 to `triangle_count` and never ends | face (0, 100, 31): blocks {0, 32} and {100, 1}, 33 vertices; also (100, 69, 68) through the underestimate | every triangle fits a fresh batch, so the loop always ends | not executed | Packer.PackStuck | Packer.PackIntendedTotal |
