/** Batch packing of mconv64 (mesh.cpp): splitting a triangle list into batches whose vertex
    blocks fit the 32-entry vertex cache, with batch-local triangle indices.

    The specification functions take a `Rules` argument. `AsWritten` is the code as it
    stands; `Intended` sizes a backward extension exactly and makes the best fit respect the
    whole batch's capacity. The methods implement `AsWritten`. */
module Packer {
  import opened MeshTypes
  import opened Wrappers
  import opened Seqs

  datatype Rules = AsWritten | Intended

  function Min(a: int, b: int): int { if a <= b then a else b }
  function Max(a: int, b: int): int { if a >= b then a else b }

  // ---------------------------------------------------------------- vertex_block

  /** vertex_block::get_new_size: the size the block is taken to need to cover `index`,
      computed as max(up, down, n) in int32. */
  function GetNewSize(b: Block, index: nat): (size: nat)
    requires InRange(b) && index < INDEX_LIMIT
    ensures Contains(b, index) ==> size == b.n
    ensures End(b) <= index ==> size == index - b.offset + 1
    ensures index < b.offset ==> size == b.n + (b.offset - index) - 1
    ensures size <= INDEX_LIMIT
  {
    var up := index - b.offset + 1;
    var down := b.n - up;
    Max(Max(up, down), b.n)
  }

  /** vertex_block::insert: grows the block to the smallest range covering itself and `index`. */
  function Insert(b: Block, index: nat): (r: Block)
    ensures r.offset == Min(b.offset, index) && End(r) == Max(End(b), index + 1)
    ensures Contains(r, index) && Covers(r, b)
    ensures Contains(b, index) ==> r == b
  {
    if index < b.offset then Block(index, b.n + (b.offset - index))
    else if index >= b.offset + b.n then Block(b.offset, index - b.offset + 1)
    else b
  }

  /** The size `insert` actually produces: what get_new_size is evidently meant to return. */
  function GetNewSizeIntended(b: Block, index: nat): (size: nat)
    ensures size == Insert(b, index).n
  {
    Max(End(b), index + 1) - Min(b.offset, index)
  }

  /** The as-written sizing matches `insert` except for a backward extension, where it is one short. */
  lemma GetNewSizeVersusInsert(b: Block, index: nat)
    requires InRange(b) && index < INDEX_LIMIT
    ensures b.offset <= index ==> GetNewSize(b, index) == Insert(b, index).n
    ensures index < b.offset ==> GetNewSize(b, index) + 1 == Insert(b, index).n
  {
  }

  /** The block {offset 10, n 5}: containment, backward and forward growth. */
  lemma GetNewSizeExample()
    ensures GetNewSize(Block(10, 5), 12) == 5 && Insert(Block(10, 5), 12) == Block(10, 5)
    ensures GetNewSize(Block(10, 5), 8) == 6 && Insert(Block(10, 5), 8) == Block(8, 7)
    ensures GetNewSizeIntended(Block(10, 5), 8) == 7
    ensures GetNewSize(Block(10, 5), 20) == 11 && Insert(Block(10, 5), 20) == Block(10, 11)
  {
  }

  // ---------------------------------------------------------------- block lists

  /** The number of cache entries the blocks occupy. */
  function VertexCount(blocks: seq<Block>): nat
    decreases |blocks|
  {
    if blocks == [] then 0 else VertexCount(blocks[..|blocks| - 1]) + blocks[|blocks| - 1].n
  }

  /** The cache slot at which block `k` starts. */
  function Prefix(blocks: seq<Block>, k: nat): nat
    requires k <= |blocks|
  {
    VertexCount(blocks[..k])
  }

  /** get_vertex_count. The source sums in uint32; the sum never wraps in the packer,
      see PlaceVertexCountBound. */
  method GetVertexCount(blocks: seq<Block>) returns (result: nat)
    ensures result == VertexCount(blocks)
  {
    result := 0;
    for i := 0 to |blocks|
      invariant result == VertexCount(blocks[..i])
    {
      assert blocks[..i + 1][..i] == blocks[..i];
      result := result + blocks[i].n;
    }
    assert blocks[..|blocks|] == blocks;
  }

  lemma {:induction false} VertexCountUpdate(blocks: seq<Block>, k: nat, b: Block)
    requires k < |blocks|
    ensures VertexCount(blocks[k := b]) == VertexCount(blocks) - blocks[k].n + b.n
    decreases |blocks|
  {
    var last := |blocks| - 1;
    if k < last {
      assert blocks[k := b][..last] == blocks[..last][k := b];
      VertexCountUpdate(blocks[..last], k, b);
    } else {
      assert blocks[k := b][..last] == blocks[..last];
    }
  }

  lemma VertexCountAppend(blocks: seq<Block>, b: Block)
    ensures VertexCount(blocks + [b]) == VertexCount(blocks) + b.n
  {
    assert (blocks + [b])[..|blocks|] == blocks;
  }

  /** The global vertex index held in each cache slot once the blocks are loaded in order. */
  function Expand(blocks: seq<Block>): (slots: seq<int>)
    ensures |slots| == VertexCount(blocks)
    decreases |blocks|
  {
    if blocks == [] then []
    else
      var b := blocks[|blocks| - 1];
      Expand(blocks[..|blocks| - 1]) + seq(b.n, i => b.offset + i)
  }

  /** An index inside block `k` sits, once loaded, at slot Prefix(k) + (index - offset). */
  lemma {:induction false} ExpandAt(blocks: seq<Block>, k: nat, index: nat)
    requires k < |blocks|
    ensures Contains(blocks[k], index) ==>
      var slot := Prefix(blocks, k) + index - blocks[k].offset;
      slot < VertexCount(blocks) && Expand(blocks)[slot] == index
    decreases |blocks|
  {
    var last := |blocks| - 1;
    var init := blocks[..last];
    if Contains(blocks[k], index) {
      if k == last {
        assert blocks[..k] == init;
      } else {
        assert init[..k] == blocks[..k];
        ExpandAt(init, k, index);
      }
    }
  }

  /** The blocks `after` keeps every block of `before`, in place, at least as wide. */
  predicate Extends(before: seq<Block>, after: seq<Block>) {
    |before| <= |after| && forall k :: 0 <= k < |before| ==> Covers(after[k], before[k])
  }

  lemma ExtendsTransitive(a: seq<Block>, b: seq<Block>, c: seq<Block>)
    requires Extends(a, b) && Extends(b, c)
    ensures Extends(a, c)
  {
  }

  // ---------------------------------------------------------------- find_best_fit

  function NewSize(rules: Rules, b: Block, index: nat): nat
    requires InRange(b) && index < INDEX_LIMIT
  {
    if rules == AsWritten then GetNewSize(b, index) else GetNewSizeIntended(b, index)
  }

  /** Block `k` qualifies for `index` while `reserve` slots must stay free. As written only
      the block's own size is checked; as intended the whole batch's count is. */
  predicate Fits(rules: Rules, blocks: seq<Block>, k: nat, index: nat, reserve: nat)
    requires k < |blocks| && AllInRange(blocks) && index < INDEX_LIMIT
  {
    match rules
    case AsWritten => GetNewSize(blocks[k], index) + reserve <= MAX_BATCH_SIZE
    case Intended =>
      VertexCount(blocks) - blocks[k].n + GetNewSizeIntended(blocks[k], index) + reserve <= MAX_BATCH_SIZE
  }

  /** The choice of the scan over blocks[..i]: a later block replaces the current choice only
      when it qualifies and is strictly smaller; -1 while nothing qualifies. */
  function Scan(rules: Rules, blocks: seq<Block>, index: nat, reserve: nat, i: nat): (k: int)
    requires i <= |blocks| && AllInRange(blocks) && index < INDEX_LIMIT
    ensures -1 <= k < i
    decreases i
  {
    if i == 0 then -1
    else
      var k := Scan(rules, blocks, index, reserve, i - 1);
      if Fits(rules, blocks, i - 1, index, reserve)
         && (k < 0 || NewSize(rules, blocks[i - 1], index) < NewSize(rules, blocks[k], index))
      then i - 1
      else k
  }

  function BestFit(rules: Rules, blocks: seq<Block>, index: nat, reserve: nat): (k: int)
    requires AllInRange(blocks) && index < INDEX_LIMIT
  {
    Scan(rules, blocks, index, reserve, |blocks|)
  }

  /** No block among blocks[..i] qualifies. */
  predicate NoneFits(rules: Rules, blocks: seq<Block>, index: nat, reserve: nat, i: nat)
    requires i <= |blocks| && AllInRange(blocks) && index < INDEX_LIMIT
  {
    forall j :: 0 <= j < i ==> !Fits(rules, blocks, j, index, reserve)
  }

  /** Block k qualifies, needs no more than any qualifying block of blocks[..i], and strictly
      less than any qualifying block before it. */
  predicate FirstLeast(rules: Rules, blocks: seq<Block>, index: nat, reserve: nat, k: nat, i: nat)
    requires k < i <= |blocks| && AllInRange(blocks) && index < INDEX_LIMIT
  {
    && Fits(rules, blocks, k, index, reserve)
    && (forall j :: 0 <= j < i && Fits(rules, blocks, j, index, reserve) ==>
          NewSize(rules, blocks[k], index) <= NewSize(rules, blocks[j], index))
    && (forall j :: 0 <= j < k && Fits(rules, blocks, j, index, reserve) ==>
          NewSize(rules, blocks[k], index) < NewSize(rules, blocks[j], index))
  }

  lemma NoneFitsStep(rules: Rules, blocks: seq<Block>, index: nat, reserve: nat, i: nat)
    requires 0 < i <= |blocks| && AllInRange(blocks) && index < INDEX_LIMIT
    ensures NoneFits(rules, blocks, index, reserve, i)
        <==> NoneFits(rules, blocks, index, reserve, i - 1) && !Fits(rules, blocks, i - 1, index, reserve)
  {
  }

  /** The scan switches to block i - 1: it qualifies, and beats the previous choice if any. */
  lemma FirstLeastTaken(rules: Rules, blocks: seq<Block>, index: nat, reserve: nat, prev: int, i: nat)
    requires 0 < i <= |blocks| && AllInRange(blocks) && index < INDEX_LIMIT && -1 <= prev < i - 1
    requires Fits(rules, blocks, i - 1, index, reserve)
    requires prev < 0 ==> NoneFits(rules, blocks, index, reserve, i - 1)
    requires prev >= 0 ==>
      && FirstLeast(rules, blocks, index, reserve, prev, i - 1)
      && NewSize(rules, blocks[i - 1], index) < NewSize(rules, blocks[prev], index)
    ensures FirstLeast(rules, blocks, index, reserve, i - 1, i)
  {
  }

  /** The scan keeps its choice: block i - 1 does not qualify or is not strictly smaller. */
  lemma FirstLeastKept(rules: Rules, blocks: seq<Block>, index: nat, reserve: nat, k: nat, i: nat)
    requires 0 < i <= |blocks| && AllInRange(blocks) && index < INDEX_LIMIT && k < i - 1
    requires FirstLeast(rules, blocks, index, reserve, k, i - 1)
    requires !(Fits(rules, blocks, i - 1, index, reserve)
               && NewSize(rules, blocks[i - 1], index) < NewSize(rules, blocks[k], index))
    ensures FirstLeast(rules, blocks, index, reserve, k, i)
  {
  }

  /** The scan finds nothing exactly when no block qualifies; otherwise the first block of
      least size among those that qualify. */
  lemma {:induction false} ScanSpec(rules: Rules, blocks: seq<Block>, index: nat, reserve: nat, i: nat)
    requires i <= |blocks| && AllInRange(blocks) && index < INDEX_LIMIT
    ensures var k := Scan(rules, blocks, index, reserve, i);
      && (k == -1 <==> NoneFits(rules, blocks, index, reserve, i))
      && (k >= 0 ==> FirstLeast(rules, blocks, index, reserve, k, i))
    decreases i
  {
    if i > 0 {
      ScanSpec(rules, blocks, index, reserve, i - 1);
      NoneFitsStep(rules, blocks, index, reserve, i);
      var prev := Scan(rules, blocks, index, reserve, i - 1);
      if Fits(rules, blocks, i - 1, index, reserve)
         && (prev < 0 || NewSize(rules, blocks[i - 1], index) < NewSize(rules, blocks[prev], index)) {
        FirstLeastTaken(rules, blocks, index, reserve, prev, i);
      } else if prev >= 0 {
        FirstLeastKept(rules, blocks, index, reserve, prev, i);
      }
    }
  }

  /** find_best_fit, with the uint32 maximum as the initial size to beat. */
  method FindBestFit(blocks: seq<Block>, index: nat, reserve: nat) returns (blockIndex: int)
    requires AllInRange(blocks) && index < INDEX_LIMIT
    ensures blockIndex == BestFit(AsWritten, blocks, index, reserve)
    ensures blockIndex == -1 <==>
      forall j :: 0 <= j < |blocks| ==> GetNewSize(blocks[j], index) + reserve > MAX_BATCH_SIZE
    ensures blockIndex >= 0 ==>
      && blockIndex < |blocks|
      && GetNewSize(blocks[blockIndex], index) + reserve <= MAX_BATCH_SIZE
      && (forall j :: 0 <= j < |blocks| && GetNewSize(blocks[j], index) + reserve <= MAX_BATCH_SIZE ==>
            GetNewSize(blocks[blockIndex], index) <= GetNewSize(blocks[j], index))
      && (forall j :: 0 <= j < blockIndex && GetNewSize(blocks[j], index) + reserve <= MAX_BATCH_SIZE ==>
            GetNewSize(blocks[blockIndex], index) < GetNewSize(blocks[j], index))
  {
    blockIndex := -1;
    var newSize: nat := 0xFFFF_FFFF;
    for i := 0 to |blocks|
      invariant blockIndex == Scan(AsWritten, blocks, index, reserve, i)
      invariant blockIndex < 0 ==> newSize == 0xFFFF_FFFF
      invariant blockIndex >= 0 ==> newSize == GetNewSize(blocks[blockIndex], index)
    {
      var tmpNewSize := GetNewSize(blocks[i], index);
      if tmpNewSize < newSize && tmpNewSize + reserve <= MAX_BATCH_SIZE {
        newSize := tmpNewSize;
        blockIndex := i;
      }
    }
    ScanSpec(AsWritten, blocks, index, reserve, |blocks|);
    forall j | 0 <= j < |blocks|
      ensures Fits(AsWritten, blocks, j, index, reserve) <==> GetNewSize(blocks[j], index) + reserve <= MAX_BATCH_SIZE
    {
    }
  }

  // ---------------------------------------------------------------- try_add_triangle

  /** The speculative blocks after placing some of a triangle's indices, and the block each
      placed index went to. */
  datatype Placement = Placement(blocks: seq<Block>, blockIndices: seq<nat>)

  /** Each block index is below `count`. */
  predicate Within(blockIndices: seq<nat>, count: nat) {
    forall j :: 0 <= j < |blockIndices| ==> blockIndices[j] < count
  }

  /** Each of the first |blockIndices| indices of `face` lies in the block recorded for it. */
  predicate Lands(blocks: seq<Block>, blockIndices: seq<nat>, face: Triple) {
    && |blockIndices| <= 3
    && Within(blockIndices, |blocks|)
    && forall j :: 0 <= j < |blockIndices| ==> Contains(blocks[blockIndices[j]], face[j])
  }

  /** Growing the blocks keeps every index where it landed. */
  lemma LandsLater(blocks: seq<Block>, later: seq<Block>, blockIndices: seq<nat>, face: Triple)
    requires Lands(blocks, blockIndices, face) && Extends(blocks, later)
    ensures Lands(later, blockIndices, face)
  {
    forall j | 0 <= j < |blockIndices|
      ensures Contains(later[blockIndices[j]], face[j])
    {
      assert Covers(later[blockIndices[j]], blocks[blockIndices[j]]);
    }
  }

  /** One index of try_add_triangle: the blocks after growing the best-fitting block to cover
      `index`, or after appending a new block {index, 1} when none fits, and the block the
      index went to. */
  datatype Landing = Landing(blocks: seq<Block>, blockIndex: nat)

  function Grow(rules: Rules, blocks: seq<Block>, index: nat, reserve: nat): (g: Landing)
    requires AllInRange(blocks) && index < INDEX_LIMIT
    ensures AllInRange(g.blocks) && |blocks| <= |g.blocks| && g.blockIndex < |g.blocks|
  {
    var k := BestFit(rules, blocks, index, reserve);
    if k < 0 then Landing(blocks + [Block(index, 1)], |blocks|)
    else Landing(blocks[k := Insert(blocks[k], index)], k)
  }

  /** Growing keeps every block, at least as wide, and the index lies in the block it went to. */
  lemma GrowSound(rules: Rules, blocks: seq<Block>, index: nat, reserve: nat)
    requires AllInRange(blocks) && index < INDEX_LIMIT
    ensures var g := Grow(rules, blocks, index, reserve);
      Extends(blocks, g.blocks) && Contains(g.blocks[g.blockIndex], index)
  {
    var g := Grow(rules, blocks, index, reserve);
    var k := BestFit(rules, blocks, index, reserve);
    if k < 0 {
      assert g.blocks == blocks + [Block(index, 1)];
      assert forall j :: 0 <= j < |blocks| ==> g.blocks[j] == blocks[j];
    } else {
      assert g.blocks == blocks[k := Insert(blocks[k], index)];
      assert Covers(g.blocks[k], blocks[k]);
    }
  }

  /** As written, one growth adds at most 33 cache entries: a chosen block is sized at most
      32 by get_new_size and insert makes it at most one larger. */
  lemma GrowCountBound(blocks: seq<Block>, index: nat, reserve: nat)
    requires AllInRange(blocks) && index < INDEX_LIMIT
    ensures VertexCount(Grow(AsWritten, blocks, index, reserve).blocks) <= VertexCount(blocks) + 33
  {
    var k := BestFit(AsWritten, blocks, index, reserve);
    if k < 0 {
      VertexCountAppend(blocks, Block(index, 1));
    } else {
      ScanSpec(AsWritten, blocks, index, reserve, |blocks|);
      GetNewSizeVersusInsert(blocks[k], index);
      VertexCountUpdate(blocks, k, Insert(blocks[k], index));
    }
  }

  /** As intended, a growth leaves `reserve` entries free whenever the batch had one more
      entry than that free before it. */
  lemma GrowIntendedFits(blocks: seq<Block>, index: nat, reserve: nat)
    requires AllInRange(blocks) && index < INDEX_LIMIT
    requires VertexCount(blocks) + reserve + 1 <= MAX_BATCH_SIZE
    ensures VertexCount(Grow(Intended, blocks, index, reserve).blocks) + reserve <= MAX_BATCH_SIZE
  {
    var k := BestFit(Intended, blocks, index, reserve);
    if k < 0 {
      VertexCountAppend(blocks, Block(index, 1));
    } else {
      ScanSpec(Intended, blocks, index, reserve, |blocks|);
      VertexCountUpdate(blocks, k, Insert(blocks[k], index));
    }
  }

  /** The speculative copy after placing face[0..i], index j with reserve 2 - j. */
  function Place(rules: Rules, blocks: seq<Block>, face: Triple, i: nat): (p: Placement)
    requires i <= 3 && AllInRange(blocks) && FaceInRange(face)
    ensures AllInRange(p.blocks) && |p.blockIndices| == i
    ensures |blocks| <= |p.blocks| && Within(p.blockIndices, |p.blocks|)
    decreases i
  {
    if i == 0 then Placement(blocks, [])
    else
      var prev := Place(rules, blocks, face, i - 1);
      var g := Grow(rules, prev.blocks, face[i - 1], 3 - i);
      Placement(g.blocks, prev.blockIndices + [g.blockIndex])
  }

  /** Recording one more index in a block that holds it. */
  lemma LandsSnoc(blocks: seq<Block>, blockIndices: seq<nat>, k: nat, face: Triple)
    requires Lands(blocks, blockIndices, face) && |blockIndices| < 3
    requires k < |blocks| && Contains(blocks[k], face[|blockIndices|])
    ensures Lands(blocks, blockIndices + [k], face)
  {
    var next := blockIndices + [k];
    forall j | 0 <= j < |next|
      ensures next[j] < |blocks| && Contains(blocks[next[j]], face[j])
    {
      if j < |blockIndices| {
        assert next[j] == blockIndices[j];
      }
    }
  }

  /** Placing only grows or appends blocks, and every placed index lies in its block. */
  lemma {:induction false} PlaceSound(rules: Rules, blocks: seq<Block>, face: Triple, i: nat)
    requires i <= 3 && AllInRange(blocks) && FaceInRange(face)
    ensures var p := Place(rules, blocks, face, i);
      Extends(blocks, p.blocks) && Lands(p.blocks, p.blockIndices, face)
    decreases i
  {
    if i > 0 {
      PlaceSound(rules, blocks, face, i - 1);
      var prev := Place(rules, blocks, face, i - 1);
      var g := Grow(rules, prev.blocks, face[i - 1], 3 - i);
      GrowSound(rules, prev.blocks, face[i - 1], 3 - i);
      ExtendsTransitive(blocks, prev.blocks, g.blocks);
      LandsLater(prev.blocks, g.blocks, prev.blockIndices, face);
      LandsSnoc(g.blocks, prev.blockIndices, g.blockIndex, face);
    }
  }

  /** Each placement step adds at most 33 cache entries as written, so the source's uint32
      count of the speculative blocks stays far from wrapping. */
  lemma {:induction false} PlaceVertexCountBound(blocks: seq<Block>, face: Triple, i: nat)
    requires i <= 3 && AllInRange(blocks) && FaceInRange(face)
    ensures VertexCount(Place(AsWritten, blocks, face, i).blocks) <= VertexCount(blocks) + 33 * i
    decreases i
  {
    if i > 0 {
      PlaceVertexCountBound(blocks, face, i - 1);
      var prev := Place(AsWritten, blocks, face, i - 1);
      GrowCountBound(prev.blocks, face[i - 1], 3 - i);
    }
  }

  /** The commit-or-discard of try_add_triangle: the placement when its blocks fit the cache.
      A committed placement fits the cache, only grows or appends blocks, and holds each
      index of the triangle in the block recorded for it. */
  function AttemptAdd(rules: Rules, blocks: seq<Block>, face: Triple): (r: Option<Placement>)
    requires AllInRange(blocks) && FaceInRange(face)
    ensures r.None? <==> VertexCount(Place(rules, blocks, face, 3).blocks) > MAX_BATCH_SIZE
    ensures r.Some? ==> r.value == Place(rules, blocks, face, 3)
    ensures r.Some? ==>
      && VertexCount(r.value.blocks) <= MAX_BATCH_SIZE
      && Extends(blocks, r.value.blocks)
      && |r.value.blockIndices| == 3
      && Lands(r.value.blocks, r.value.blockIndices, face)
  {
    PlaceSound(rules, blocks, face, 3);
    var p := Place(rules, blocks, face, 3);
    if VertexCount(p.blocks) <= MAX_BATCH_SIZE then Some(p) else None
  }

  /** With the intended rules, a batch with three free cache entries accepts every triangle. */
  lemma {:induction false} PlaceIntendedFits(blocks: seq<Block>, face: Triple, i: nat)
    requires i <= 3 && AllInRange(blocks) && FaceInRange(face)
    requires VertexCount(blocks) + 3 <= MAX_BATCH_SIZE
    ensures VertexCount(Place(Intended, blocks, face, i).blocks) + (3 - i) <= MAX_BATCH_SIZE
    decreases i
  {
    if i > 0 {
      PlaceIntendedFits(blocks, face, i - 1);
      var prev := Place(Intended, blocks, face, i - 1);
      GrowIntendedFits(prev.blocks, face[i - 1], 3 - i);
    }
  }

  lemma AttemptAddIntendedSucceeds(blocks: seq<Block>, face: Triple)
    requires AllInRange(blocks) && FaceInRange(face)
    requires VertexCount(blocks) + 3 <= MAX_BATCH_SIZE
    ensures AttemptAdd(Intended, blocks, face).Some?
  {
    PlaceIntendedFits(blocks, face, 3);
  }

  // ---------------------------------------------------------------- transform_index

  /** The batch-local index of global `index` assigned to block `k`, in the source's uint32. */
  function LocalIndex(blocks: seq<Block>, index: nat, k: nat): (local: nat)
    requires k < |blocks|
    ensures Contains(blocks[k], index) && VertexCount(blocks) < 0x1_0000_0000 ==>
      local < VertexCount(blocks) && Expand(blocks)[local] == index
  {
    ExpandAt(blocks, k, index);
    (Prefix(blocks, k) + index - blocks[k].offset) % 0x1_0000_0000
  }

  /** A triangle's batch-local indices, given the block each of its indices went to. */
  function Translate(blocks: seq<Block>, face: Triple, blockIndices: Triple): Triple
    requires Within(blockIndices, |blocks|)
  {
    [LocalIndex(blocks, face[0], blockIndices[0]),
     LocalIndex(blocks, face[1], blockIndices[1]),
     LocalIndex(blocks, face[2], blockIndices[2])]
  }

  /** Each corner of the batch-local triangle, looked up in the cache loaded from `blocks`,
      is the corresponding global index of the face. */
  predicate Decodes(blocks: seq<Block>, triangle: Triple, face: Triple) {
    forall m :: 0 <= m < 3 ==> triangle[m] < VertexCount(blocks) && Expand(blocks)[triangle[m]] == face[m]
  }

  /** A translated triangle, looked up in the loaded cache, gives back the face, provided
      every index landed in its recorded block and the batch count does not wrap. */
  lemma TranslateDecodes(blocks: seq<Block>, face: Triple, blockIndices: Triple)
    requires Lands(blocks, blockIndices, face) && VertexCount(blocks) < 0x1_0000_0000
    ensures Decodes(blocks, Translate(blocks, face, blockIndices), face)
  {
    var t := Translate(blocks, face, blockIndices);
    forall m | 0 <= m < 3
      ensures t[m] < VertexCount(blocks) && Expand(blocks)[t[m]] == face[m]
    {
      assert t[m] == LocalIndex(blocks, face[m], blockIndices[m]);
    }
  }

  // ---------------------------------------------------------------- triangle_batch

  /** triangle_batch: the batch under construction. */
  class TriangleBatch {
    var blocks: seq<Block>
    var triangles: seq<Triple>

    constructor ()
      ensures blocks == [] && triangles == []
    {
      blocks := [];
      triangles := [];
    }

    /** triangle_batch::transform_index: the prefix sum of the block sizes before
        `blockIndex`, plus the position of `index` inside that block. */
    method TransformIndex(index: nat, blockIndex: nat) returns (local: nat)
      requires blockIndex < |blocks|
      ensures local == LocalIndex(blocks, index, blockIndex)
      ensures Contains(blocks[blockIndex], index) && VertexCount(blocks) <= MAX_BATCH_SIZE ==>
        local < VertexCount(blocks) && Expand(blocks)[local] == index
    {
      var blockOffset := 0;
      for i := 0 to blockIndex
        invariant blockOffset == Prefix(blocks, i)
      {
        assert blocks[..i + 1][..i] == blocks[..i];
        blockOffset := blockOffset + blocks[i].n;
      }
      local := (blockOffset + index - blocks[blockIndex].offset) % 0x1_0000_0000;
    }

    /** triangle_batch::try_add_triangle: places the three indices on a copy of the blocks and
        commits the copy only when it fits the cache. The block indices are written either way. */
    method TryAddTriangle(indices: Triple) returns (added: bool, blockIndices: Triple)
      requires AllInRange(blocks) && FaceInRange(indices)
      modifies this`blocks
      ensures blockIndices == Place(AsWritten, old(blocks), indices, 3).blockIndices
      ensures added == AttemptAdd(AsWritten, old(blocks), indices).Some?
      ensures added ==> blocks == AttemptAdd(AsWritten, old(blocks), indices).value.blocks
      ensures !added ==> blocks == old(blocks)
      ensures added ==>
        && VertexCount(blocks) <= MAX_BATCH_SIZE
        && Extends(old(blocks), blocks)
        && Lands(blocks, blockIndices, indices)
    {
      var tmpBlocks := blocks;
      var placed: seq<nat> := [];
      for i := 0 to 3
        invariant blocks == old(blocks)
        invariant Place(AsWritten, blocks, indices, i) == Placement(tmpBlocks, placed)
      {
        var index := indices[i];
        var blockIndex := FindBestFit(tmpBlocks, index, 2 - i);
        ghost var g := Grow(AsWritten, tmpBlocks, index, 2 - i);
        if blockIndex < 0 {
          blockIndex := |tmpBlocks|;
          tmpBlocks := tmpBlocks + [Block(index, 1)];
        } else {
          tmpBlocks := tmpBlocks[blockIndex := Insert(tmpBlocks[blockIndex], index)];
        }
        assert g == Landing(tmpBlocks, blockIndex);
        placed := placed + [blockIndex];
      }
      blockIndices := placed;
      var count := GetVertexCount(tmpBlocks);
      if count <= MAX_BATCH_SIZE {
        blocks := tmpBlocks;
        added := true;
      } else {
        added := false;
      }
    }
  }

  // ---------------------------------------------------------------- the batching loop

  /** What the inner loop of the batching leaves: the batch's blocks, the first face it did
      not take, and the block indices of each face it took. */
  datatype Fill = Fill(blocks: seq<Block>, end: nat, blockIndices: seq<Triple>)

  /** Adds faces[j..] to a batch holding `blocks` until the first one it rejects. */
  function FillFrom(rules: Rules, blocks: seq<Block>, faces: seq<Triple>, j: nat): (f: Fill)
    requires j <= |faces| && AllInRange(blocks) && FacesInRange(faces)
    requires VertexCount(blocks) <= MAX_BATCH_SIZE
    ensures j <= f.end <= |faces| && |f.blockIndices| == f.end - j
    ensures AllInRange(f.blocks) && VertexCount(f.blocks) <= MAX_BATCH_SIZE
    ensures |blocks| <= |f.blocks| && Indexed(f.blocks, f.blockIndices)
    decreases |faces| - j
  {
    if j == |faces| then Fill(blocks, j, [])
    else
      var attempt := AttemptAdd(rules, blocks, faces[j]);
      if attempt.None? then Fill(blocks, j, [])
      else
        var p := attempt.value;
        var rest := FillFrom(rules, p.blocks, faces, j + 1);
        IndexedCons(rest.blocks, p.blockIndices, rest.blockIndices, |p.blocks|);
        Fill(rest.blocks, rest.end, [p.blockIndices] + rest.blockIndices)
  }

  lemma IndexedCons(blocks: seq<Block>, blockIndices: Triple, rest: seq<Triple>, count: nat)
    requires Within(blockIndices, count) && count <= |blocks| && Indexed(blocks, rest)
    ensures Indexed(blocks, [blockIndices] + rest)
  {
    var all := [blockIndices] + rest;
    forall t | 0 <= t < |all|
      ensures Within(all[t], |blocks|)
    {
      if t > 0 {
        assert all[t] == rest[t - 1];
      }
    }
  }

  /** One step of filling from face j: a rejected face ends the batch, an accepted one is
      recorded in front of the rest. */
  lemma FillFromStep(rules: Rules, blocks: seq<Block>, faces: seq<Triple>, j: nat)
    requires j < |faces| && AllInRange(blocks) && FacesInRange(faces)
    requires VertexCount(blocks) <= MAX_BATCH_SIZE
    ensures var attempt := AttemptAdd(rules, blocks, faces[j]);
      && (attempt.None? ==> FillFrom(rules, blocks, faces, j) == Fill(blocks, j, []))
      && (attempt.Some? ==>
            var rest := FillFrom(rules, attempt.value.blocks, faces, j + 1);
            FillFrom(rules, blocks, faces, j) == Fill(rest.blocks, rest.end, [attempt.value.blockIndices] + rest.blockIndices))
  {
  }

  /** Filling stops only at the end of the faces or at a face the batch rejects. */
  lemma FillFromStops(rules: Rules, blocks: seq<Block>, faces: seq<Triple>, j: nat)
    requires j <= |faces| && AllInRange(blocks) && FacesInRange(faces)
    requires VertexCount(blocks) <= MAX_BATCH_SIZE
    ensures FillFrom(rules, blocks, faces, j).end == j <==> j == |faces| || AttemptAdd(rules, blocks, faces[j]).None?
  {
  }

  /** Each face lies, index by index, in the blocks recorded for it. */
  predicate Recorded(blocks: seq<Block>, blockIndices: seq<Triple>, faces: seq<Triple>) {
    && |blockIndices| == |faces|
    && forall t :: 0 <= t < |faces| ==> Lands(blocks, blockIndices[t], faces[t])
  }

  /** Each recorded block index is an index into `blocks`. */
  predicate Indexed(blocks: seq<Block>, blockIndices: seq<Triple>) {
    forall t :: 0 <= t < |blockIndices| ==> Within(blockIndices[t], |blocks|)
  }

  /** The batch only grows while filling, and every face taken lies in the blocks recorded
      for it, in the final blocks. */
  lemma {:induction false} FillFromSound(rules: Rules, blocks: seq<Block>, faces: seq<Triple>, j: nat)
    requires j <= |faces| && AllInRange(blocks) && FacesInRange(faces)
    requires VertexCount(blocks) <= MAX_BATCH_SIZE
    ensures var f := FillFrom(rules, blocks, faces, j);
      Extends(blocks, f.blocks) && Recorded(f.blocks, f.blockIndices, faces[j..f.end])
    decreases |faces| - j
  {
    if j < |faces| {
      var attempt := AttemptAdd(rules, blocks, faces[j]);
      if attempt.Some? {
        var p := attempt.value;
        FillFromSound(rules, p.blocks, faces, j + 1);
        var rest := FillFrom(rules, p.blocks, faces, j + 1);
        var f := FillFrom(rules, blocks, faces, j);
        assert f == Fill(rest.blocks, rest.end, [p.blockIndices] + rest.blockIndices);
        ExtendsTransitive(blocks, p.blocks, rest.blocks);
        LandsLater(p.blocks, rest.blocks, p.blockIndices, faces[j]);
        RecordedCons(rest.blocks, p.blockIndices, faces[j], rest.blockIndices, faces[j + 1..rest.end]);
        SliceCons(faces, j, rest.end);
      }
    }
  }

  lemma RecordedCons(blocks: seq<Block>, bi: Triple, face: Triple, bis: seq<Triple>, faces: seq<Triple>)
    requires Recorded(blocks, bis, faces)
    requires Lands(blocks, bi, face)
    ensures Recorded(blocks, [bi] + bis, [face] + faces)
  {
    var bis', faces' := [bi] + bis, [face] + faces;
    forall t | 0 <= t < |faces'|
      ensures Lands(blocks, bis'[t], faces'[t])
    {
      if t > 0 {
        assert bis'[t] == bis[t - 1] && faces'[t] == faces[t - 1];
      }
    }
  }

  /** The batch-local triangles of faces, given each face's block indices. */
  function TranslateAll(blocks: seq<Block>, faces: seq<Triple>, blockIndices: seq<Triple>): (ts: seq<Triple>)
    requires |faces| == |blockIndices|
    requires Indexed(blocks, blockIndices)
    ensures |ts| == |faces|
    decreases |faces|
  {
    if faces == [] then []
    else
      var last := |faces| - 1;
      TranslateAll(blocks, faces[..last], blockIndices[..last]) + [Translate(blocks, faces[last], blockIndices[last])]
  }

  /** Triangle t of the translation is face t translated through its own block indices. */
  lemma {:induction false} TranslateAllAt(blocks: seq<Block>, faces: seq<Triple>, blockIndices: seq<Triple>, t: nat)
    requires |faces| == |blockIndices| && Indexed(blocks, blockIndices) && t < |faces|
    ensures TranslateAll(blocks, faces, blockIndices)[t] == Translate(blocks, faces[t], blockIndices[t])
    decreases |faces|
  {
    var last := |faces| - 1;
    if t < last {
      TranslateAllAt(blocks, faces[..last], blockIndices[..last], t);
    }
  }

  /** ts holds the translations of the first |ts| faces. */
  predicate Translated(blocks: seq<Block>, faces: seq<Triple>, blockIndices: seq<Triple>, ts: seq<Triple>)
    requires |faces| == |blockIndices| && Indexed(blocks, blockIndices)
  {
    && |ts| <= |faces|
    && forall t :: 0 <= t < |ts| ==> ts[t] == Translate(blocks, faces[t], blockIndices[t])
  }

  lemma TranslatedSnoc(blocks: seq<Block>, faces: seq<Triple>, blockIndices: seq<Triple>,
                       ts: seq<Triple>, triangle: Triple)
    requires |faces| == |blockIndices| && Indexed(blocks, blockIndices)
    requires Translated(blocks, faces, blockIndices, ts) && |ts| < |faces|
    requires triangle == Translate(blocks, faces[|ts|], blockIndices[|ts|])
    ensures Translated(blocks, faces, blockIndices, ts + [triangle])
  {
    var next := ts + [triangle];
    forall t | 0 <= t < |next|
      ensures next[t] == Translate(blocks, faces[t], blockIndices[t])
    {
      if t < |ts| {
        assert next[t] == ts[t];
      }
    }
  }

  /** Translating every face one by one gives TranslateAll. */
  lemma TranslatedAll(blocks: seq<Block>, faces: seq<Triple>, blockIndices: seq<Triple>, ts: seq<Triple>)
    requires |faces| == |blockIndices| && Indexed(blocks, blockIndices)
    requires Translated(blocks, faces, blockIndices, ts) && |ts| == |faces|
    ensures ts == TranslateAll(blocks, faces, blockIndices)
  {
    var all := TranslateAll(blocks, faces, blockIndices);
    forall t | 0 <= t < |ts|
      ensures ts[t] == all[t]
    {
      TranslateAllAt(blocks, faces, blockIndices, t);
    }
  }

  /** One iteration of the outer loop from `start`: the batch it pushes and the next
      triangle_count. */
  function MakeBatch(rules: Rules, faces: seq<Triple>, start: nat): (r: (Batch, nat))
    requires start <= |faces| && FacesInRange(faces)
    ensures start <= r.1 <= |faces| && |r.0.triangles| == r.1 - start
  {
    var f := FillFrom(rules, [], faces, start);
    (Batch(f.blocks, TranslateAll(f.blocks, faces[start..f.end], f.blockIndices)), f.end)
  }

  /** The batch fits the cache, and drawing its triangles from the loaded cache draws
      exactly `faces`. */
  predicate Draws(batch: Batch, faces: seq<Triple>) {
    && VertexCount(batch.blocks) <= MAX_BATCH_SIZE
    && |batch.triangles| == |faces|
    && forall t :: 0 <= t < |faces| ==> Decodes(batch.blocks, batch.triangles[t], faces[t])
  }

  /** The batches, in order, draw exactly `faces`, in order, and none of them is empty. */
  predicate DrawsAll(batches: seq<Batch>, faces: seq<Triple>)
    decreases |batches|
  {
    if batches == [] then faces == []
    else
      var k := |batches[0].triangles|;
      0 < k <= |faces| && Draws(batches[0], faces[..k]) && DrawsAll(batches[1..], faces[k..])
  }

  lemma MakeBatchSound(rules: Rules, faces: seq<Triple>, start: nat)
    requires start <= |faces| && FacesInRange(faces)
    ensures Draws(MakeBatch(rules, faces, start).0, faces[start..MakeBatch(rules, faces, start).1])
    ensures MakeBatch(rules, faces, start).1 == start <==> start == |faces| || AttemptAdd(rules, [], faces[start]).None?
  {
    var f := FillFrom(rules, [], faces, start);
    FillFromSound(rules, [], faces, start);
    FillFromStops(rules, [], faces, start);
    var taken := faces[start..f.end];
    var triangles := TranslateAll(f.blocks, taken, f.blockIndices);
    assert MakeBatch(rules, faces, start) == (Batch(f.blocks, triangles), f.end);
    forall t | 0 <= t < |taken|
      ensures Decodes(f.blocks, triangles[t], taken[t])
    {
      TranslateAllAt(f.blocks, taken, f.blockIndices, t);
      assert Lands(f.blocks, f.blockIndices[t], taken[t]);
      TranslateDecodes(f.blocks, taken[t], f.blockIndices[t]);
    }
    assert Draws(Batch(f.blocks, triangles), taken);
  }

  /** The batches of the whole loop from `start`, or None where the source's loop would not
      terminate: a fresh batch rejecting its first face gets pushed empty and leaves
      triangle_count unchanged, so the next iteration starts from the same state. */
  function Pack(rules: Rules, faces: seq<Triple>, start: nat): Option<seq<Batch>>
    requires start <= |faces| && FacesInRange(faces)
    decreases |faces| - start
  {
    if start == |faces| then Some([])
    else
      var step := MakeBatch(rules, faces, start);
      if step.1 == start then None
      else Prepend([step.0], Pack(rules, faces, step.1))
  }

  /** `batches` in front of the rest of the output, when there is one. */
  function Prepend(batches: seq<Batch>, rest: Option<seq<Batch>>): Option<seq<Batch>> {
    match rest
    case None => None
    case Some(r) => Some(batches + r)
  }

  /** One iteration of the loop: no progress ends it without output, progress puts the
      batch in front of the rest. */
  lemma PackStep(rules: Rules, faces: seq<Triple>, start: nat)
    requires start < |faces| && FacesInRange(faces)
    ensures var step := MakeBatch(rules, faces, start);
      Pack(rules, faces, start) == if step.1 == start then None else Prepend([step.0], Pack(rules, faces, step.1))
  {
  }

  lemma PrependPrepend(a: seq<Batch>, b: seq<Batch>, rest: Option<seq<Batch>>)
    ensures Prepend(a, Prepend(b, rest)) == Prepend(a + b, rest)
  {
    if rest.Some? {
      AppendAssoc(a, b, rest.value);
    }
  }

  /** Whatever the loop produces draws the input faces exactly, in order, each batch within
      the cache capacity. */
  lemma {:induction false} PackSound(rules: Rules, faces: seq<Triple>, start: nat)
    requires start <= |faces| && FacesInRange(faces)
    ensures Pack(rules, faces, start).Some? ==> DrawsAll(Pack(rules, faces, start).value, faces[start..])
    decreases |faces| - start
  {
    if start < |faces| {
      var step := MakeBatch(rules, faces, start);
      var end := step.1;
      if end != start && Pack(rules, faces, end).Some? {
        PackSound(rules, faces, end);
        MakeBatchSound(rules, faces, start);
        var rest := Pack(rules, faces, end).value;
        assert Pack(rules, faces, start) == Some([step.0] + rest);
        DrawsAllCons(step.0, rest, faces, start, end);
      }
    }
  }

  /** A batch drawing faces[start..end] in front of batches drawing faces[end..]. */
  lemma DrawsAllCons(batch: Batch, rest: seq<Batch>, faces: seq<Triple>, start: nat, end: nat)
    requires start < end <= |faces| && |batch.triangles| == end - start
    requires Draws(batch, faces[start..end]) && DrawsAll(rest, faces[end..])
    ensures DrawsAll([batch] + rest, faces[start..])
  {
    var all := [batch] + rest;
    assert all[0] == batch && all[1..] == rest;
    assert faces[start..][..end - start] == faces[start..end];
    assert faces[start..][end - start..] == faces[end..];
  }

  /** With the intended rules every fresh batch accepts a face, so the loop always ends. */
  lemma {:induction false} PackIntendedTotal(faces: seq<Triple>, start: nat)
    requires start <= |faces| && FacesInRange(faces)
    ensures Pack(Intended, faces, start).Some?
    decreases |faces| - start
  {
    if start < |faces| {
      AttemptAddIntendedSucceeds([], faces[start]);
      MakeBatchSound(Intended, faces, start);
      PackIntendedTotal(faces, MakeBatch(Intended, faces, start).1);
    }
  }

  /** A face a fresh batch rejects as written: (0, 100, 31) opens {0, 1} and {100, 1}, then
      grows {0, 1} to {0, 32}, 33 entries in all, because only the chosen block's own size is
      checked against the capacity. */
  lemma FreshBatchRejectsSpread()
    ensures AttemptAdd(AsWritten, [], [0, 100, 31]).None?
  {
    SpreadPlacement();
    assert VertexCount([Block(0, 32), Block(100, 1)]) == 33;
  }

  /** The three growths of (0, 100, 31) in a fresh batch. */
  lemma SpreadPlacement()
    ensures Place(AsWritten, [], [0, 100, 31], 3).blocks == [Block(0, 32), Block(100, 1)]
  {
    var f: Triple := [0, 100, 31];
    var one := [Block(0, 1)];
    var two := [Block(0, 1), Block(100, 1)];
    assert FaceInRange(f);
    assert Place(AsWritten, [], f, 1) == Placement(one, [0]) by {
      assert Grow(AsWritten, [], 0, 2) == Landing(one, 0);
    }
    assert Place(AsWritten, [], f, 2) == Placement(two, [0, 1]) by {
      assert !Fits(AsWritten, one, 0, 100, 1);
      assert Grow(AsWritten, one, 100, 1) == Landing(two, 1);
    }
    assert Grow(AsWritten, two, 31, 0).blocks == [Block(0, 32), Block(100, 1)] by {
      assert Fits(AsWritten, two, 0, 31, 0) && !Fits(AsWritten, two, 1, 31, 0);
    }
  }

  /** Another: (100, 69, 68) grows {100, 1} to {69, 32} and then to {68, 33}, because a
      backward extension is sized one short of what insert makes. */
  lemma FreshBatchRejectsBackward()
    ensures AttemptAdd(AsWritten, [], [100, 69, 68]).None?
  {
    var f: Triple := [100, 69, 68];
    var one := [Block(100, 1)];
    var grown := [Block(69, 32)];
    assert Grow(AsWritten, [], 100, 2) == Landing(one, 0);
    assert Grow(AsWritten, one, 69, 1) == Landing(grown, 0) by {
      assert Fits(AsWritten, one, 0, 69, 1);
    }
    assert Grow(AsWritten, grown, 68, 0).blocks == [Block(68, 33)] by {
      assert Fits(AsWritten, grown, 0, 68, 0);
    }
    assert Place(AsWritten, [], f, 3).blocks == [Block(68, 33)];
    assert VertexCount([Block(68, 33)]) == 33;
  }

  /** On the single face (0, 100, 31) the outer loop's iteration pushes an empty batch and
      leaves triangle_count at 0: the source loops forever, and the model gives None. */
  lemma PackStuck()
    ensures MakeBatch(AsWritten, [[0, 100, 31]], 0) == (Batch([], []), 0)
    ensures Pack(AsWritten, [[0, 100, 31]], 0).None?
  {
    var faces: seq<Triple> := [[0, 100, 31]];
    assert FaceInRange(faces[0]);
    FreshBatchRejectsSpread();
    assert FillFrom(AsWritten, [], faces, 0) == Fill([], 0, []);
    assert TranslateAll([], faces[0..0], []) == [];
  }

  // ---------------------------------------------------------------- when the loop ends

  /** A fresh batch accepts each of faces[start..] on its own. */
  predicate FreshAccepts(rules: Rules, faces: seq<Triple>, start: nat)
    requires FacesInRange(faces)
  {
    forall j :: start <= j < |faces| ==> AttemptAdd(rules, [], faces[j]).Some?
  }

  /** As written, the loop ends whenever a fresh batch accepts every face: each iteration
      then takes at least one face. */
  lemma {:induction false} PackTotalWhenFreshAccepts(faces: seq<Triple>, start: nat)
    requires start <= |faces| && FacesInRange(faces) && FreshAccepts(AsWritten, faces, start)
    ensures Pack(AsWritten, faces, start).Some?
    decreases |faces| - start
  {
    if start < |faces| {
      MakeBatchSound(AsWritten, faces, start);
      PackTotalWhenFreshAccepts(faces, MakeBatch(AsWritten, faces, start).1);
    }
  }

  /** A single block within the window [lo, lo + 30] takes any index of the window, with
      at most one slot held in reserve, and grows in place. */
  lemma GrowWithinWindow(b: Block, index: nat, reserve: nat, lo: nat)
    requires InRange(b) && index < INDEX_LIMIT && reserve <= 1
    requires lo <= b.offset && End(b) <= lo + 31 && lo <= index <= lo + 30
    ensures Grow(AsWritten, [b], index, reserve).blocks == [Insert(b, index)]
  {
    assert Fits(AsWritten, [b], 0, index, reserve);
    assert BestFit(AsWritten, [b], index, reserve) == 0;
  }

  /** Placing the corners of a face within [lo, lo + 30] into a fresh batch keeps a single
      block inside that window. */
  lemma {:induction false} PlaceWithinWindow(face: Triple, i: nat, lo: nat)
    requires 1 <= i <= 3 && FaceInRange(face)
    requires forall m :: 0 <= m < 3 ==> lo <= face[m] <= lo + 30
    ensures var p := Place(AsWritten, [], face, i);
      |p.blocks| == 1 && lo <= p.blocks[0].offset && End(p.blocks[0]) <= lo + 31
    decreases i
  {
    if i == 1 {
      assert BestFit(AsWritten, [], face[0], 2) == -1;
    } else {
      PlaceWithinWindow(face, i - 1, lo);
      var prev := Place(AsWritten, [], face, i - 1);
      GrowWithinWindow(prev.blocks[0], face[i - 1], 3 - i, lo);
      assert [prev.blocks[0]] == prev.blocks;
    }
  }

  /** As written, a fresh batch accepts every face whose three indices are at most 30
      apart: they end up in one block of at most 31 vertices. */
  lemma FreshAcceptsWithinWindow(face: Triple)
    requires FaceInRange(face)
    requires forall m, m' :: 0 <= m < 3 && 0 <= m' < 3 ==> face[m] <= face[m'] + 30
    ensures AttemptAdd(AsWritten, [], face).Some?
  {
    var lo := if face[0] <= face[1] && face[0] <= face[2] then face[0]
              else if face[1] <= face[2] then face[1] else face[2];
    PlaceWithinWindow(face, 3, lo);
    var p := Place(AsWritten, [], face, 3);
    assert p.blocks == [] + [p.blocks[0]];
    VertexCountAppend([], p.blocks[0]);
  }

  /** Every face whose indices are at most 30 apart is packed: the loop ends, and its
      batches draw exactly the faces, in order. */
  lemma PackWithinWindows(faces: seq<Triple>)
    requires FacesInRange(faces)
    requires forall i, m, m' :: 0 <= i < |faces| && 0 <= m < 3 && 0 <= m' < 3 ==>
      faces[i][m] <= faces[i][m'] + 30
    ensures Pack(AsWritten, faces, 0).Some?
    ensures DrawsAll(Pack(AsWritten, faces, 0).value, faces)
  {
    forall j | 0 <= j < |faces|
      ensures AttemptAdd(AsWritten, [], faces[j]).Some?
    {
      FreshAcceptsWithinWindow(faces[j]);
    }
    PackTotalWhenFreshAccepts(faces, 0);
    PackSound(AsWritten, faces, 0);
    assert faces[0..] == faces;
  }

  // ---------------------------------------------------------------- where blocks start

  /** Every block starts below `bound`. */
  predicate OffsetsBelow(blocks: seq<Block>, bound: nat) {
    forall k :: 0 <= k < |blocks| ==> blocks[k].offset < bound
  }

  /** Every block of every batch starts below `bound`. */
  predicate BatchOffsetsBelow(batches: seq<Batch>, bound: nat) {
    forall j :: 0 <= j < |batches| ==> OffsetsBelow(batches[j].blocks, bound)
  }

  /** Every index of every face is below `bound`. */
  predicate IndicesBelow(faces: seq<Triple>, bound: nat) {
    forall i, m :: 0 <= i < |faces| && 0 <= m < 3 ==> faces[i][m] < bound
  }

  /** A block starts at an index it was given: growing appends {index, 1} or moves a block's
      offset down to at most the index. */
  lemma GrowOffsets(rules: Rules, blocks: seq<Block>, index: nat, reserve: nat, bound: nat)
    requires AllInRange(blocks) && index < INDEX_LIMIT
    requires OffsetsBelow(blocks, bound) && index < bound
    ensures OffsetsBelow(Grow(rules, blocks, index, reserve).blocks, bound)
  {
    var k := BestFit(rules, blocks, index, reserve);
    if k < 0 {
      var grown := blocks + [Block(index, 1)];
      assert forall j :: 0 <= j < |blocks| ==> grown[j] == blocks[j];
    }
  }

  lemma {:induction false} PlaceOffsets(rules: Rules, blocks: seq<Block>, face: Triple, i: nat, bound: nat)
    requires i <= 3 && AllInRange(blocks) && FaceInRange(face)
    requires OffsetsBelow(blocks, bound) && forall m :: 0 <= m < 3 ==> face[m] < bound
    ensures OffsetsBelow(Place(rules, blocks, face, i).blocks, bound)
    decreases i
  {
    if i > 0 {
      PlaceOffsets(rules, blocks, face, i - 1, bound);
      GrowOffsets(rules, Place(rules, blocks, face, i - 1).blocks, face[i - 1], 3 - i, bound);
    }
  }

  lemma {:induction false} FillFromOffsets(rules: Rules, blocks: seq<Block>, faces: seq<Triple>, j: nat, bound: nat)
    requires j <= |faces| && AllInRange(blocks) && FacesInRange(faces)
    requires VertexCount(blocks) <= MAX_BATCH_SIZE
    requires OffsetsBelow(blocks, bound) && IndicesBelow(faces, bound)
    ensures OffsetsBelow(FillFrom(rules, blocks, faces, j).blocks, bound)
    decreases |faces| - j
  {
    if j < |faces| && AttemptAdd(rules, blocks, faces[j]).Some? {
      PlaceOffsets(rules, blocks, faces[j], 3, bound);
      FillFromOffsets(rules, AttemptAdd(rules, blocks, faces[j]).value.blocks, faces, j + 1, bound);
    }
  }

  lemma BatchOffsetsCons(batch: Batch, rest: seq<Batch>, bound: nat)
    requires OffsetsBelow(batch.blocks, bound) && BatchOffsetsBelow(rest, bound)
    ensures BatchOffsetsBelow([batch] + rest, bound)
  {
    var all := [batch] + rest;
    forall j | 0 <= j < |all|
      ensures OffsetsBelow(all[j].blocks, bound)
    {
      if j > 0 {
        assert all[j] == rest[j - 1];
      }
    }
  }

  /** The packed blocks start below any bound on the face indices. */
  lemma {:induction false} PackOffsets(rules: Rules, faces: seq<Triple>, start: nat, bound: nat)
    requires start <= |faces| && FacesInRange(faces) && IndicesBelow(faces, bound)
    ensures Pack(rules, faces, start).Some? ==> BatchOffsetsBelow(Pack(rules, faces, start).value, bound)
    decreases |faces| - start
  {
    if start < |faces| {
      var step := MakeBatch(rules, faces, start);
      var rest := Pack(rules, faces, step.1);
      if step.1 != start && rest.Some? {
        PackOffsets(rules, faces, step.1, bound);
        FillFromOffsets(rules, [], faces, start, bound);
        assert step.0.blocks == FillFrom(rules, [], faces, start).blocks;
        BatchOffsetsCons(step.0, rest.value, bound);
        assert Pack(rules, faces, start) == Some([step.0] + rest.value);
      }
    }
  }

  /** The rest of a fill, after the block indices already recorded. */
  function After(recorded: seq<Triple>, rest: Fill): Fill {
    Fill(rest.blocks, rest.end, recorded + rest.blockIndices)
  }

  lemma AfterAfter(first: seq<Triple>, second: seq<Triple>, rest: Fill)
    ensures After(first, After(second, rest)) == After(first + second, rest)
  {
    AppendAssoc(first, second, rest.blockIndices);
  }

  /** One pass of the first inner loop: offers faces[end] to the batch. A rejected face ends
      the fill where it stands; an accepted one has its block indices recorded and the fill
      goes on from the next face. `target` is the fill the whole loop computes. */
  method AddNext(batch: TriangleBatch, faces: seq<Triple>, end: nat, recorded: seq<Triple>,
                 ghost target: Fill)
      returns (added: bool, recordedNext: seq<Triple>, next: nat)
    requires end < |faces| && FacesInRange(faces)
    requires AllInRange(batch.blocks) && VertexCount(batch.blocks) <= MAX_BATCH_SIZE
    requires target == After(recorded, FillFrom(AsWritten, batch.blocks, faces, end))
    modifies batch`blocks
    ensures AllInRange(batch.blocks) && VertexCount(batch.blocks) <= MAX_BATCH_SIZE
    ensures !added ==> batch.blocks == old(batch.blocks) && target == After(recorded, Fill(batch.blocks, end, []))
    ensures added ==>
      && next == end + 1 && recordedNext == recorded + [Place(AsWritten, old(batch.blocks), faces[end], 3).blockIndices]
      && target == After(recordedNext, FillFrom(AsWritten, batch.blocks, faces, next))
  {
    var blockIndices;
    added, blockIndices := batch.TryAddTriangle(faces[end]);
    FillFromStep(AsWritten, old(batch.blocks), faces, end);
    recordedNext := recorded + [blockIndices];
    next := end + 1;
    if added {
      AfterAfter(recorded, [blockIndices], FillFrom(AsWritten, batch.blocks, faces, next));
    }
  }

  /** The first inner loop of the batching: adds faces[start..] to a fresh batch until the
      end of the faces or the first face the batch rejects, collecting the block indices of
      each face it took. */
  method FillBatch(batch: TriangleBatch, faces: seq<Triple>, start: nat)
      returns (end: nat, blockIndicesPerTriangle: seq<Triple>)
    requires start <= |faces| && FacesInRange(faces)
    requires batch.blocks == []
    modifies batch`blocks
    ensures FillFrom(AsWritten, [], faces, start) == Fill(batch.blocks, end, blockIndicesPerTriangle)
  {
    ghost var target := FillFrom(AsWritten, [], faces, start);
    end := start;
    blockIndicesPerTriangle := [];
    assert blockIndicesPerTriangle + target.blockIndices == target.blockIndices;
    while end < |faces|
      invariant start <= end <= |faces|
      invariant AllInRange(batch.blocks) && VertexCount(batch.blocks) <= MAX_BATCH_SIZE
      invariant target == After(blockIndicesPerTriangle, FillFrom(AsWritten, batch.blocks, faces, end))
      decreases |faces| - end
    {
      var added, recorded, next := AddNext(batch, faces, end, blockIndicesPerTriangle, target);
      if !added {
        break;
      }
      blockIndicesPerTriangle := recorded;
      end := next;
    }
    assert blockIndicesPerTriangle + [] == blockIndicesPerTriangle;
  }

  /** The innermost loop of the batching: transform_index applied to the three corners of one
      face. */
  method TranslateFace(batch: TriangleBatch, face: Triple, blockIndices: Triple) returns (triangle: Triple)
    requires Within(blockIndices, |batch.blocks|)
    ensures triangle == Translate(batch.blocks, face, blockIndices)
  {
    var corners: seq<nat> := [];
    for j := 0 to 3
      invariant |corners| == j
      invariant forall m :: 0 <= m < j ==> corners[m] == LocalIndex(batch.blocks, face[m], blockIndices[m])
    {
      var local := batch.TransformIndex(face[j], blockIndices[j]);
      corners := corners + [local];
    }
    triangle := corners;
  }

  /** The second inner loop of the batching: appends the batch-local triangle of each face in
      faces[start..end], through transform_index. */
  method TranslateBatch(batch: TriangleBatch, faces: seq<Triple>, start: nat, end: nat,
                        blockIndicesPerTriangle: seq<Triple>)
    requires start <= end <= |faces| && |blockIndicesPerTriangle| == end - start
    requires Indexed(batch.blocks, blockIndicesPerTriangle)
    requires batch.triangles == []
    modifies batch`triangles
    ensures batch.triangles == TranslateAll(batch.blocks, faces[start..end], blockIndicesPerTriangle)
  {
    ghost var taken := faces[start..end];
    for i := start to end
      invariant |batch.triangles| == i - start
      invariant Translated(batch.blocks, taken, blockIndicesPerTriangle, batch.triangles)
    {
      assert taken[i - start] == faces[i];
      var triangle := TranslateFace(batch, faces[i], blockIndicesPerTriangle[i - start]);
      TranslatedSnoc(batch.blocks, taken, blockIndicesPerTriangle, batch.triangles, triangle);
      batch.triangles := batch.triangles + [triangle];
    }
    TranslatedAll(batch.blocks, taken, blockIndicesPerTriangle, batch.triangles);
  }

  /** The body of the batching loop: fills a fresh triangle_batch from `start`, translates
      the faces it took, and returns it with the next triangle_count. */
  method PackOne(faces: seq<Triple>, start: nat) returns (batch: Batch, end: nat)
    requires start <= |faces| && FacesInRange(faces)
    ensures (batch, end) == MakeBatch(AsWritten, faces, start)
  {
    var tb := new TriangleBatch();
    var blockIndicesPerTriangle;
    end, blockIndicesPerTriangle := FillBatch(tb, faces, start);
    TranslateBatch(tb, faces, start, end, blockIndicesPerTriangle);
    batch := Batch(tb.blocks, tb.triangles);
  }

  /** The batching loop of mesh::from_assimp_mesh, over the faces with exactly three indices.
      Where the source's loop never ends, because a fresh batch rejects a face, this returns
      None. */
  method BuildBatches(faces: seq<Triple>) returns (batches: Option<seq<Batch>>)
    requires FacesInRange(faces)
    ensures batches == Pack(AsWritten, faces, 0)
    ensures batches.Some? ==> DrawsAll(batches.value, faces)
    ensures FreshAccepts(AsWritten, faces, 0) ==> batches.Some?
  {
    if FreshAccepts(AsWritten, faces, 0) {
      PackTotalWhenFreshAccepts(faces, 0);
    }
    var output: seq<Batch> := [];
    var triangleCount := 0;
    ghost var whole := Pack(AsWritten, faces, 0);
    assert whole.Some? ==> [] + whole.value == whole.value;
    while triangleCount < |faces|
      invariant triangleCount <= |faces|
      invariant Pack(AsWritten, faces, 0) == Prepend(output, Pack(AsWritten, faces, triangleCount))
      decreases |faces| - triangleCount
    {
      var batch, triangleIndex := PackOne(faces, triangleCount);
      PackStep(AsWritten, faces, triangleCount);
      if triangleIndex == triangleCount {
        // The source pushes this empty batch and repeats the iteration from the same state forever.
        return None;
      }
      PrependPrepend(output, [batch], Pack(AsWritten, faces, triangleIndex));
      assert Pack(AsWritten, faces, 0) == Prepend(output + [batch], Pack(AsWritten, faces, triangleIndex));
      assert |batch.triangles| == triangleIndex - triangleCount;
      output := output + [batch];
      triangleCount := triangleCount + |batch.triangles|;
      assert triangleCount == triangleIndex <= |faces|;
      assert Pack(AsWritten, faces, 0) == Prepend(output, Pack(AsWritten, faces, triangleCount));
    }
    assert output + [] == output;
    batches := Some(output);
    PackSound(AsWritten, faces, 0);
    assert faces[0..] == faces;
  }
}
