/** The MC64 file mconv64 writes (binary_output.cpp): big-endian serialisation, the vertex
    records, the ugfx command list built from the batches, and the file layout. */
module BinaryOutput {
  import opened MeshTypes
  import opened Wrappers
  import opened Seqs
  import opened Microcode
  import Packer

  const MC64_VERSION: nat := 1
  /** "MC64" in ASCII. */
  const MAGIC: seq<byte> := [0x4D, 0x43, 0x36, 0x34]
  /** sizeof(vertex): six int16 fields and four attribute bytes. */
  const VERTEX_SIZE: nat := 16
  /** sizeof(uint64_t): one command word. */
  const WORD_SIZE: nat := 8
  /** The magic and three uint32 header fields. */
  const HEADER_SIZE: nat := 16

  // ---------------------------------------------------------------- arithmetic

  function Pow2(k: nat): (p: nat)
    ensures p > 0
  {
    if k == 0 then 1 else 2 * Pow2(k - 1)
  }

  function Pow256(k: nat): (p: nat)
    ensures p > 0
  {
    if k == 0 then 1 else 256 * Pow256(k - 1)
  }

  lemma {:induction false} Pow2Add(a: nat, b: nat)
    ensures Pow2(a + b) == Pow2(a) * Pow2(b)
  {
    if b > 0 {
      Pow2Add(a, b - 1);
      calc {
        Pow2(a + b);
        2 * Pow2(a + b - 1);
        2 * (Pow2(a) * Pow2(b - 1));
        Pow2(a) * (2 * Pow2(b - 1));
      }
    }
  }

  lemma {:induction false} Pow2Monotone(k: nat, n: nat)
    requires k <= n
    ensures Pow2(k) <= Pow2(n)
    decreases n
  {
    if k < n {
      Pow2Monotone(k, n - 1);
    }
  }

  /** The field widths of the command words as powers of two. */
  lemma Pow2Values()
    ensures Pow2(6) == 64 && Pow2(24) == 0x100_0000 && Pow2(25) == 0x200_0000
  {
    assert Pow2(8) == 256;
    Pow2Add(8, 8);
    Pow2Add(16, 8);
  }

  lemma MulAtLeast(d: nat, a: int)
    requires a >= 1
    ensures d * a >= d
  {
  }

  /** Quotient and remainder are the only pair that rebuilds x with a remainder below d. */
  lemma DivModUnique(x: int, d: nat, q: int, r: int)
    requires d > 0 && 0 <= r < d && x == d * q + r
    ensures x / d == q && x % d == r
  {
    var q', r' := x / d, x % d;
    assert d * (q - q') == r' - r;
    if q > q' {
      MulAtLeast(d, q - q');
    }
    if q < q' {
      MulAtLeast(d, q' - q);
    }
  }

  /** Dividing by a * m is dividing by a, then by m; the remainder splits the same way. */
  lemma DivModNested(x: int, a: nat, m: nat)
    requires a > 0 && m > 0
    ensures x / (a * m) == (x / a) / m
    ensures x % (a * m) == a * ((x / a) % m) + x % a
  {
    var q, r := x / a, x % a;
    var q2, r2 := q / m, q % m;
    assert x == a * q + r;
    assert q == m * q2 + r2;
    assert x == (a * m) * q2 + (a * r2 + r);
    assert a * r2 + r < a * m by {
      assert r2 <= m - 1;
      assert a * r2 <= a * (m - 1);
    }
    DivModUnique(x, a * m, q2, a * r2 + r);
  }

  // ---------------------------------------------------------------- write_be

  /** The bytes write_be emits for a value of `size` bytes, most significant first: byte i is
      (v >> 8 * (size - i - 1)) & 0xFF. For a signed v the shift is arithmetic, which is
      division by a power of 256 rounding down, and the mask keeps the remainder modulo 256. */
  function BigEndian(v: int, size: nat): (bs: seq<byte>)
    ensures |bs| == size
  {
    seq(size, i requires 0 <= i < size => (v / Pow256(size - i - 1)) % 256)
  }

  /** The unsigned value of big-endian bytes. */
  function ReadBigEndian(bs: seq<byte>): (r: nat)
    ensures r < Pow256(|bs|)
    decreases |bs|
  {
    if bs == [] then 0 else ReadBigEndian(bs[..|bs| - 1]) * 256 + bs[|bs| - 1]
  }

  /** The last byte is the low byte; the ones before it encode the value shifted right by 8. */
  lemma BigEndianSnoc(v: int, size: nat)
    requires size > 0
    ensures BigEndian(v, size) == BigEndian(v / 256, size - 1) + [v % 256]
  {
    var bs, init := BigEndian(v, size), BigEndian(v / 256, size - 1);
    forall i | 0 <= i < size - 1
      ensures bs[i] == init[i]
    {
      var p := Pow256(size - i - 2);
      assert Pow256(size - i - 1) == 256 * p;
      DivModNested(v, 256, p);
      assert bs[i] == (v / (256 * p)) % 256;
      assert init[i] == ((v / 256) / p) % 256;
    }
    assert Pow256(0) == 1;
    assert bs == init + [v % 256];
  }

  /** Reading back what write_be emits gives the value modulo 2^(8 * size). */
  lemma {:induction false} BigEndianRoundTrip(v: int, size: nat)
    ensures ReadBigEndian(BigEndian(v, size)) == v % Pow256(size)
    decreases size
  {
    if size > 0 {
      var init := BigEndian(v / 256, size - 1);
      BigEndianSnoc(v, size);
      assert (init + [v % 256])[..size - 1] == init;
      BigEndianRoundTrip(v / 256, size - 1);
      DivModNested(v, 256, Pow256(size - 1));
    }
  }

  /** Every byte string is what write_be emits for the value it reads as: the encoding
      loses nothing. */
  lemma {:induction false} ReadBigEndianInverse(bs: seq<byte>)
    ensures BigEndian(ReadBigEndian(bs), |bs|) == bs
    decreases |bs|
  {
    if bs != [] {
      var init, last := bs[..|bs| - 1], bs[|bs| - 1];
      var r := ReadBigEndian(bs);
      DivModUnique(r, 256, ReadBigEndian(init), last);
      BigEndianSnoc(r, |bs|);
      ReadBigEndianInverse(init);
      assert bs == init + [last];
    }
  }

  /** The value an int16 has, given the 16 bits of its two's complement. */
  function Signed16(bits: nat): int16
    requires bits < 0x1_0000
  {
    if bits >= 0x8000 then bits - 0x1_0000 else bits
  }

  /** An int16 written and read back as two's complement is unchanged. */
  lemma Int16RoundTrip(v: int16)
    ensures Signed16(ReadBigEndian(BigEndian(v, 2))) == v
  {
    assert Pow256(2) == 0x1_0000;
    BigEndianRoundTrip(v, 2);
    if v < 0 {
      DivModUnique(v, 0x1_0000, -1, v + 0x1_0000);
    } else {
      DivModUnique(v, 0x1_0000, 0, v);
    }
  }

  /** The output file: the bytes written to it so far. */
  class Stream {
    var written: seq<byte>

    /** A file opened with std::ios::trunc starts empty. */
    constructor ()
      ensures written == []
    {
      written := [];
    }

    /** ostream::write: appends the buffer's bytes. */
    method Write(buffer: array<byte>)
      modifies this
      ensures written == old(written) + buffer[..]
    {
      written := written + buffer[..];
    }
  }

  /** write_be for a value of `size` bytes: fills the buffer from the most significant byte
      down, then writes it. */
  method WriteBe(stream: Stream, v: int, size: nat)
    modifies stream
    ensures stream.written == old(stream.written) + BigEndian(v, size)
  {
    var buffer := new byte[size];
    for i := 0 to size
      invariant forall j :: 0 <= j < i ==> buffer[j] == BigEndian(v, size)[j]
      invariant stream.written == old(stream.written)
    {
      buffer[i] := (v / Pow256(size - i - 1)) % 256;
    }
    assert buffer[..] == BigEndian(v, size);
    stream.Write(buffer);
  }

  // ---------------------------------------------------------------- write_be<vertex>

  /** write_be<vertex>: x, y, z, then a zero int16 in place of `_unused`, then s, t and the
      four attribute bytes, each field big-endian. */
  function VertexRecord(v: Vertex): (bs: seq<byte>)
    ensures |bs| == VERTEX_SIZE
  {
    BigEndian(v.x, 2) + BigEndian(v.y, 2) + BigEndian(v.z, 2) + BigEndian(0, 2)
    + BigEndian(v.s, 2) + BigEndian(v.t, 2)
    + BigEndian(v.attr.r, 1) + BigEndian(v.attr.g, 1) + BigEndian(v.attr.b, 1) + BigEndian(v.attr.a, 1)
  }

  /** How a reader of the file takes a 16-byte vertex record apart. */
  function ReadVertex(bs: seq<byte>): Vertex
    requires |bs| == VERTEX_SIZE
  {
    Vertex(Signed16(ReadBigEndian(bs[0..2])), Signed16(ReadBigEndian(bs[2..4])),
           Signed16(ReadBigEndian(bs[4..6])), Signed16(ReadBigEndian(bs[6..8])),
           Signed16(ReadBigEndian(bs[8..10])), Signed16(ReadBigEndian(bs[10..12])),
           Attributes(bs[12], bs[13], bs[14], bs[15]))
  }

  lemma ByteRecord(b: byte)
    ensures BigEndian(b, 1) == [b]
  {
    assert Pow256(0) == 1;
  }

  /** A vertex record reads back as the vertex, except that the `_unused` word always
      reads as zero. */
  lemma VertexRoundTrip(v: Vertex)
    ensures ReadVertex(VertexRecord(v)) == v.(unused := 0)
  {
    var rec := VertexRecord(v);
    assert rec[0..2] == BigEndian(v.x, 2) && rec[2..4] == BigEndian(v.y, 2);
    assert rec[4..6] == BigEndian(v.z, 2) && rec[6..8] == BigEndian(0, 2);
    assert rec[8..10] == BigEndian(v.s, 2) && rec[10..12] == BigEndian(v.t, 2);
    ByteRecord(v.attr.r);
    ByteRecord(v.attr.g);
    ByteRecord(v.attr.b);
    ByteRecord(v.attr.a);
    assert rec[12..] == [v.attr.r, v.attr.g, v.attr.b, v.attr.a];
    Int16RoundTrip(v.x);
    Int16RoundTrip(v.y);
    Int16RoundTrip(v.z);
    Int16RoundTrip(0);
    Int16RoundTrip(v.s);
    Int16RoundTrip(v.t);
  }

  /** write_be<vertex>. */
  method WriteBeVertex(stream: Stream, v: Vertex)
    modifies stream
    ensures stream.written == old(stream.written) + VertexRecord(v)
  {
    ghost var start := stream.written;
    WriteBe(stream, v.x, 2);
    ghost var record := BigEndian(v.x, 2);
    WriteBe(stream, v.y, 2);
    AppendAssoc(start, record, BigEndian(v.y, 2));
    record := record + BigEndian(v.y, 2);
    WriteBe(stream, v.z, 2);
    AppendAssoc(start, record, BigEndian(v.z, 2));
    record := record + BigEndian(v.z, 2);
    WriteBe(stream, 0, 2);
    AppendAssoc(start, record, BigEndian(0, 2));
    record := record + BigEndian(0, 2);
    WriteBe(stream, v.s, 2);
    AppendAssoc(start, record, BigEndian(v.s, 2));
    record := record + BigEndian(v.s, 2);
    WriteBe(stream, v.t, 2);
    AppendAssoc(start, record, BigEndian(v.t, 2));
    record := record + BigEndian(v.t, 2);
    WriteBe(stream, v.attr.r, 1);
    AppendAssoc(start, record, BigEndian(v.attr.r, 1));
    record := record + BigEndian(v.attr.r, 1);
    WriteBe(stream, v.attr.g, 1);
    AppendAssoc(start, record, BigEndian(v.attr.g, 1));
    record := record + BigEndian(v.attr.g, 1);
    WriteBe(stream, v.attr.b, 1);
    AppendAssoc(start, record, BigEndian(v.attr.b, 1));
    record := record + BigEndian(v.attr.b, 1);
    WriteBe(stream, v.attr.a, 1);
    AppendAssoc(start, record, BigEndian(v.attr.a, 1));
    record := record + BigEndian(v.attr.a, 1);
  }

  // ---------------------------------------------------------------- write_be_vector

  /** The bytes of a vector written item by item, each item as `record` serialises it. */
  function Flatten<T(!new)>(items: seq<T>, record: T -> seq<byte>, size: nat): (bs: seq<byte>)
    requires forall x :: |record(x)| == size
    ensures |bs| == size * |items|
    decreases |items|
  {
    if items == [] then []
    else Flatten(items[..|items| - 1], record, size) + record(items[|items| - 1])
  }

  /** Item i occupies bytes size * i up to size * (i + 1). */
  lemma {:induction false} FlattenAt<T(!new)>(items: seq<T>, record: T -> seq<byte>, size: nat, i: nat)
    requires forall x :: |record(x)| == size
    requires i < |items|
    ensures size * i + size <= size * |items|
    ensures Flatten(items, record, size)[size * i..size * i + size] == record(items[i])
    decreases |items|
  {
    var init := items[..|items| - 1];
    var head := Flatten(init, record, size);
    var last := record(items[|items| - 1]);
    assert Flatten(items, record, size) == head + last;
    assert size * |items| == size * |init| + size;
    if i < |init| {
      FlattenAt(init, record, size, i);
      assert init[i] == items[i];
      SliceLeft(head, last, size * i, size * i + size);
    } else {
      assert size * i == |head|;
      SliceRight(head, last, 0, size);
      assert last[0..size] == last;
    }
  }

  /** Flattening one more item appends its record. */
  lemma FlattenSnoc<T(!new)>(items: seq<T>, record: T -> seq<byte>, size: nat, i: nat)
    requires forall x :: |record(x)| == size
    requires i < |items|
    ensures Flatten(items[..i + 1], record, size) == Flatten(items[..i], record, size) + record(items[i])
  {
    assert items[..i + 1][..i] == items[..i];
  }

  /** write_be_vector over the vertices. */
  method WriteBeVertices(stream: Stream, vertices: seq<Vertex>)
    modifies stream
    ensures stream.written == old(stream.written) + Flatten(vertices, VertexRecord, VERTEX_SIZE)
  {
    ghost var start := stream.written;
    for i := 0 to |vertices|
      invariant stream.written == start + Flatten(vertices[..i], VertexRecord, VERTEX_SIZE)
    {
      WriteBeVertex(stream, vertices[i]);
      FlattenSnoc(vertices, VertexRecord, VERTEX_SIZE, i);
      AppendAssoc(start, Flatten(vertices[..i], VertexRecord, VERTEX_SIZE), VertexRecord(vertices[i]));
    }
    assert vertices[..|vertices|] == vertices;
  }

  /** write_be of a command word: its eight bytes, most significant first. */
  function WordBytes(w: bv64): (bs: seq<byte>)
    ensures |bs| == WORD_SIZE
  {
    BigEndian(w as int, WORD_SIZE)
  }

  /** The eight bytes of a word read back as the word. */
  lemma WordRoundTrip(w: bv64)
    ensures ReadBigEndian(WordBytes(w)) == w as int
  {
    var x := w as int;
    assert x < 0x1_0000_0000_0000_0000;
    assert Pow256(8) == 0x1_0000_0000_0000_0000;
    BigEndianRoundTrip(x, WORD_SIZE);
    DivModUnique(x, Pow256(8), 0, x);
  }

  /** write_be_vector over the command words. */
  method WriteBeWords(stream: Stream, words: seq<bv64>)
    modifies stream
    ensures stream.written == old(stream.written) + Flatten(words, WordBytes, WORD_SIZE)
  {
    ghost var start := stream.written;
    for i := 0 to |words|
      invariant stream.written == start + Flatten(words[..i], WordBytes, WORD_SIZE)
    {
      WriteBe(stream, words[i] as int, WORD_SIZE);
      FlattenSnoc(words, WordBytes, WORD_SIZE, i);
      AppendAssoc(start, Flatten(words[..i], WordBytes, WORD_SIZE), WordBytes(words[i]));
    }
    assert words[..|words|] == words;
  }

  // ---------------------------------------------------------------- make_cmd_list

  /** The binary digits of x modulo 2^width, most significant first. */
  function LowBits(x: nat, width: nat): (bits: seq<bv1>)
    ensures |bits| == width
  {
    if width == 0 then [] else LowBits(x / 2, width - 1) + [if x % 2 == 0 then 0 else 1]
  }

  /** The number binary digits denote. */
  function Value(bits: seq<bv1>): nat
    decreases |bits|
  {
    if bits == [] then 0 else 2 * Value(bits[..|bits| - 1]) + bits[|bits| - 1] as int
  }

  /** The 64-bit word with the given low digits and zeros above them. */
  function Word(bits: seq<bv1>): bv64
    decreases |bits|
  {
    if bits == [] then 0 else (Word(bits[..|bits| - 1]) << 1) | bits[|bits| - 1] as bv64
  }

  /** The low `width` bits of x as a 64-bit word: what __ugfx_mask_shift keeps of a
      non-negative x after the cast to uint64_t and a mask of `width` ones. */
  function Bits(x: nat, width: nat): bv64
    requires width <= 25
  {
    Word(LowBits(x, width))
  }

  lemma {:induction false} ValueBound(bits: seq<bv1>)
    ensures Value(bits) < Pow2(|bits|)
    decreases |bits|
  {
    if bits != [] {
      ValueBound(bits[..|bits| - 1]);
    }
  }

  lemma {:induction false} LowBitsValue(x: nat, width: nat)
    ensures Value(LowBits(x, width)) == x % Pow2(width)
    decreases width
  {
    if width > 0 {
      var bits := LowBits(x, width);
      assert bits[..width - 1] == LowBits(x / 2, width - 1);
      LowBitsValue(x / 2, width - 1);
      assert bits[width - 1] as int == x % 2;
      DivModNested(x, 2, Pow2(width - 1));
    }
  }

  lemma Pow2Below(k: nat)
    requires k <= 24
    ensures Pow2(k) <= 0x100_0000
  {
    Pow2Monotone(k, 24);
    Pow2Values();
  }

  lemma ShiftIn(high: bv64, low: bv1)
    requires high as int < 0x100_0000
    ensures ((high << 1) | low as bv64) as int == 2 * (high as int) + low as int
  {
  }

  /** Up to 25 digits, the word has the value of its digits. */
  lemma {:induction false} WordValue(bits: seq<bv1>)
    requires |bits| <= 25
    ensures Word(bits) as int == Value(bits)
    decreases |bits|
  {
    if bits != [] {
      var init := bits[..|bits| - 1];
      WordValue(init);
      ValueBound(init);
      Pow2Below(|init|);
      ShiftIn(Word(init), bits[|bits| - 1]);
    }
  }

  /** Bits(x, width) has the value of x modulo 2^width. */
  lemma BitsValue(x: nat, width: nat)
    requires width <= 25
    ensures Bits(x, width) as int == x % Pow2(width)
  {
    LowBitsValue(x, width);
    WordValue(LowBits(x, width));
  }

  /** A word below 2^6 (2^25) is unchanged by the 6-bit (25-bit) field mask. */
  lemma MaskKeeps(w: bv64)
    ensures w as int < 64 ==> w & 0x3F == w
    ensures w as int < 0x200_0000 ==> w & 0x1FF_FFFF == w
  {
  }

  /** The six-bit and 25-bit fields the command list fills, with their integer values. */
  lemma FieldBits(x: nat)
    ensures Bits(x, 6) & 0x3F == Bits(x, 6) && Bits(x, 6) as int == x % 64
    ensures Bits(x, 25) & 0x1FF_FFFF == Bits(x, 25) && Bits(x, 25) as int == x % 0x200_0000
  {
    Pow2Values();
    BitsValue(x, 6);
    BitsValue(x, 25);
    MaskKeeps(Bits(x, 6));
    MaskKeeps(Bits(x, 25));
  }

  /** ugfx_load_vertices(1, block.offset * sizeof(vertex), v0, block.n). */
  function LoadWord(b: Block, v0: nat): bv64 {
    LoadVerticesWord(1, Bits(b.offset * VERTEX_SIZE, 25), Bits(v0, 6), Bits(b.n, 6))
  }

  /** ugfx_draw_triangle(indices[0], indices[1], indices[2]). */
  function DrawWord(t: Triple): bv64 {
    DrawTriangleWord(Bits(t[0], 6), Bits(t[1], 6), Bits(t[2], 6))
  }

  /** A load word decodes to slot 1, the block's byte offset, the cache entry v0 and the
      block's length, each as its field's width leaves it. */
  lemma LoadWordFields(b: Block, v0: nat)
    ensures Decode(LoadWord(b, v0)).Some?
    ensures var c := Decode(LoadWord(b, v0)).value;
      && c == LoadVertices(1, Bits(b.offset * VERTEX_SIZE, 25), Bits(v0, 6), Bits(b.n, 6))
      && c.vertices as int == (b.offset * VERTEX_SIZE) % 0x200_0000
      && c.index as int == v0 % 64
      && c.count as int == b.n % 64
  {
    FieldBits(b.offset * VERTEX_SIZE);
    FieldBits(v0);
    FieldBits(b.n);
    assert (1 as bv64) & 0xF == 1;
    DecodeLoadVertices(1, Bits(b.offset * VERTEX_SIZE, 25), Bits(v0, 6), Bits(b.n, 6));
  }

  /** A draw word decodes to the triangle's three batch-local indices, each modulo 64. */
  lemma DrawWordFields(t: Triple)
    ensures Decode(DrawWord(t)).Some?
    ensures var c := Decode(DrawWord(t)).value;
      && c == DrawTriangle(Bits(t[0], 6), Bits(t[1], 6), Bits(t[2], 6))
      && c.v0 as int == t[0] % 64 && c.v1 as int == t[1] % 64 && c.v2 as int == t[2] % 64
  {
    FieldBits(t[0]);
    FieldBits(t[1]);
    FieldBits(t[2]);
    DecodeDrawTriangle(Bits(t[0], 6), Bits(t[1], 6), Bits(t[2], 6));
  }

  /** The loads of a batch: block k goes to the cache from entry v0 on, v0 being the number
      of vertices the blocks before it hold. */
  function LoadCommands(blocks: seq<Block>): (ws: seq<bv64>)
    ensures |ws| == |blocks|
  {
    seq(|blocks|, k requires 0 <= k < |blocks| => LoadWord(blocks[k], Packer.Prefix(blocks, k)))
  }

  /** The draws of a batch, one per triangle, in order. */
  function DrawCommands(triangles: seq<Triple>): (ws: seq<bv64>)
    ensures |ws| == |triangles|
  {
    seq(|triangles|, i requires 0 <= i < |triangles| => DrawWord(triangles[i]))
  }

  /** A batch's loads, then its draws. */
  function BatchCommands(batch: Batch): seq<bv64> {
    LoadCommands(batch.blocks) + DrawCommands(batch.triangles)
  }

  /** The commands of the batches, in order, without the final word. */
  function Commands(batches: seq<Batch>): seq<bv64>
    decreases |batches|
  {
    if batches == [] then []
    else Commands(batches[..|batches| - 1]) + BatchCommands(batches[|batches| - 1])
  }

  /** make_cmd_list: every batch's commands, then ugfx_finalize. */
  function CommandList(batches: seq<Batch>): seq<bv64> {
    Commands(batches) + [FinalizeWord()]
  }

  lemma PrefixStep(blocks: seq<Block>, i: nat)
    requires i < |blocks|
    ensures Packer.Prefix(blocks, i + 1) == Packer.Prefix(blocks, i) + blocks[i].n
  {
    assert blocks[..i + 1] == blocks[..i] + [blocks[i]];
    Packer.VertexCountAppend(blocks[..i], blocks[i]);
  }

  /** The body of make_cmd_list's loop for one batch: a load per block with the running v0,
      then a draw per triangle. */
  method AppendBatch(cmdList: seq<bv64>, batch: Batch) returns (result: seq<bv64>)
    ensures result == cmdList + BatchCommands(batch)
  {
    result := cmdList;
    ghost var loads := LoadCommands(batch.blocks);
    var v0 := 0;
    for i := 0 to |batch.blocks|
      invariant v0 == Packer.Prefix(batch.blocks, i)
      invariant result == cmdList + loads[..i]
    {
      var block := batch.blocks[i];
      result := result + [LoadWord(block, v0)];
      TakeSnoc(loads, i);
      AppendAssoc(cmdList, loads[..i], [loads[i]]);
      PrefixStep(batch.blocks, i);
      v0 := v0 + block.n;
    }
    assert loads[..|loads|] == loads;
    ghost var head := result;
    ghost var draws := DrawCommands(batch.triangles);
    for i := 0 to |batch.triangles|
      invariant result == head + draws[..i]
    {
      result := result + [DrawWord(batch.triangles[i])];
      TakeSnoc(draws, i);
      AppendAssoc(head, draws[..i], [draws[i]]);
    }
    assert draws[..|draws|] == draws;
    AppendAssoc(cmdList, loads, draws);
  }

  /** make_cmd_list. */
  method MakeCmdList(mesh: Mesh) returns (cmdList: seq<bv64>)
    ensures cmdList == CommandList(mesh.batches)
  {
    cmdList := [];
    for k := 0 to |mesh.batches|
      invariant cmdList == Commands(mesh.batches[..k])
    {
      cmdList := AppendBatch(cmdList, mesh.batches[k]);
      assert mesh.batches[..k + 1][..k] == mesh.batches[..k];
    }
    assert mesh.batches[..|mesh.batches|] == mesh.batches;
    cmdList := cmdList + [FinalizeWord()];
  }

  /** The number of commands the batches emit: one load per block, one draw per triangle. */
  function CommandCount(batches: seq<Batch>): nat
    decreases |batches|
  {
    if batches == [] then 0
    else
      var last := batches[|batches| - 1];
      CommandCount(batches[..|batches| - 1]) + |last.blocks| + |last.triangles|
  }

  /** The command list holds a load per block and a draw per triangle, plus the final word. */
  lemma {:induction false} CommandListLength(batches: seq<Batch>)
    ensures |CommandList(batches)| == CommandCount(batches) + 1
  {
    CommandsLength(batches);
  }

  lemma {:induction false} CommandsLength(batches: seq<Batch>)
    ensures |Commands(batches)| == CommandCount(batches)
    decreases |batches|
  {
    if batches != [] {
      CommandsLength(batches[..|batches| - 1]);
    }
  }

  /** Within a batch's commands the loads come first, block by block, each loading its block's
      vertices (byte offset offset * 16) to the cache entry that follows the blocks before it;
      the draws follow, triangle by triangle. Every field is cut to its width. */
  lemma BatchLayout(batch: Batch, i: nat)
    requires i < |BatchCommands(batch)|
    ensures Decode(BatchCommands(batch)[i]).Some?
    ensures var c := Decode(BatchCommands(batch)[i]).value;
      if i < |batch.blocks| then
        var b := batch.blocks[i];
        && c.LoadVertices? && c.slot == 1
        && c.vertices as int == (b.offset * VERTEX_SIZE) % 0x200_0000
        && c.index as int == Packer.Prefix(batch.blocks, i) % 64
        && c.count as int == b.n % 64
      else
        var t := batch.triangles[i - |batch.blocks|];
        && c.DrawTriangle?
        && c.v0 as int == t[0] % 64 && c.v1 as int == t[1] % 64 && c.v2 as int == t[2] % 64
  {
    if i < |batch.blocks| {
      LoadWordFields(batch.blocks[i], Packer.Prefix(batch.blocks, i));
    } else {
      DrawWordFields(batch.triangles[i - |batch.blocks|]);
    }
  }

  /** Every word before the last is a load or a draw. */
  lemma {:induction false} CommandsAreLoadsAndDraws(batches: seq<Batch>, i: nat)
    requires i < |Commands(batches)|
    ensures Decode(Commands(batches)[i]).Some?
    ensures Decode(Commands(batches)[i]).value.LoadVertices? || Decode(Commands(batches)[i]).value.DrawTriangle?
    decreases |batches|
  {
    var init := batches[..|batches| - 1];
    var last := batches[|batches| - 1];
    if i < |Commands(init)| {
      CommandsAreLoadsAndDraws(init, i);
    } else {
      var k := i - |Commands(init)|;
      assert Commands(batches)[i] == BatchCommands(last)[k];
      if k < |last.blocks| {
        var w := LoadWord(last.blocks[k], Packer.Prefix(last.blocks, k));
        assert BatchCommands(last)[k] == w;
        assert w >> 56 == OP_LOAD_VERTICES && w & LOAD_UNUSED == 0;
      } else {
        var w := DrawWord(last.triangles[k - |last.blocks|]);
        assert BatchCommands(last)[k] == w;
        assert w >> 56 == OP_DRAW_TRIANGLE && w & DRAW_UNUSED == 0;
      }
    }
  }

  /** The finalize command is the last word of the list, and no other word is one. */
  lemma FinalizeOnlyLast(batches: seq<Batch>, i: nat)
    requires i < |CommandList(batches)|
    ensures Decode(CommandList(batches)[i]) == Some(Finalize) <==> i == |CommandList(batches)| - 1
  {
    var cmds := Commands(batches);
    if i < |cmds| {
      assert CommandList(batches)[i] == cmds[i];
      CommandsAreLoadsAndDraws(batches, i);
    } else {
      assert CommandList(batches)[i] == FinalizeWord();
      assert Decode(0x8000_0000_0000_0000) == Some(Finalize);
    }
  }

  // ---------------------------------------------------------------- running the command list

  /** The microcode's vertex cache: for each filled entry, the vertex it holds. */
  type Cache = map<int, nat>

  /** A load: entries index .. index + count - 1 receive vertices first .. first + count - 1. */
  function LoadEntries(cache: Cache, first: nat, index: nat, count: nat): (r: Cache)
    ensures forall j :: index <= j < index + count ==> j in r && r[j] == first + (j - index)
    ensures forall j :: j in cache && !(index <= j < index + count) ==> j in r && r[j] == cache[j]
    decreases count
  {
    if count == 0 then cache
    else LoadEntries(cache, first, index, count - 1)[index + count - 1 := first + count - 1]
  }

  function Emit(triangle: Triple, rest: Option<seq<Triple>>): Option<seq<Triple>> {
    if rest.None? then None else Some([triangle] + rest.value)
  }

  function EmitAll(triangles: seq<Triple>, rest: Option<seq<Triple>>): Option<seq<Triple>> {
    if rest.None? then None else Some(triangles + rest.value)
  }

  lemma EmitThenAll(triangle: Triple, triangles: seq<Triple>, rest: Option<seq<Triple>>)
    ensures Emit(triangle, EmitAll(triangles, rest)) == EmitAll([triangle] + triangles, rest)
  {
    if rest.Some? {
      AppendAssoc([triangle], triangles, rest.value);
    }
  }

  /** How the microcode consumes a command list: a load fills cache entries with the vertices
      stored from byte address `vertices` on, 16 bytes each; a draw emits the vertices its
      three cache entries hold; finalize ends the list. None for a word that is no command,
      a draw from an empty entry, or a list that ends without finalize. */
  function Execute(words: seq<bv64>, cache: Cache): Option<seq<Triple>>
    decreases |words|
  {
    if words == [] then None
    else
      match Decode(words[0])
      case None => None
      case Some(Finalize) => Some([])
      case Some(LoadVertices(_, vertices, index, count)) =>
        Execute(words[1..], LoadEntries(cache, vertices as int / VERTEX_SIZE, index as int, count as int))
      case Some(DrawTriangle(v0, v1, v2)) =>
        var a, b, c := v0 as int, v1 as int, v2 as int;
        if a in cache && b in cache && c in cache then Emit([cache[a], cache[b], cache[c]], Execute(words[1..], cache))
        else None
  }

  /** Block k, once loaded, sits at cache entries Prefix(k) onwards. */
  function LoadFrom(cache: Cache, blocks: seq<Block>, k: nat): Cache
    requires k <= |blocks|
    decreases |blocks| - k
  {
    if k == |blocks| then cache
    else LoadFrom(LoadEntries(cache, blocks[k].offset, Packer.Prefix(blocks, k), blocks[k].n), blocks, k + 1)
  }

  /** The first `upto` cache entries hold the vertices the blocks expand to. */
  predicate Agrees(cache: Cache, blocks: seq<Block>, upto: nat) {
    upto <= Packer.VertexCount(blocks)
    && forall s :: 0 <= s < upto ==> s in cache && cache[s] == Packer.Expand(blocks)[s]
  }

  /** Every block's byte offset fits the 25-bit address field. */
  predicate OffsetsFit(blocks: seq<Block>) {
    forall k :: 0 <= k < |blocks| ==> blocks[k].offset < 0x20_0000
  }

  predicate AllOffsetsFit(batches: seq<Batch>) {
    forall j :: 0 <= j < |batches| ==> OffsetsFit(batches[j].blocks)
  }

  lemma {:induction false} PrefixAtMost(blocks: seq<Block>, k: nat)
    requires k < |blocks|
    ensures Packer.Prefix(blocks, k) + blocks[k].n <= Packer.VertexCount(blocks)
    decreases |blocks|
  {
    var init := blocks[..|blocks| - 1];
    if k < |init| {
      PrefixAtMost(init, k);
      assert init[..k] == blocks[..k];
    } else {
      assert blocks[..k] == init;
    }
  }

  lemma Unfold(w: bv64, rest: seq<bv64>)
    ensures ([w] + rest)[0] == w && ([w] + rest)[1..] == rest
  {
  }

  /** The corners of a triangle that decodes through the loaded blocks are cached entries
      below 64 holding the face's vertices. */
  lemma CornersCached(blocks: seq<Block>, t: Triple, face: Triple, cache: Cache)
    requires Packer.VertexCount(blocks) < 64 && Agrees(cache, blocks, Packer.VertexCount(blocks))
    requires Packer.Decodes(blocks, t, face)
    ensures forall m :: 0 <= m < 3 ==> t[m] < 64 && t[m] in cache && cache[t[m]] == face[m]
  {
  }

  /** Running one load word of a batch whose fields fit. */
  lemma LoadStep(b: Block, v0: nat, rest: seq<bv64>, cache: Cache)
    requires b.offset < 0x20_0000 && v0 < 64 && b.n < 64
    ensures Execute([LoadWord(b, v0)] + rest, cache) == Execute(rest, LoadEntries(cache, b.offset, v0, b.n))
  {
    LoadWordFields(b, v0);
    Unfold(LoadWord(b, v0), rest);
    var address := b.offset * VERTEX_SIZE;
    DivModUnique(address, 0x200_0000, 0, address);
    DivModUnique(v0, 64, 0, v0);
    DivModUnique(b.n, 64, 0, b.n);
    DivModUnique(address, VERTEX_SIZE, b.offset, 0);
  }

  /** Running the loads of blocks k.. fills the cache as LoadFrom says. */
  lemma {:induction false} ExecuteLoads(blocks: seq<Block>, k: nat, rest: seq<bv64>, cache: Cache)
    requires k <= |blocks| && OffsetsFit(blocks) && Packer.VertexCount(blocks) < 64
    ensures Execute(LoadCommands(blocks)[k..] + rest, cache) == Execute(rest, LoadFrom(cache, blocks, k))
    decreases |blocks| - k
  {
    var loads := LoadCommands(blocks);
    if k < |blocks| {
      var p := Packer.Prefix(blocks, k);
      PrefixAtMost(blocks, k);
      DropSplit(loads, k, rest);
      LoadStep(blocks[k], p, loads[k + 1..] + rest, cache);
      ExecuteLoads(blocks, k + 1, rest, LoadEntries(cache, blocks[k].offset, p, blocks[k].n));
    } else {
      DropSplit(loads, k, rest);
    }
  }

  /** Loading the blocks from k on extends agreement from Prefix(k) to every entry. */
  lemma {:induction false} LoadFromAgrees(cache: Cache, blocks: seq<Block>, k: nat)
    requires k <= |blocks| && Agrees(cache, blocks, Packer.Prefix(blocks, k))
    ensures Agrees(LoadFrom(cache, blocks, k), blocks, Packer.VertexCount(blocks))
    decreases |blocks| - k
  {
    if k < |blocks| {
      var b, p := blocks[k], Packer.Prefix(blocks, k);
      var next := LoadEntries(cache, b.offset, p, b.n);
      PrefixAtMost(blocks, k);
      forall s | p <= s < p + b.n
        ensures next[s] == Packer.Expand(blocks)[s]
      {
        Packer.ExpandAt(blocks, k, b.offset + (s - p));
      }
      PrefixStep(blocks, k);
      LoadFromAgrees(next, blocks, k + 1);
    } else {
      assert blocks[..k] == blocks;
    }
  }

  /** Running one draw word whose corners the cache holds. */
  lemma DrawStep(t: Triple, face: Triple, rest: seq<bv64>, cache: Cache)
    requires forall m :: 0 <= m < 3 ==> t[m] < 64 && t[m] in cache && cache[t[m]] == face[m]
    ensures Execute([DrawWord(t)] + rest, cache) == Emit(face, Execute(rest, cache))
  {
    DrawWordFields(t);
    Unfold(DrawWord(t), rest);
    DivModUnique(t[0], 64, 0, t[0]);
    DivModUnique(t[1], 64, 0, t[1]);
    DivModUnique(t[2], 64, 0, t[2]);
    assert [cache[t[0]], cache[t[1]], cache[t[2]]] == face;
  }

  /** Running the draws of triangles i.. emits their faces, in order. */
  lemma {:induction false} ExecuteDraws(blocks: seq<Block>, triangles: seq<Triple>, faces: seq<Triple>, i: nat,
                                        rest: seq<bv64>, cache: Cache)
    requires |triangles| == |faces| && i <= |faces|
    requires Packer.VertexCount(blocks) < 64 && Agrees(cache, blocks, Packer.VertexCount(blocks))
    requires forall t :: 0 <= t < |faces| ==> Packer.Decodes(blocks, triangles[t], faces[t])
    ensures Execute(DrawCommands(triangles)[i..] + rest, cache) == EmitAll(faces[i..], Execute(rest, cache))
    decreases |faces| - i
  {
    var draws := DrawCommands(triangles);
    if i < |faces| {
      var later := draws[i + 1..] + rest;
      var after := Execute(rest, cache);
      DropSplit(draws, i, rest);
      assert draws[i] == DrawWord(triangles[i]);
      CornersCached(blocks, triangles[i], faces[i], cache);
      DrawStep(triangles[i], faces[i], later, cache);
      ExecuteDraws(blocks, triangles, faces, i + 1, rest, cache);
      assert Execute(later, cache) == EmitAll(faces[i + 1..], after);
      EmitThenAll(faces[i], faces[i + 1..], after);
      DropFirst(faces, i);
    } else {
      DropSplit(draws, i, rest);
      assert faces[i..] == [];
      var after := Execute(rest, cache);
      assert after.Some? ==> [] + after.value == after.value;
    }
  }

  /** Running a batch's commands draws its faces and leaves its blocks in the cache. */
  lemma ExecuteBatch(batch: Batch, faces: seq<Triple>, rest: seq<bv64>, cache: Cache)
    requires Packer.Draws(batch, faces) && OffsetsFit(batch.blocks)
    ensures Execute(BatchCommands(batch) + rest, cache)
         == EmitAll(faces, Execute(rest, LoadFrom(cache, batch.blocks, 0)))
  {
    var loads, draws := LoadCommands(batch.blocks), DrawCommands(batch.triangles);
    AppendAssoc(loads, draws, rest);
    assert loads[0..] == loads && draws[0..] == draws;
    ExecuteLoads(batch.blocks, 0, draws + rest, cache);
    var loaded := LoadFrom(cache, batch.blocks, 0);
    assert batch.blocks[..0] == [];
    LoadFromAgrees(cache, batch.blocks, 0);
    ExecuteDraws(batch.blocks, batch.triangles, faces, 0, rest, loaded);
  }

  lemma {:induction false} CommandsCons(batches: seq<Batch>)
    requires batches != []
    ensures Commands(batches) == BatchCommands(batches[0]) + Commands(batches[1..])
    decreases |batches|
  {
    var init, last := batches[..|batches| - 1], batches[|batches| - 1];
    if |batches| == 1 {
      assert batches[1..] == [];
    } else {
      CommandsCons(init);
      assert init[0] == batches[0];
      assert batches[1..][..|batches| - 2] == init[1..];
      AppendAssoc(BatchCommands(batches[0]), Commands(init[1..]), BatchCommands(last));
    }
  }

  /** The command list of batches that draw `faces`, run by the microcode from any cache,
      draws exactly `faces`, in order, and ends at the finalize word. */
  lemma {:induction false} ExecuteCommandList(batches: seq<Batch>, faces: seq<Triple>, cache: Cache)
    requires Packer.DrawsAll(batches, faces) && AllOffsetsFit(batches)
    ensures Execute(CommandList(batches), cache) == Some(faces)
    decreases |batches|
  {
    var fin := [FinalizeWord()];
    if batches == [] {
      assert Decode(0x8000_0000_0000_0000) == Some(Finalize);
    } else {
      var batch := batches[0];
      var k := |batch.triangles|;
      CommandsCons(batches);
      AppendAssoc(BatchCommands(batch), Commands(batches[1..]), fin);
      assert AllOffsetsFit(batches[1..]) by {
        forall j | 0 <= j < |batches| - 1
          ensures OffsetsFit(batches[1..][j].blocks)
        {
          assert batches[1..][j] == batches[j + 1];
        }
      }
      assert OffsetsFit(batch.blocks);
      ExecuteBatch(batch, faces[..k], CommandList(batches[1..]), cache);
      ExecuteCommandList(batches[1..], faces[k..], LoadFrom(cache, batch.blocks, 0));
      assert faces[..k] + faces[k..] == faces;
    }
  }

  /** The whole pipeline: where the batching loop ends on faces whose indices fit the
      address field, the file's command list draws every face of the mesh, in order. */
  lemma PackedCommandListDrawsFaces(faces: seq<Triple>, cache: Cache)
    requires FacesInRange(faces) && Packer.IndicesBelow(faces, 0x20_0000)
    requires Packer.Pack(Packer.AsWritten, faces, 0).Some?
    ensures Execute(CommandList(Packer.Pack(Packer.AsWritten, faces, 0).value), cache) == Some(faces)
  {
    var batches := Packer.Pack(Packer.AsWritten, faces, 0).value;
    Packer.PackSound(Packer.AsWritten, faces, 0);
    Packer.PackOffsets(Packer.AsWritten, faces, 0, 0x20_0000);
    assert AllOffsetsFit(batches) by {
      forall j | 0 <= j < |batches|
        ensures OffsetsFit(batches[j].blocks)
      {
        assert Packer.OffsetsBelow(batches[j].blocks, 0x20_0000);
      }
    }
    assert faces[0..] == faces;
    ExecuteCommandList(batches, faces, cache);
  }

  /** The loop ends whenever a fresh batch accepts every face, and the command list of its
      batches then draws every face, in order. */
  lemma FreshAcceptsCommandListDrawsFaces(faces: seq<Triple>, cache: Cache)
    requires FacesInRange(faces) && Packer.IndicesBelow(faces, 0x20_0000)
    requires Packer.FreshAccepts(Packer.AsWritten, faces, 0)
    ensures Packer.Pack(Packer.AsWritten, faces, 0).Some?
    ensures Execute(CommandList(Packer.Pack(Packer.AsWritten, faces, 0).value), cache) == Some(faces)
  {
    Packer.PackTotalWhenFreshAccepts(faces, 0);
    PackedCommandListDrawsFaces(faces, cache);
  }

  // ---------------------------------------------------------------- output_binary

  /** The 16-byte header: the magic, the format version, and the byte sizes of the vertex
      table and of the command list, each a uint32_t and so taken modulo 2^32. */
  function Header(vertexCount: nat, wordCount: nat): (bs: seq<byte>)
    ensures |bs| == HEADER_SIZE
  {
    MAGIC + BigEndian(MC64_VERSION, 4)
    + BigEndian((VERTEX_SIZE * vertexCount) % 0x1_0000_0000, 4)
    + BigEndian((WORD_SIZE * wordCount) % 0x1_0000_0000, 4)
  }

  /** The file output_binary writes: the header, the vertex table, the command list. */
  function FileBytes(mesh: Mesh): seq<byte> {
    var cmdList := CommandList(mesh.batches);
    Header(|mesh.vertices|, |cmdList|)
    + Flatten(mesh.vertices, VertexRecord, VERTEX_SIZE)
    + Flatten(cmdList, WordBytes, WORD_SIZE)
  }

  /** output_binary: writes the mesh to a freshly truncated file. */
  method OutputBinary(mesh: Mesh) returns (output: Stream)
    ensures fresh(output) && output.written == FileBytes(mesh)
  {
    output := new Stream();
    var cmdList := MakeCmdList(mesh);
    var verticesSize := (VERTEX_SIZE * |mesh.vertices|) % 0x1_0000_0000;
    var cmdListSize := (WORD_SIZE * |cmdList|) % 0x1_0000_0000;
    var magic := new byte[4](i requires 0 <= i < 4 => MAGIC[i]);
    output.Write(magic);
    assert output.written == MAGIC by {
      assert magic[..] == MAGIC;
    }
    WriteBe(output, MC64_VERSION, 4);
    WriteBe(output, verticesSize, 4);
    WriteBe(output, cmdListSize, 4);
    assert output.written == Header(|mesh.vertices|, |cmdList|);
    WriteBeVertices(output, mesh.vertices);
    WriteBeWords(output, cmdList);
  }

  /** The header reads back as the magic, the version and the two table sizes. */
  lemma HeaderFields(vertexCount: nat, wordCount: nat)
    ensures Header(vertexCount, wordCount)[..4] == MAGIC
    ensures ReadBigEndian(Header(vertexCount, wordCount)[4..8]) == MC64_VERSION
    ensures ReadBigEndian(Header(vertexCount, wordCount)[8..12]) == (VERTEX_SIZE * vertexCount) % 0x1_0000_0000
    ensures ReadBigEndian(Header(vertexCount, wordCount)[12..16]) == (WORD_SIZE * wordCount) % 0x1_0000_0000
  {
    var vs, ws := (VERTEX_SIZE * vertexCount) % 0x1_0000_0000, (WORD_SIZE * wordCount) % 0x1_0000_0000;
    var a := MAGIC + BigEndian(MC64_VERSION, 4);
    var b := a + BigEndian(vs, 4);
    SliceLeft(a, BigEndian(vs, 4), 0, 4);
    SliceLeft(b, BigEndian(ws, 4), 0, 4);
    SliceLeft(MAGIC, BigEndian(MC64_VERSION, 4), 0, 4);
    SliceRight(MAGIC, BigEndian(MC64_VERSION, 4), 0, 4);
    SliceLeft(a, BigEndian(vs, 4), 4, 8);
    SliceLeft(b, BigEndian(ws, 4), 4, 8);
    SliceRight(a, BigEndian(vs, 4), 0, 4);
    SliceLeft(b, BigEndian(ws, 4), 8, 12);
    SliceRight(b, BigEndian(ws, 4), 0, 4);
    assert BigEndian(MC64_VERSION, 4)[0..4] == BigEndian(MC64_VERSION, 4);
    assert BigEndian(vs, 4)[0..4] == BigEndian(vs, 4);
    assert BigEndian(ws, 4)[0..4] == BigEndian(ws, 4);
    ReadWord32(MC64_VERSION);
    ReadWord32(vs);
    ReadWord32(ws);
  }

  /** A value below 2^32 written as four big-endian bytes reads back unchanged. */
  lemma ReadWord32(x: int)
    requires 0 <= x < 0x1_0000_0000
    ensures ReadBigEndian(BigEndian(x, 4)) == x
  {
    assert Pow256(4) == 0x1_0000_0000;
    BigEndianRoundTrip(x, 4);
    DivModUnique(x, 0x1_0000_0000, 0, x);
  }

  /** The file starts with the header of its vertex table and command list. */
  lemma FileHeader(mesh: Mesh)
    ensures |FileBytes(mesh)| >= HEADER_SIZE
    ensures FileBytes(mesh)[..HEADER_SIZE] == Header(|mesh.vertices|, |CommandList(mesh.batches)|)
  {
    var cmdList := CommandList(mesh.batches);
    var h := Header(|mesh.vertices|, |cmdList|);
    var vertices := Flatten(mesh.vertices, VertexRecord, VERTEX_SIZE);
    SliceLeft(h + vertices, Flatten(cmdList, WordBytes, WORD_SIZE), 0, HEADER_SIZE);
    SliceLeft(h, vertices, 0, HEADER_SIZE);
  }

  /** The file is the 16-byte header, 16 bytes per vertex and 8 bytes per command word. */
  lemma FileLength(mesh: Mesh)
    ensures |FileBytes(mesh)|
         == HEADER_SIZE + VERTEX_SIZE * |mesh.vertices| + WORD_SIZE * |CommandList(mesh.batches)|
  {
  }

  /** Item i of a table that follows `front` is the record at |front| + size * i. */
  lemma RecordAt<T(!new)>(front: seq<byte>, items: seq<T>, record: T -> seq<byte>, size: nat, back: seq<byte>, i: nat)
    requires forall x :: |record(x)| == size
    requires i < |items|
    ensures |front| + size * i + size <= |front + Flatten(items, record, size) + back|
    ensures (front + Flatten(items, record, size) + back)[|front| + size * i..|front| + size * i + size]
         == record(items[i])
  {
    var table := Flatten(items, record, size);
    FlattenAt(items, record, size, i);
    SliceLeft(front + table, back, |front| + size * i, |front| + size * i + size);
    SliceRight(front, table, size * i, size * i + size);
  }

  /** Vertex i is the record at byte 16 + 16 * i, and reads back as the vertex with a zero
      `_unused` word. */
  lemma FileVertex(mesh: Mesh, i: nat)
    requires i < |mesh.vertices|
    ensures HEADER_SIZE + VERTEX_SIZE * i + VERTEX_SIZE <= |FileBytes(mesh)|
    ensures ReadVertex(FileBytes(mesh)[HEADER_SIZE + VERTEX_SIZE * i..HEADER_SIZE + VERTEX_SIZE * i + VERTEX_SIZE])
         == mesh.vertices[i].(unused := 0)
  {
    var cmdList := CommandList(mesh.batches);
    RecordAt(Header(|mesh.vertices|, |cmdList|), mesh.vertices, VertexRecord, VERTEX_SIZE,
             Flatten(cmdList, WordBytes, WORD_SIZE), i);
    VertexRoundTrip(mesh.vertices[i]);
  }

  /** Where the command list starts: after the header and the vertex table. */
  function WordsStart(mesh: Mesh): nat {
    HEADER_SIZE + VERTEX_SIZE * |mesh.vertices|
  }

  /** Command word j is the eight bytes at 16 + 16 * |vertices| + 8 * j, which read back as
      the word by WordRoundTrip. */
  lemma FileWord(mesh: Mesh, j: nat)
    requires j < |CommandList(mesh.batches)|
    ensures WordsStart(mesh) + WORD_SIZE * j + WORD_SIZE <= |FileBytes(mesh)|
    ensures FileBytes(mesh)[WordsStart(mesh) + WORD_SIZE * j..WordsStart(mesh) + WORD_SIZE * j + WORD_SIZE]
         == WordBytes(CommandList(mesh.batches)[j])
  {
    var cmdList := CommandList(mesh.batches);
    var front := Header(|mesh.vertices|, |cmdList|) + Flatten(mesh.vertices, VertexRecord, VERTEX_SIZE);
    var words := Flatten(cmdList, WordBytes, WORD_SIZE);
    assert FileBytes(mesh) == front + words + [];
    RecordAt(front, cmdList, WordBytes, WORD_SIZE, [], j);
  }
}
