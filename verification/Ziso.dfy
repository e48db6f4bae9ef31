/** The container of pc/ziso.py: a header, a table of block positions with a plain flag, and the blocks.
    The LZ4 codec is a parameter; a file is the sequence of its bytes. */
module Ziso {
  import opened Wrappers
  import opened Text

  const MAGIC: nat := 0x4F53495A
  const HEADER_SIZE: nat := 0x18
  const PLAIN: nat := 0x8000_0000
  const TWO32: nat := 0x1_0000_0000
  const TWO64: nat := 0x1_0000_0000_0000_0000

  type Bytes = seq<Byte>

  datatype Codec = Codec(encode: Bytes -> Bytes, decode: (Bytes, nat) -> Option<Bytes>)

  /** The outcomes that are not a file: sys.exit, an exception of struct, one of read, a loop that never
      ends. */
  datatype Failure = FormatError | AlignError | BlockError | PackError | ReadError | Hangs

  datatype Result<+T> = Ok(value: T) | Err(failure: Failure)

  // ----- struct.pack and unpack -----------------------------------------------------------------

  function Le(n: nat, width: nat): (r: Bytes)
    ensures |r| == width
  {
    if width == 0 then [] else [n % 256] + Le(n / 256, width - 1)
  }

  function UnLe(bytes: Bytes): nat {
    if bytes == [] then 0 else bytes[0] + 256 * UnLe(bytes[1..])
  }

  function Limit(width: nat): (r: nat)
    ensures r > 0
  {
    if width == 0 then 1 else 256 * Limit(width - 1)
  }

  lemma {:induction false} UnLeOfLe(n: nat, width: nat)
    requires n < Limit(width)
    ensures UnLe(Le(n, width)) == n
  {
    if width > 0 {
      UnLeOfLe(n / 256, width - 1);
      assert Le(n, width)[1..] == Le(n / 256, width - 1);
    }
  }

  /** pack('IIQIbbxx', ...) */
  function Header(total: nat, bs: nat, align: nat): (r: Bytes)
    requires align < 128
    ensures |r| == HEADER_SIZE
  {
    Le(MAGIC, 4) + Le(HEADER_SIZE, 4) + Le(total, 8) + Le(bs, 4) + [1, align, 0, 0]
  }

  function Word(file: Bytes, at: nat): nat
    requires at + 4 <= |file|
  {
    UnLe(file[at..at + 4])
  }

  // ----- alignment and index entries ------------------------------------------------------------

  function Pow2(n: nat): (r: nat)
    ensures r > 0
  {
    if n == 0 then 1 else 2 * Pow2(n - 1)
  }

  /** pos >> align */
  function ShiftDown(pos: nat, align: nat): nat {
    if align == 0 then pos else ShiftDown(pos / 2, align - 1)
  }

  /** index << align */
  function ShiftUp(index: int, align: nat): int {
    if align == 0 then index else 2 * ShiftUp(index, align - 1)
  }

  lemma {:induction false} ShiftUpKeepsSign(index: int, align: nat)
    ensures index >= 0 ==> ShiftUp(index, align) >= 0
  {
    if align > 0 { ShiftUpKeepsSign(index, align - 1); }
  }

  /** The next position whose lowest `align` bits are zero. */
  function RoundUp(pos: nat, align: nat): (r: nat)
    ensures r >= pos
  {
    if align == 0 then pos else 2 * RoundUp((pos + 1) / 2, align - 1)
  }

  /** The first multiple of m from q on that is not below pos. */
  function NextMultiple(pos: nat, m: nat, q: nat): (r: nat)
    requires m > 0
    ensures r >= pos
    decreases if q < pos then pos - q else 0
  {
    if q >= pos then q else NextMultiple(pos, m, q + m)
  }

  /** set_align: where the next block may start. */
  function Aligned(pos: nat, align: nat): (r: nat)
    ensures r >= pos
  {
    NextMultiple(pos, Pow2(align), 0)
  }

  /** n // m, counted (QuotientIsFloor). */
  function Quotient(n: nat, m: nat): nat
    requires m > 0
  {
    if n < m then 0 else 1 + Quotient(n - m, m)
  }

  /** index | 0x80000000 */
  function Flagged(index: nat): nat {
    if index / PLAIN % 2 == 1 then index else index + PLAIN
  }

  function Low31(index: nat): nat {
    index % PLAIN
  }

  predicate IsFlagged(index: nat) {
    index / PLAIN % 2 == 1
  }

  function Pad(pad: Byte, n: nat): (r: Bytes)
    ensures |r| == n
  {
    if n == 0 then [] else Pad(pad, n - 1) + [pad]
  }

  // ----- the blocks of an image -----------------------------------------------------------------

  function BlocksOf(image: Bytes, bs: nat): seq<Bytes>
    requires bs > 0
    decreases |image|
  {
    if |image| < bs then [] else [image[..bs]] + BlocksOf(image[bs..], bs)
  }

  function Flatten(blocks: seq<Bytes>): Bytes {
    if blocks == [] then [] else Flatten(blocks[..|blocks| - 1]) + blocks[|blocks| - 1]
  }

  /** What the compressor works with: blocks of bs bytes, and everything it has been told. A block is
      stored plain when its encoding has `limit` hundredths of a byte or more. */
  datatype Job = Job(blocks: seq<Bytes>, bs: nat, total: nat, codec: Codec, limit: int, pad: Byte) {

    ghost predicate Valid() {
      bs > 0 && forall i :: 0 <= i < |blocks| ==> |blocks[i]| == bs
    }

    function Align(): nat {
      total / PLAIN
    }

    /** Where the blocks start: behind the header and one entry more than there are blocks. */
    function Base(): nat {
      HEADER_SIZE + 4 * (|blocks| + 1)
    }

    predicate IsPlain(i: nat)
      requires i < |blocks|
    {
      100 * |codec.encode(blocks[i])| >= limit
    }

    function Stored(i: nat): Bytes
      requires i < |blocks|
    {
      if IsPlain(i) then blocks[i] else codec.encode(blocks[i])
    }

    /** The write position after i blocks. */
    function End(i: nat): (r: nat)
      requires i <= |blocks|
      ensures r >= Base()
      decreases i, 0
    {
      if i == 0 then Base() else Start(i - 1) + |Stored(i - 1)|
    }

    /** Where block i is written. */
    function Start(i: nat): (r: nat)
      requires i <= |blocks|
      decreases i, 1
    {
      Aligned(End(i), Align())
    }

    function Body(i: nat): Bytes
      requires i <= |blocks|
    {
      if i == 0 then [] else Body(i - 1) + Pad(pad, Start(i - 1) - End(i - 1)) + Stored(i - 1)
    }

    function Index(i: nat): nat
      requires i <= |blocks|
    {
      if i == |blocks| then ShiftDown(End(i), Align())
      else if IsPlain(i) then Flagged(ShiftDown(Start(i), Align()))
      else ShiftDown(Start(i), Align())
    }

    function Indexes(i: nat): (r: Bytes)
      requires i <= |blocks| + 1
      ensures |r| == 4 * i
    {
      if i == 0 then [] else Indexes(i - 1) + Le(Index(i - 1), 4)
    }

    /** "You have to increase align": an unflagged index that looks flagged. */
    predicate Misaligned(i: nat)
      requires i < |blocks|
    {
      !IsPlain(i) && IsFlagged(Index(i))
    }

    predicate HeaderFits() {
      Align() < 128 && total < TWO64 && bs < TWO32
    }

    function File(): Bytes
      requires HeaderFits()
    {
      Header(total, bs, Align()) + Indexes(|blocks| + 1) + Body(|blocks|)
    }

    function Compressed(): Result<Bytes> {
      if !HeaderFits() then Err(PackError)
      else if exists i :: 0 <= i < |blocks| && Misaligned(i) then Err(AlignError)
      else if exists i :: 0 <= i <= |blocks| && Index(i) >= TWO32 then Err(PackError)
      else Ok(File())
    }
  }

  // ----- reading a container --------------------------------------------------------------------

  /** Seek and read: short at the end of the file, everything for a size of -1. A smaller size is refused
      by read, outside of any try. */
  function Chunk(file: Bytes, at: int, size: int): Bytes
    requires at >= 0 && size >= -1
  {
    if at >= |file| then [] else if size == -1 || at + size > |file| then file[at..] else file[at..at + size]
  }

  /** lz4_decompress: cut bytes off the end until the codec takes the rest. None is the endless loop. */
  function Trimmed(codec: Codec, data: Bytes, bs: nat): Option<Bytes> {
    match codec.decode(data, bs)
    case Some(plain) => Some(plain)
    case None => if data == [] then None else Trimmed(codec, data[..|data| - 1], bs)
  }

  function Extended(out: Result<Bytes>, plain: Result<Bytes>): Result<Bytes> {
    if out.Err? then out else if plain.Err? then plain else Ok(out.value + plain.value)
  }

  datatype Container = Container(file: Bytes, codec: Codec) {

    predicate HasHeader() {
      |file| >= HEADER_SIZE
    }

    function Total(): nat
      requires HasHeader()
    {
      UnLe(file[8..16])
    }

    function BlockSize(): nat
      requires HasHeader()
    {
      Word(file, 16)
    }

    predicate Accepted()
      requires HasHeader()
    {
      && Word(file, 0) == MAGIC && Word(file, 4) == HEADER_SIZE && BlockSize() != 0 && Total() != 0
      && !(1 < file[20] < 128)
    }

    function Count(): nat
      requires HasHeader() && Accepted()
    {
      Quotient(Total(), BlockSize())
    }

    predicate HasIndex()
      requires HasHeader() && Accepted()
    {
      |file| >= HEADER_SIZE + 4 * (Count() + 1)
    }

    /** How many blocks there are, if the header and the index can be read. */
    function Shape(): Option<nat> {
      if HasHeader() && Accepted() && HasIndex() then Some(Count()) else None
    }

    predicate Readable() {
      Shape().Some?
    }

    function Entry(k: nat): nat
      requires Readable() && k <= Count()
    {
      Word(file, HEADER_SIZE + 4 * k)
    }

    function ReadPos(k: nat): (r: int)
      requires Readable() && k <= Count()
      ensures r >= 0
    {
      ShiftUpKeepsSign(Low31(Entry(k)), file[21]);
      ShiftUp(Low31(Entry(k)), file[21])
    }

    /** How much is read for a compressed block: up to the next one, or what the header leaves. */
    function ReadSize(k: nat): int
      requires Readable() && k < Count()
    {
      if k == Count() - 1 then Total() - ReadPos(k) else ShiftUp(Low31(Entry(k + 1)) - Low31(Entry(k)), file[21])
    }

    function Restored(k: nat): Result<Bytes>
      requires Readable() && k < Count()
    {
      if file[21] >= 128 then Err(PackError)
      else if IsFlagged(Entry(k)) then Whole(Chunk(file, ReadPos(k), BlockSize()))
      else if ReadSize(k) < -1 then Err(ReadError)
      else
        match Trimmed(codec, Chunk(file, ReadPos(k), ReadSize(k)), BlockSize())
        case None => Err(Hangs)
        case Some(plain) => Whole(plain)
    }

    function Whole(plain: Bytes): Result<Bytes>
      requires Readable()
    {
      if |plain| == BlockSize() then Ok(plain) else Err(BlockError)
    }

    function RestoredTo(k: nat): Result<Bytes>
      requires Readable() && k <= Count()
    {
      if k == 0 then Ok([]) else Extended(RestoredTo(k - 1), Restored(k - 1))
    }

    function Decompressed(): Result<Bytes> {
      if !HasHeader() then Err(PackError)
      else if !Accepted() then Err(FormatError)
      else if !HasIndex() then Err(PackError)
      else RestoredTo(Count())
    }
  }

  // ----- the loops ------------------------------------------------------------------------------

  method TrimAndDecode(codec: Codec, compressed: Bytes, bs: nat) returns (plain: Option<Bytes>)
    ensures plain == Trimmed(codec, compressed, bs)
  {
    var data := compressed;
    plain := codec.decode(data, bs);
    while plain.None? && data != []
      invariant plain == codec.decode(data, bs) && Trimmed(codec, data, bs) == Trimmed(codec, compressed, bs)
      decreases |data|
    {
      data := data[..|data| - 1];
      plain := codec.decode(data, bs);
    }
  }

  /** Where block k is, how much of the file to read for it, and what is there; None when read refuses. */
  method BlockData(c: Container, k: nat) returns (plain: bool, data: Option<Bytes>)
    requires c.Readable() && k < c.Count()
    ensures plain == IsFlagged(c.Entry(k))
    ensures var size := if plain then c.BlockSize() else c.ReadSize(k);
            data == if size < -1 then None else Some(Chunk(c.file, c.ReadPos(k), size))
  {
    var align, index := c.file[21], c.Entry(k);
    plain, index := IsFlagged(index), Low31(index);
    ShiftUpKeepsSign(index, align);
    var readPos := ShiftUp(index, align);
    var readSize: int := c.BlockSize();
    if !plain {
      var index2: int := Low31(c.Entry(k + 1));
      readSize := ShiftUp(index2 - index, align);
      if k == c.Count() - 1 { readSize := c.Total() - readPos; }
    }
    data := if readSize < -1 then None else Some(Chunk(c.file, readPos, readSize));
  }

  /** One pass of the loop of decompress_zso. */
  method DecompressBlock(c: Container, k: nat) returns (r: Result<Bytes>)
    requires c.Readable() && k < c.Count()
    ensures r == c.Restored(k)
  {
    if c.file[21] >= 128 { return Err(PackError); }
    var plain, chunk := BlockData(c, k);
    if chunk.None? { return Err(ReadError); }
    var data := chunk.value;
    if !plain {
      var decoded := TrimAndDecode(c.codec, data, c.BlockSize());
      if decoded.None? { return Err(Hangs); }
      data := decoded.value;
    }
    r := if |data| == c.BlockSize() then Ok(data) else Err(BlockError);
  }

  /** The loop of decompress_zso; behind a block that fails nothing more is done. */
  method DecompressBlocks(c: Container) returns (r: Result<Bytes>)
    requires c.Readable()
    ensures r == c.RestoredTo(c.Count())
  {
    r := Ok([]);
    for block := 0 to c.Count()
      invariant r == c.RestoredTo(block)
    {
      RestoredStep(c, block);
      if r.Ok? {
        var plain := DecompressBlock(c, block);
        r := Extended(r, plain);
      }
    }
  }

  lemma RestoredStep(c: Container, k: nat)
    requires c.Readable() && k < c.Count()
    ensures c.RestoredTo(k + 1) == Extended(c.RestoredTo(k), c.Restored(k))
  {
  }

  /** decompress_zso */
  method DecompressFile(file: Bytes, codec: Codec) returns (r: Result<Bytes>)
    ensures r == Container(file, codec).Decompressed()
  {
    var c := Container(file, codec);
    if !c.HasHeader() { return Err(PackError); }
    if !c.Accepted() { return Err(FormatError); }
    if !c.HasIndex() { return Err(PackError); }
    r := DecompressBlocks(c);
  }

  lemma {:induction false} CountIs(image: Bytes, bs: nat)
    requires bs > 0
    ensures |BlocksOf(image, bs)| == Quotient(|image|, bs)
    decreases |image|
  {
    if |image| >= bs { CountIs(image[bs..], bs); }
  }

  lemma {:induction false} QuotientIsFloor(n: nat, m: nat)
    requires m > 0
    ensures Quotient(n, m) == n / m
  {
    if n < m {
      QuotientIs(n, m, 0, n);
    } else {
      QuotientIsFloor(n - m, m);
      var q, r := (n - m) / m, (n - m) % m;
      assert n - m == m * q + r;
      QuotientIs(n, m, q + 1, r);
    }
  }

  lemma QuotientIs(n: nat, m: nat, q: nat, r: nat)
    requires m > 0 && n == m * q + r && r < m
    ensures n / m == q && n % m == r
  {
    var d := n / m - q;
    assert n == m * (n / m) + n % m;
    assert m * d == r - n % m;
    if d != 0 { Product(m, d); }
  }

  lemma Product(m: int, d: int)
    requires m > 0
    ensures d > 0 ==> m * d >= m
    ensures d < 0 ==> m * d <= -m
  {
  }

  lemma RemainderHalves(x: nat, half: nat)
    requires half > 0
    ensures x % (2 * half) == x % 2 + 2 * (x / 2 % half)
  {
    var q, r := x / 2 / half, x / 2 % half;
    assert x / 2 == half * q + r;
    assert half * q + half * q == (2 * half) * q;
    QuotientIs(x, 2 * half, q, x % 2 + 2 * r);
  }

  lemma NextRemainder(x: nat, m: nat)
    requires m > 0
    ensures (x + 1) % m == if x % m + 1 < m then x % m + 1 else 0
  {
    var q, r := x / m, x % m;
    assert x == m * q + r;
    if r + 1 < m {
      QuotientIs(x + 1, m, q, r + 1);
    } else {
      assert m * (q + 1) == m * q + m;
      QuotientIs(x + 1, m, q + 1, 0);
    }
  }

  /** Rounding up adds what the remainder lacks. */
  lemma {:induction false} RoundUpIs(pos: nat, align: nat)
    ensures var r := pos % Pow2(align);
            RoundUp(pos, align) == if r == 0 then pos else pos + (Pow2(align) - r)
  {
    if align > 0 {
      var half := Pow2(align - 1);
      RoundUpIs((pos + 1) / 2, align - 1);
      RemainderHalves(pos, half);
      NextRemainder(pos / 2, half);
      assert (pos + 1) / 2 == if pos % 2 == 0 then pos / 2 else pos / 2 + 1;
    }
  }

  lemma {:induction false} NextMultipleIs(pos: nat, m: nat, q: nat, j: nat)
    requires m > 0 && q == m * j && q < pos + m
    ensures var r := pos % m;
            NextMultiple(pos, m, q) == if r == 0 then pos else pos + (m - r)
    decreases pos + m - q
  {
    if q == pos {
      QuotientIs(pos, m, j, 0);
    } else if q > pos {
      Product(m, j - 1);
      assert m * (j - 1) == q - m;
      QuotientIs(pos, m, j - 1, pos - (q - m));
    } else {
      assert m * (j + 1) == q + m;
      NextMultipleIs(pos, m, q + m, j + 1);
    }
  }

  lemma AlignedIs(pos: nat, align: nat)
    ensures Aligned(pos, align) == RoundUp(pos, align)
    ensures var r := pos % Pow2(align);
            Aligned(pos, align) == if r == 0 then pos else pos + (Pow2(align) - r)
  {
    RoundUpIs(pos, align);
    NextMultipleIs(pos, Pow2(align), 0, 0);
  }

  /** set_align */
  method SetAlign(fout: Bytes, writePos: nat, align: nat, pad: Byte) returns (fout': Bytes, writePos': nat)
    ensures writePos' == Aligned(writePos, align)
    ensures fout' == fout + Pad(pad, writePos' - writePos)
  {
    fout', writePos' := fout, writePos;
    var m := Pow2(align);
    AlignedIs(writePos, align);
    if writePos % m != 0 {
      var length := m - writePos % m;
      fout', writePos' := fout + Pad(pad, length), writePos + length;
    }
  }

  /** One pass of the loop of compress_zso: align, choose the form, write. */
  method CompressBlock(job: Job, k: nat, body: Bytes, writePos: nat) returns (r: Option<(Bytes, nat, nat)>)
    requires k < |job.blocks| && job.HeaderFits() && body == job.Body(k) && writePos == job.End(k)
    ensures r.None? <==> job.Misaligned(k)
    ensures r.Some? ==> r.value == (job.Body(k + 1), job.Index(k), job.End(k + 1))
  {
    var align := job.Align();
    var data := job.codec.encode(job.blocks[k]);
    var out, at := SetAlign(body, writePos, align, job.pad);
    var index := ShiftDown(at, align);
    if 100 * |data| >= job.limit {
      data, index := job.blocks[k], Flagged(index);
    } else if IsFlagged(index) {
      return None;
    }
    r := Some((out + data, index, at + |data|));
  }

  /** The loop of compress_zso over the blocks: the bytes behind the index, the index and the position. */
  method CompressBlocks(job: Job) returns (r: Option<(Bytes, seq<nat>, nat)>)
    requires job.HeaderFits()
    ensures r.None? <==> exists i :: 0 <= i < |job.blocks| && job.Misaligned(i)
    ensures r.Some? ==> r.value.0 == job.Body(|job.blocks|) && r.value.2 == job.End(|job.blocks|)
    ensures r.Some? ==> |r.value.1| == |job.blocks| &&
                        forall i :: 0 <= i < |job.blocks| ==> r.value.1[i] == job.Index(i)
  {
    var body, indexes, writePos := [], [], job.Base();
    for block := 0 to |job.blocks|
      invariant |indexes| == block
      invariant body == job.Body(block) && writePos == job.End(block)
      invariant forall i :: 0 <= i < block ==> indexes[i] == job.Index(i)
      invariant forall i :: 0 <= i < block ==> !job.Misaligned(i)
    {
      var next := CompressBlock(job, block, body, writePos);
      if next.None? { return None; }
      body, indexes, writePos := next.value.0, indexes + [next.value.1], next.value.2;
    }
    r := Some((body, indexes, writePos));
  }

  method PackIndex(job: Job, indexes: seq<nat>) returns (r: Result<Bytes>)
    requires |indexes| == |job.blocks| + 1 && forall i :: 0 <= i <= |job.blocks| ==> indexes[i] == job.Index(i)
    ensures r == if exists i :: 0 <= i <= |job.blocks| && job.Index(i) >= TWO32 then Err(PackError)
                 else Ok(job.Indexes(|job.blocks| + 1))
  {
    var packed, i := [], 0;
    while i < |indexes|
      invariant i <= |indexes| && packed == job.Indexes(i)
      invariant forall k :: 0 <= k < i ==> job.Index(k) < TWO32
    {
      if indexes[i] >= TWO32 { return Err(PackError); }
      packed, i := packed + Le(indexes[i], 4), i + 1;
    }
    r := Ok(packed);
  }

  function JobOf(image: Bytes, bs: nat, codec: Codec, threshold: int, pad: Byte): Job
    requires bs > 0
  {
    Job(BlocksOf(image, bs), bs, |image|, codec, threshold * bs, pad)
  }

  lemma {:induction false} BlocksAreWhole(image: Bytes, bs: nat)
    requires bs > 0
    ensures forall i :: 0 <= i < |BlocksOf(image, bs)| ==> |BlocksOf(image, bs)[i]| == bs
    decreases |image|
  {
    if |image| >= bs { BlocksAreWhole(image[bs..], bs); }
  }

  method ReadBlocks(image: Bytes, bs: nat) returns (blocks: seq<Bytes>)
    requires bs > 0
    ensures blocks == BlocksOf(image, bs)
  {
    CountIs(image, bs);
    var count := Quotient(|image|, bs);
    var rest := image;
    blocks := [];
    while |blocks| < count
      invariant blocks + BlocksOf(rest, bs) == BlocksOf(image, bs)
      decreases count - |blocks|
    {
      ghost var was := blocks;
      assert BlocksOf(rest, bs) != [];
      blocks, rest := blocks + [rest[..bs]], rest[bs..];
      Assoc(was, [blocks[|was|]], BlocksOf(rest, bs));
    }
    assert BlocksOf(rest, bs) == [];
  }

  /** compress_zso */
  method CompressFile(image: Bytes, bs: nat, codec: Codec, threshold: int, pad: Byte) returns (r: Result<Bytes>)
    requires bs > 0
    ensures r == JobOf(image, bs, codec, threshold, pad).Compressed()
  {
    BlocksAreWhole(image, bs);
    var blocks := ReadBlocks(image, bs);
    var job := Job(blocks, bs, |image|, codec, threshold * bs, pad);
    if !job.HeaderFits() { return Err(PackError); }
    var done := CompressBlocks(job);
    if done.None? { return Err(AlignError); }
    var (body, indexes, writePos) := done.value;
    var packed := PackIndex(job, indexes + [ShiftDown(writePos, job.Align())]);
    if packed.Err? { return Err(PackError); }
    r := Ok(Header(job.total, bs, job.Align()) + packed.value + body);
  }
}
