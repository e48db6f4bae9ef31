/** What a container written by pc/ziso.py gives back when it is read. */
module ZisoRoundTrip {
  import opened Wrappers
  import opened Text
  import opened Ziso

  /** A codec decodes what it encoded, and refuses it with bytes behind it. */
  ghost predicate Exact(codec: Codec, bs: nat) {
    && (forall x: Bytes :: |x| == bs ==> codec.decode(codec.encode(x), bs) == Some(x))
    && (forall x: Bytes, more: Bytes :: |x| == bs && more != [] ==> codec.decode(codec.encode(x) + more, bs) == None)
  }

  /** It makes no whole block of less than what it encoded. */
  ghost predicate RefusesCuts(codec: Codec, bs: nat) {
    forall x: Bytes, n: nat :: |x| == bs && n < |codec.encode(x)| ==> !Decodes(codec, codec.encode(x)[..n], bs)
  }

  ghost predicate Lawful(codec: Codec, bs: nat) {
    Exact(codec, bs) && RefusesCuts(codec, bs)
  }

  predicate Decodes(codec: Codec, data: Bytes, bs: nat) {
    codec.decode(data, bs).Some? && |codec.decode(data, bs).value| == bs
  }

  /** A codec that packs blocks of one repeated byte; everything else it only marks. */
  function RunLength(): Codec {
    Codec((x: Bytes) => if IsRun(x) then [1, x[0]] else [0] + x, (data: Bytes, bs: nat) => Unpacked(data, bs))
  }

  predicate IsRun(x: Bytes) {
    x != [] && forall i :: 0 <= i < |x| ==> x[i] == x[0]
  }

  function Unpacked(data: Bytes, bs: nat): Option<Bytes> {
    if |data| == 2 && data[0] == 1 then Some(Pad(data[1], bs))
    else if |data| == bs + 1 && data[0] == 0 then Some(data[1..])
    else None
  }

  lemma {:induction false} PadIsRun(x: Bytes, n: nat)
    requires IsRun(x) && n <= |x|
    ensures Pad(x[0], n) == x[..n]
  {
    if n > 0 {
      PadIsRun(x, n - 1);
      assert x[..n] == x[..n - 1] + [x[n - 1]];
    }
  }

  /** What is asked of a codec can be had, for every block size. */
  lemma RunLengthIsLawful(bs: nat)
    ensures Lawful(RunLength(), bs)
  {
    var codec := RunLength();
    forall x: Bytes | |x| == bs ensures codec.decode(codec.encode(x), bs) == Some(x) {
      if IsRun(x) {
        PadIsRun(x, bs);
        assert x[..bs] == x;
      } else {
        assert ([0] + x)[1..] == x;
      }
    }
    forall x: Bytes, n: nat | |x| == bs && n < |codec.encode(x)| ensures !Decodes(codec, codec.encode(x)[..n], bs) {
    }
  }

  // ----- slices ---------------------------------------------------------------------------------

  lemma HeaderReads(total: nat, bs: nat, align: nat, rest: Bytes)
    requires align < 128 && total < TWO64 && bs < TWO32
    ensures var file := Header(total, bs, align) + rest;
            && file[0..4] == Le(MAGIC, 4) && file[4..8] == Le(HEADER_SIZE, 4) && file[8..16] == Le(total, 8)
            && file[16..20] == Le(bs, 4) && file[20] == 1 && file[21] == align
  {
    FieldsOf(Le(MAGIC, 4), Le(HEADER_SIZE, 4), Le(total, 8), Le(bs, 4), [1, align, 0, 0], rest);
  }

  lemma FieldsOf(magic: Bytes, size: Bytes, total: Bytes, bs: Bytes, last: Bytes, rest: Bytes)
    requires |magic| == |size| == |bs| == |last| == 4 && |total| == 8
    ensures var file := magic + size + total + bs + last + rest;
            && file[0..4] == magic && file[4..8] == size && file[8..16] == total && file[16..20] == bs
            && file[20] == last[0] && file[21] == last[1]
  {
  }

  lemma Limits()
    ensures Limit(4) == TWO32 && Limit(8) == TWO64
  {
    assert Limit(2) == 256 * Limit(1) == 0x1_0000;
    assert Limit(4) == 256 * Limit(3) == TWO32;
    assert Limit(6) == 256 * Limit(5) == 0x1_0000 * TWO32;
    assert Limit(8) == 256 * Limit(7);
  }

  lemma {:induction false} IndexAt(job: Job, i: nat, k: nat)
    requires k < i <= |job.blocks| + 1
    ensures job.Indexes(i)[4 * k..4 * k + 4] == Le(job.Index(k), 4)
  {
    if k < i - 1 {
      IndexAt(job, i - 1, k);
    }
  }

  // ----- where the blocks are -------------------------------------------------------------------

  lemma {:induction false} BodyLength(job: Job, i: nat)
    requires i <= |job.blocks|
    ensures |job.Body(i)| == job.End(i) - job.Base()
  {
    if i > 0 { BodyLength(job, i - 1); }
  }

  lemma {:induction false} EndGrows(job: Job, i: nat, n: nat)
    requires i < n <= |job.blocks|
    ensures job.Start(i) <= job.Start(i) + |job.Stored(i)| == job.End(i + 1) <= job.End(n)
    decreases n
  {
    if i < n - 1 { EndGrows(job, i, n - 1); }
  }

  predicate Parts(b: Bytes, front: Bytes, data: Bytes, rest: Bytes, from: int) {
    b == front + data + rest && |front| == from
  }

  /** `data` is in b, `from` bytes in. */
  ghost predicate At(b: Bytes, from: int, data: Bytes) {
    exists front, rest :: Parts(b, front, data, rest, from)
  }

  lemma AtIsSlice(b: Bytes, from: int, data: Bytes)
    requires At(b, from, data)
    ensures 0 <= from <= from + |data| <= |b| && b[from..from + |data|] == data
  {
    var front, rest :| Parts(b, front, data, rest, from);
    assert b[|front|..|front| + |data|] == data;
  }

  lemma SliceIsAt(b: Bytes, from: nat, to: nat)
    requires from <= to <= |b|
    ensures At(b, from, b[from..to])
  {
    assert b == b[..from] + b[from..to] + b[to..];
    assert Parts(b, b[..from], b[from..to], b[to..], from);
  }

  function Gap(job: Job, k: nat): Bytes
    requires k <= |job.blocks|
  {
    Pad(job.pad, job.Start(k) - job.End(k))
  }

  /** The bytes in front of block k. */
  function Front(job: Job, k: nat): (r: Bytes)
    requires k <= |job.blocks|
  {
    job.Body(k) + Gap(job, k)
  }

  lemma FrontLength(job: Job, k: nat)
    requires k <= |job.blocks|
    ensures |Front(job, k)| == job.Start(k) - job.Base()
  {
    BodyLength(job, k);
  }

  lemma BodyStep(job: Job, k: nat)
    requires k < |job.blocks|
    ensures job.Body(k + 1) == Front(job, k) + job.Stored(k)
  {
  }

  /** The bytes of the body behind its first i blocks. */
  function Rest(job: Job, i: nat, n: nat): Bytes
    requires i <= n <= |job.blocks|
  {
    if i == n then [] else Rest(job, i, n - 1) + (Gap(job, n - 1) + job.Stored(n - 1))
  }

  lemma {:induction false} BodySplits(job: Job, i: nat, n: nat)
    requires i <= n <= |job.blocks|
    ensures job.Body(n) == job.Body(i) + Rest(job, i, n)
  {
    if i == n {
      Nil(job.Body(i));
    } else {
      BodySplits(job, i, n - 1);
      BodyStep(job, n - 1);
      Assoc(job.Body(n - 1), Gap(job, n - 1), job.Stored(n - 1));
      Assoc(job.Body(i), Rest(job, i, n - 1), Gap(job, n - 1) + job.Stored(n - 1));
    }
  }

  /** Block k is between what is in front of it and what is behind it... */
  lemma StoredInBody(job: Job, k: nat)
    requires k < |job.blocks|
    ensures job.Body(|job.blocks|) == Front(job, k) + job.Stored(k) + Rest(job, k + 1, |job.blocks|)
  {
    BodySplits(job, k + 1, |job.blocks|);
    BodyStep(job, k);
  }

  /** ... and what is behind it begins with the padding up to the next block. */
  lemma PaddedInBody(job: Job, k: nat)
    requires k + 1 < |job.blocks|
    ensures job.Body(|job.blocks|) ==
            Front(job, k) + (job.Stored(k) + Gap(job, k + 1)) + (job.Stored(k + 1) + Rest(job, k + 2, |job.blocks|))
  {
    StoredInBody(job, k + 1);
    BodyStep(job, k);
    Assoc(Front(job, k), job.Stored(k), Gap(job, k + 1));
    Assoc(Front(job, k + 1), job.Stored(k + 1), Rest(job, k + 2, |job.blocks|));
  }

  // ----- index entries --------------------------------------------------------------------------

  lemma {:induction false} ShiftBack(pos: nat, align: nat)
    ensures ShiftUp(ShiftDown(RoundUp(pos, align), align), align) == RoundUp(pos, align)
  {
    if align > 0 {
      var half := RoundUp((pos + 1) / 2, align - 1);
      ShiftBack((pos + 1) / 2, align - 1);
      assert RoundUp(pos, align) == 2 * half && 2 * half / 2 == half;
    }
  }

  lemma {:induction false} ShiftUpGap(a: int, b: int, align: nat)
    ensures ShiftUp(b - a, align) == ShiftUp(b, align) - ShiftUp(a, align)
  {
    if align > 0 { ShiftUpGap(a, b, align - 1); }
  }

  /** The alignment is large enough for every position inside the image's length. */
  lemma {:induction false} ShiftFits(pos: nat, align: nat)
    requires pos < (align + 1) * PLAIN
    ensures ShiftDown(pos, align) < PLAIN
  {
    if align > 0 { ShiftFits(pos / 2, align - 1); }
  }

  lemma AlignCovers(job: Job)
    ensures job.total < (job.Align() + 1) * PLAIN
  {
  }

  ghost predicate InRange(job: Job, k: nat)
    requires k < |job.blocks|
  {
    ShiftDown(job.Start(k), job.Align()) < PLAIN
  }

  /** An entry gives back the true position exactly when that position fits in 31 bits. */
  lemma EntryIsPositionIff(job: Job, k: nat)
    requires k < |job.blocks|
    ensures ShiftUp(Low31(job.Index(k)), job.Align()) == job.Start(k) <==> InRange(job, k)
    ensures InRange(job, k) ==> job.Index(k) < TWO32 && IsFlagged(job.Index(k)) == job.IsPlain(k)
  {
    var v := ShiftDown(job.Start(k), job.Align());
    ShiftBack(job.End(k), job.Align());
    AlignedIs(job.End(k), job.Align());
    ShiftUpOrdered(Low31(job.Index(k)), v, job.Align());
    Flags(v);
  }

  lemma Flags(v: nat)
    ensures 0 <= Low31(v) < PLAIN && 0 <= Low31(Flagged(v)) < PLAIN
    ensures v < PLAIN ==>
              Low31(v) == v == Low31(Flagged(v)) && !IsFlagged(v) && IsFlagged(Flagged(v)) && Flagged(v) == v + PLAIN
  {
  }

  lemma {:induction false} ShiftUpOrdered(a: int, b: int, align: nat)
    ensures ShiftUp(a, align) == ShiftUp(b, align) ==> a == b
  {
    if align > 0 { ShiftUpOrdered(a, b, align - 1); }
  }

  /** A file that ends inside the range of its alignment is always written, with every position in range. */
  lemma SmallFileIsWritten(job: Job)
    requires job.HeaderFits() && job.End(|job.blocks|) < (job.Align() + 1) * PLAIN
    ensures job.Compressed() == Ok(job.File())
    ensures forall k :: 0 <= k < |job.blocks| ==> InRange(job, k)
  {
    forall k | 0 <= k < |job.blocks| ensures InRange(job, k) && !job.Misaligned(k) && job.Index(k) < TWO32 {
      EndGrows(job, k, |job.blocks|);
      ShiftFits(job.Start(k), job.Align());
      EntryIsPositionIff(job, k);
    }
    ShiftFits(job.End(|job.blocks|), job.Align());
  }

  /** So an output no longer than the input is. */
  lemma ShortOutputIsWritten(job: Job)
    requires job.HeaderFits() && job.End(|job.blocks|) <= job.total
    ensures job.Compressed() == Ok(job.File())
    ensures forall k :: 0 <= k < |job.blocks| ==> InRange(job, k)
  {
    AlignCovers(job);
    SmallFileIsWritten(job);
  }

  // ----- reading a written container ------------------------------------------------------------

  ghost predicate Written(job: Job) {
    && job.Valid() && job.HeaderFits() && job.total > 0 && |job.blocks| == Quotient(job.total, job.bs)
    && job.Compressed() == Ok(job.File())
  }

  lemma FileParts(job: Job)
    requires job.HeaderFits()
    ensures |job.File()| == job.End(|job.blocks|)
    ensures job.File() == Header(job.total, job.bs, job.Align()) + (job.Indexes(|job.blocks| + 1) + job.Body(|job.blocks|))
  {
    BodyLength(job, |job.blocks|);
    Assoc(Header(job.total, job.bs, job.Align()), job.Indexes(|job.blocks| + 1), job.Body(|job.blocks|));
  }

  /** What reading the header of the job's container finds. */
  ghost predicate Opens(c: Container, job: Job) {
    && job.Valid() && c.codec == job.codec && c.Readable() && c.Total() == job.total && c.BlockSize() == job.bs
    && c.Count() == |job.blocks| && c.file[21] == job.Align() < 128
  }

  /** The entry of block k says where it is and whether it is plain. */
  ghost predicate Places(c: Container, job: Job, k: nat) {
    && Opens(c, job) && k < |job.blocks|
    && c.ReadPos(k) == job.Start(k) && IsFlagged(c.Entry(k)) == job.IsPlain(k)
  }

  lemma HeaderIsRead(job: Job)
    requires Written(job)
    ensures Opens(Container(job.File(), job.codec), job)
  {
    FileParts(job);
    HeaderReads(job.total, job.bs, job.Align(), job.Indexes(|job.blocks| + 1) + job.Body(|job.blocks|));
    Limits();
    UnLeOfLe(MAGIC, 4);
    UnLeOfLe(HEADER_SIZE, 4);
    UnLeOfLe(job.total, 8);
    UnLeOfLe(job.bs, 4);
  }

  lemma EntryBytes(job: Job, k: nat)
    requires job.HeaderFits() && k <= |job.blocks|
    ensures At(job.File(), HEADER_SIZE + 4 * k, Le(job.Index(k), 4))
  {
    IndexAt(job, |job.blocks| + 1, k);
    SliceIsAt(job.Indexes(|job.blocks| + 1), 4 * k, 4 * k + 4);
    var header, indexes := Header(job.total, job.bs, job.Align()), job.Indexes(|job.blocks| + 1);
    AtBehind(header, indexes, 4 * k, Le(job.Index(k), 4));
    AtBefore(header + indexes, job.Body(|job.blocks|), HEADER_SIZE + 4 * k, Le(job.Index(k), 4));
  }

  lemma EntryIsRead(c: Container, job: Job, k: nat)
    requires Opens(c, job) && k <= |job.blocks| && job.Index(k) < TWO32
    requires At(c.file, HEADER_SIZE + 4 * k, Le(job.Index(k), 4))
    ensures c.Entry(k) == job.Index(k)
  {
    Limits();
    AtIsSlice(c.file, HEADER_SIZE + 4 * k, Le(job.Index(k), 4));
    UnLeOfLe(job.Index(k), 4);
  }

  lemma AtBehind(a: Bytes, b: Bytes, from: int, data: Bytes)
    requires At(b, from, data)
    ensures At(a + b, |a| + from, data)
  {
    var front, rest :| Parts(b, front, data, rest, from);
    assert a + b == a + front + data + rest;
    assert Parts(a + b, a + front, data, rest, |a| + from);
  }

  lemma AtBefore(a: Bytes, b: Bytes, from: int, data: Bytes)
    requires At(a, from, data)
    ensures At(a + b, from, data)
  {
    var front, rest :| Parts(a, front, data, rest, from);
    assert a + b == front + data + (rest + b);
    assert Parts(a + b, front, data, rest + b, from);
  }

  function Behind(file: Bytes, n: nat): Option<Bytes> {
    if n <= |file| then Some(file[n..]) else None
  }

  /** The blocks start behind the header and the index. */
  ghost predicate EndsWithBody(file: Bytes, job: Job) {
    Behind(file, job.Base()) == Some(job.Body(|job.blocks|))
  }

  lemma FileEndsWithBody(job: Job)
    requires job.HeaderFits()
    ensures EndsWithBody(job.File(), job)
  {
  }

  lemma PartInFile(file: Bytes, base: nat, front: Bytes, data: Bytes, rest: Bytes, at: int)
    requires Behind(file, base) == Some(front + data + rest) && at == base + |front|
    ensures At(file, at, data)
  {
    assert file == file[..base] + (front + data + rest);
    assert file == (file[..base] + front) + data + rest;
    assert Parts(file, file[..base] + front, data, rest, at);
  }

  lemma StoredInFile(file: Bytes, job: Job, k: nat)
    requires EndsWithBody(file, job) && k < |job.blocks|
    ensures At(file, job.Start(k), job.Stored(k))
  {
    StoredInBody(job, k);
    FrontLength(job, k);
    PartInFile(file, job.Base(), Front(job, k), job.Stored(k), Rest(job, k + 1, |job.blocks|), job.Start(k));
  }

  lemma PaddedInFile(file: Bytes, job: Job, k: nat)
    requires EndsWithBody(file, job) && k + 1 < |job.blocks|
    ensures At(file, job.Start(k), job.Stored(k) + Gap(job, k + 1))
  {
    PaddedInBody(job, k);
    FrontLength(job, k);
    PartInFile(file, job.Base(), Front(job, k), job.Stored(k) + Gap(job, k + 1),
               job.Stored(k + 1) + Rest(job, k + 2, |job.blocks|), job.Start(k));
  }

  lemma ChunkAt(file: Bytes, from: nat, data: Bytes)
    requires At(file, from, data)
    ensures data != [] ==> Chunk(file, from, |data|) == data
    ensures data == [] ==> Chunk(file, from, 0) == []
  {
    AtIsSlice(file, from, data);
  }

  /** Only padding is trimmed off. */
  lemma {:induction false} TrimsPadding(codec: Codec, x: Bytes, more: Bytes, bs: nat)
    requires Exact(codec, bs) && |x| == bs
    ensures Trimmed(codec, codec.encode(x) + more, bs) == Some(x)
    decreases |more|
  {
    if more == [] {
      Nil(codec.encode(x));
    } else {
      var less := more[..|more| - 1];
      assert (codec.encode(x) + more)[..|codec.encode(x) + more| - 1] == codec.encode(x) + less;
      TrimsPadding(codec, x, less, bs);
    }
  }

  /** A cut block never comes back whole, however much more is trimmed off. */
  lemma {:induction false} CutBlockIsLost(codec: Codec, x: Bytes, n: nat, bs: nat)
    requires RefusesCuts(codec, bs) && |x| == bs && n < |codec.encode(x)|
    ensures Trimmed(codec, codec.encode(x)[..n], bs).None? || |Trimmed(codec, codec.encode(x)[..n], bs).value| != bs
  {
    var data := codec.encode(x)[..n];
    assert !Decodes(codec, data, bs);
    if n > 0 {
      assert data[..n - 1] == codec.encode(x)[..n - 1];
      CutBlockIsLost(codec, x, n - 1, bs);
    }
  }

  // ----- block by block -------------------------------------------------------------------------

  lemma PositionIsRead(job: Job, k: nat)
    requires Written(job) && k < |job.blocks| && InRange(job, k)
    ensures Places(Container(job.File(), job.codec), job, k)
  {
    HeaderIsRead(job);
    EntryIsPositionIff(job, k);
    EntryBytes(job, k);
    EntryIsRead(Container(job.File(), job.codec), job, k);
  }

  lemma PlainIsRead(c: Container, job: Job, k: nat)
    requires Places(c, job, k) && job.IsPlain(k) && At(c.file, job.Start(k), job.Stored(k))
    ensures c.Restored(k) == Ok(job.blocks[k])
  {
    ChunkAt(c.file, job.Start(k), job.Stored(k));
  }

  lemma RestoredPacked(c: Container, k: nat, data: Bytes)
    requires c.Readable() && k < c.Count() && c.file[21] < 128 && !IsFlagged(c.Entry(k)) && c.ReadSize(k) >= -1
    requires Chunk(c.file, c.ReadPos(k), c.ReadSize(k)) == data
    ensures var t := Trimmed(c.codec, data, c.BlockSize());
            if t.Some? && |t.value| == c.BlockSize() then c.Restored(k) == Ok(t.value) else c.Restored(k).Err?
  {
  }

  lemma InnerSize(c: Container, k: nat)
    requires c.Readable() && k + 1 < c.Count()
    ensures c.ReadSize(k) == c.ReadPos(k + 1) - c.ReadPos(k)
  {
    ShiftUpGap(Low31(c.Entry(k)), Low31(c.Entry(k + 1)), c.file[21]);
  }

  /** A compressed block in front of another one is read together with its padding. */
  lemma PackedIsRead(c: Container, job: Job, k: nat)
    requires Places(c, job, k) && Places(c, job, k + 1) && !job.IsPlain(k) && Exact(job.codec, job.bs)
    requires At(c.file, job.Start(k), job.Stored(k) + Gap(job, k + 1))
    ensures c.Restored(k) == Ok(job.blocks[k])
  {
    InnerSize(c, k);
    var data := job.Stored(k) + Gap(job, k + 1);
    NextStart(job, k);
    ChunkAt(c.file, job.Start(k), data);
    TrimsPadding(job.codec, job.blocks[k], Gap(job, k + 1), job.bs);
    RestoredPacked(c, k, data);
  }

  lemma NextStart(job: Job, k: nat)
    requires k + 1 <= |job.blocks|
    ensures job.Start(k + 1) == job.Start(k) + |job.Stored(k) + Gap(job, k + 1)|
  {
    EndGrows(job, k, k + 1);
  }

  lemma InnerIsReadFrom(c: Container, job: Job, k: nat)
    requires Places(c, job, k) && Places(c, job, k + 1) && EndsWithBody(c.file, job) && Exact(job.codec, job.bs)
    ensures c.Restored(k) == Ok(job.blocks[k])
  {
    if job.IsPlain(k) {
      StoredInFile(c.file, job, k);
      PlainIsRead(c, job, k);
    } else {
      PaddedInFile(c.file, job, k);
      PackedIsRead(c, job, k);
    }
  }

  /** A block with another one behind it comes back. */
  lemma InnerIsRead(job: Job, k: nat)
    requires Written(job) && k + 1 < |job.blocks| && InRange(job, k) && InRange(job, k + 1)
    requires Exact(job.codec, job.bs)
    ensures Places(Container(job.File(), job.codec), job, k)
    ensures Container(job.File(), job.codec).Restored(k) == Ok(job.blocks[k])
  {
    PositionIsRead(job, k);
    PositionIsRead(job, k + 1);
    FileEndsWithBody(job);
    InnerIsReadFrom(Container(job.File(), job.codec), job, k);
  }

  /** The last block's length is taken from the header: it must reach to the end of the file, or be -1,
      which reads as much. */
  predicate ReachesLast(job: Job)
    requires job.blocks != []
  {
    var k := |job.blocks| - 1;
    job.IsPlain(k) || job.End(k + 1) <= job.total || job.total == job.Start(k) - 1
  }

  /** The bytes read for the last block. */
  function LastData(job: Job): Bytes
    requires job.blocks != [] && job.total >= job.Start(|job.blocks| - 1) - 1
  {
    var k := |job.blocks| - 1;
    var size := job.total - job.Start(k);
    if size < 0 || size >= |job.Stored(k)| then job.Stored(k) else job.Stored(k)[..size]
  }

  lemma LastDataIsRead(file: Bytes, job: Job)
    requires job.blocks != [] && |file| == job.End(|job.blocks|) && job.total >= job.Start(|job.blocks| - 1) - 1
    requires At(file, job.Start(|job.blocks| - 1), job.Stored(|job.blocks| - 1))
    ensures Chunk(file, job.Start(|job.blocks| - 1), job.total - job.Start(|job.blocks| - 1)) == LastData(job)
  {
    var k := |job.blocks| - 1;
    EndGrows(job, k, k + 1);
    LastChunk(file, job.Start(k), job.Stored(k), job.total - job.Start(k));
  }

  lemma LastDataDecodes(job: Job)
    requires job.Valid() && job.blocks != [] && !job.IsPlain(|job.blocks| - 1) && Exact(job.codec, job.bs)
    requires ReachesLast(job) && job.total >= job.Start(|job.blocks| - 1) - 1
    ensures Trimmed(job.codec, LastData(job), job.bs) == Some(job.blocks[|job.blocks| - 1])
  {
    var k := |job.blocks| - 1;
    EndGrows(job, k, k + 1);
    TrimsPadding(job.codec, job.blocks[k], [], job.bs);
    Nil(job.Stored(k));
  }

  lemma LastDataIsLost(job: Job)
    requires job.Valid() && job.blocks != [] && !job.IsPlain(|job.blocks| - 1) && RefusesCuts(job.codec, job.bs)
    requires !ReachesLast(job) && job.total >= job.Start(|job.blocks| - 1)
    ensures var t := Trimmed(job.codec, LastData(job), job.bs); t.None? || |t.value| != job.bs
  {
    var k := |job.blocks| - 1;
    EndGrows(job, k, k + 1);
    CutBlockIsLost(job.codec, job.blocks[k], job.total - job.Start(k), job.bs);
  }

  /** A compressed last block that is all there. */
  ghost predicate EndsPacked(c: Container, job: Job) {
    && job.blocks != [] && Places(c, job, |job.blocks| - 1) && !job.IsPlain(|job.blocks| - 1)
    && |c.file| == job.End(|job.blocks|) && At(c.file, job.Start(|job.blocks| - 1), job.Stored(|job.blocks| - 1))
  }

  lemma LastChunkIs(c: Container, job: Job)
    requires EndsPacked(c, job) && job.total >= job.Start(|job.blocks| - 1) - 1
    ensures c.ReadSize(|job.blocks| - 1) >= -1
    ensures Chunk(c.file, c.ReadPos(|job.blocks| - 1), c.ReadSize(|job.blocks| - 1)) == LastData(job)
  {
    LastDataIsRead(c.file, job);
  }

  lemma ReachedIsBehind(job: Job)
    requires job.blocks != [] && ReachesLast(job) && !job.IsPlain(|job.blocks| - 1)
    ensures job.total >= job.Start(|job.blocks| - 1) - 1
  {
    EndGrows(job, |job.blocks| - 1, |job.blocks|);
  }

  lemma TrimmedIsRestored(c: Container, k: nat, data: Bytes, plain: Bytes)
    requires c.Readable() && k < c.Count() && c.file[21] < 128 && !IsFlagged(c.Entry(k)) && c.ReadSize(k) >= -1
    requires Chunk(c.file, c.ReadPos(k), c.ReadSize(k)) == data
    requires Trimmed(c.codec, data, c.BlockSize()) == Some(plain) && |plain| == c.BlockSize()
    ensures c.Restored(k) == Ok(plain)
  {
    RestoredPacked(c, k, data);
  }

  lemma ReachedIsRead(c: Container, job: Job)
    requires EndsPacked(c, job) && ReachesLast(job) && Exact(job.codec, job.bs)
    ensures c.Restored(|job.blocks| - 1) == Ok(job.blocks[|job.blocks| - 1])
  {
    ReachedIsBehind(job);
    LastChunkIs(c, job);
    LastDataDecodes(job);
    TrimmedIsRestored(c, |job.blocks| - 1, LastData(job), job.blocks[|job.blocks| - 1]);
  }

  lemma CutIsRefused(c: Container, job: Job)
    requires EndsPacked(c, job) && !ReachesLast(job) && RefusesCuts(job.codec, job.bs)
    requires job.total >= job.Start(|job.blocks| - 1) - 1
    ensures c.Restored(|job.blocks| - 1).Err?
  {
    LastChunkIs(c, job);
    LastDataIsLost(job);
    RestoredPacked(c, |job.blocks| - 1, LastData(job));
  }

  lemma NegativeIsRefused(c: Container, job: Job)
    requires EndsPacked(c, job) && job.total < job.Start(|job.blocks| - 1) - 1
    ensures !ReachesLast(job) && c.Restored(|job.blocks| - 1) == Err(ReadError)
  {
    if ReachesLast(job) { ReachedIsBehind(job); }
  }

  lemma LastIsReadFrom(c: Container, job: Job)
    requires job.blocks != [] && Places(c, job, |job.blocks| - 1)
    requires EndsWithBody(c.file, job) && |c.file| == job.End(|job.blocks|)
    ensures Exact(job.codec, job.bs) && ReachesLast(job) ==>
              c.Restored(|job.blocks| - 1) == Ok(job.blocks[|job.blocks| - 1])
    ensures !job.IsPlain(|job.blocks| - 1) && job.total < job.Start(|job.blocks| - 1) - 1 ==>
              c.Restored(|job.blocks| - 1) == Err(ReadError)
    ensures RefusesCuts(job.codec, job.bs) && !ReachesLast(job) ==> c.Restored(|job.blocks| - 1).Err?
  {
    StoredInFile(c.file, job, |job.blocks| - 1);
    if job.IsPlain(|job.blocks| - 1) {
      PlainIsRead(c, job, |job.blocks| - 1);
    } else if job.total < job.Start(|job.blocks| - 1) - 1 {
      NegativeIsRefused(c, job);
    } else if ReachesLast(job) {
      if Exact(job.codec, job.bs) { ReachedIsRead(c, job); }
    } else if RefusesCuts(job.codec, job.bs) {
      CutIsRefused(c, job);
    }
  }

  /** The last block comes back when it is plain or reached. Otherwise the reader stops, or is left with a
      part of it. */
  lemma LastIsRead(job: Job)
    requires Written(job) && job.blocks != [] && InRange(job, |job.blocks| - 1)
    ensures Places(Container(job.File(), job.codec), job, |job.blocks| - 1)
    ensures Exact(job.codec, job.bs) && ReachesLast(job) ==>
              Container(job.File(), job.codec).Restored(|job.blocks| - 1) == Ok(job.blocks[|job.blocks| - 1])
    ensures !job.IsPlain(|job.blocks| - 1) && job.total < job.Start(|job.blocks| - 1) - 1 ==>
              Container(job.File(), job.codec).Restored(|job.blocks| - 1) == Err(ReadError)
    ensures RefusesCuts(job.codec, job.bs) && !ReachesLast(job) ==>
              Container(job.File(), job.codec).Restored(|job.blocks| - 1).Err?
  {
    PositionIsRead(job, |job.blocks| - 1);
    FileEndsWithBody(job);
    FileParts(job);
    LastIsReadFrom(Container(job.File(), job.codec), job);
  }

  lemma LastChunk(file: Bytes, from: nat, data: Bytes, size: int)
    requires At(file, from, data) && |file| == from + |data| && size >= -1
    ensures Chunk(file, from, size) == if size < 0 || size >= |data| then data else data[..size]
  {
    AtIsSlice(file, from, data);
  }

  // ----- whole files ----------------------------------------------------------------------------

  lemma {:induction false} FlattenOfBlocks(blocks: seq<Bytes>, more: seq<Bytes>)
    ensures Flatten(blocks + more) == Flatten(blocks) + Flatten(more)
    decreases |more|
  {
    if more == [] {
      Nil(blocks);
      Nil(Flatten(blocks));
    } else {
      var init, last := more[..|more| - 1], more[|more| - 1];
      assert (blocks + more)[..|blocks + more| - 1] == blocks + init;
      FlattenOfBlocks(blocks, init);
      Assoc(Flatten(blocks), Flatten(init), last);
    }
  }

  /** The blocks are the image, up to its last full block. */
  lemma {:induction false} BlocksAreImage(image: Bytes, bs: nat)
    requires bs > 0
    ensures |image| % bs <= |image| && Flatten(BlocksOf(image, bs)) == image[..|image| - |image| % bs]
    decreases |image|
  {
    if |image| >= bs {
      var rest := image[bs..];
      BlocksAreImage(rest, bs);
      DropBlock(|image|, bs);
      FlattenOfBlocks([image[..bs]], BlocksOf(rest, bs));
      FlattenOne(image[..bs]);
      CutsMeet(image, bs, |rest| % bs);
    }
  }

  lemma DropBlock(n: nat, bs: nat)
    requires 0 < bs <= n
    ensures n % bs == (n - bs) % bs
  {
    QuotientIs(n, bs, (n - bs) / bs + 1, (n - bs) % bs);
  }

  lemma FlattenOne(block: Bytes)
    ensures Flatten([block]) == block
  {
  }

  lemma CutsMeet(image: Bytes, n: nat, r: nat)
    requires n + r <= |image|
    ensures image[..n] + image[n..][..|image[n..]| - r] == image[..|image| - r]
  {
  }

  /** The container holds the job's file, and every entry gives the true position. */
  ghost predicate Holds(c: Container, job: Job) {
    && job.blocks != [] && EndsWithBody(c.file, job) && |c.file| == job.End(|job.blocks|)
    && forall k :: 0 <= k < |job.blocks| ==> Places(c, job, k)
  }

  lemma WrittenHolds(job: Job)
    requires Written(job) && job.blocks != []
    requires forall i :: 0 <= i < |job.blocks| ==> InRange(job, i)
    ensures Holds(Container(job.File(), job.codec), job)
  {
    FileEndsWithBody(job);
    FileParts(job);
    forall k | 0 <= k < |job.blocks| ensures Places(Container(job.File(), job.codec), job, k) {
      PositionIsRead(job, k);
    }
  }

  /** All blocks but the last come back. */
  lemma {:induction false} InnerBlocksAreRead(c: Container, job: Job, k: nat)
    requires Holds(c, job) && k < |job.blocks| && Exact(job.codec, job.bs)
    ensures Places(c, job, k) && c.RestoredTo(k) == Ok(Flatten(job.blocks[..k]))
  {
    assert Places(c, job, k);
    if k > 0 {
      InnerBlocksAreRead(c, job, k - 1);
      InnerIsReadFrom(c, job, k - 1);
      RestoredStep(c, k - 1);
      FlattenStep(job.blocks, k);
    }
  }

  lemma FlattenStep(blocks: seq<Bytes>, k: nat)
    requires 0 < k <= |blocks|
    ensures Flatten(blocks[..k]) == Flatten(blocks[..k - 1]) + blocks[k - 1]
  {
    assert blocks[..k][..k - 1] == blocks[..k - 1];
  }

  lemma EndsWithLast(c: Container, job: Job)
    requires job.blocks != [] && Opens(c, job)
    ensures c.Decompressed() == Extended(c.RestoredTo(|job.blocks| - 1), c.Restored(|job.blocks| - 1))
  {
    RestoredStep(c, |job.blocks| - 1);
  }

  lemma LastCompletes(blocks: seq<Bytes>, before: Result<Bytes>, last: Result<Bytes>, all: Result<Bytes>)
    requires blocks != [] && before == Ok(Flatten(blocks[..|blocks| - 1])) && all == Extended(before, last)
    ensures last.Err? ==> all == last
    ensures last == Ok(blocks[|blocks| - 1]) ==> all == Ok(Flatten(blocks))
  {
    FlattenStep(blocks, |blocks|);
    assert blocks[..|blocks|] == blocks;
  }

  /** All blocks but the last one are read in any case, so the last one decides. */
  lemma LastDecides(c: Container, job: Job)
    requires Holds(c, job) && Exact(job.codec, job.bs)
    ensures Places(c, job, |job.blocks| - 1)
    ensures c.Restored(|job.blocks| - 1).Err? ==> c.Decompressed() == c.Restored(|job.blocks| - 1)
    ensures c.Restored(|job.blocks| - 1) == Ok(job.blocks[|job.blocks| - 1]) ==>
              c.Decompressed() == Ok(Flatten(job.blocks))
  {
    InnerBlocksAreRead(c, job, |job.blocks| - 1);
    EndsWithLast(c, job);
    LastCompletes(job.blocks, c.RestoredTo(|job.blocks| - 1), c.Restored(|job.blocks| - 1), c.Decompressed());
  }

  /** With every position in range, the container gives back all blocks when the last one is plain or its
      length in the header reaches it. */
  lemma BlocksComeBack(job: Job)
    requires Written(job) && job.blocks != [] && Exact(job.codec, job.bs) && ReachesLast(job)
    requires forall i :: 0 <= i < |job.blocks| ==> InRange(job, i)
    ensures Container(job.File(), job.codec).Decompressed() == Ok(Flatten(job.blocks))
  {
    WrittenHolds(job);
    ReachedComesBack(Container(job.File(), job.codec), job);
  }

  lemma ReachedComesBack(c: Container, job: Job)
    requires Holds(c, job) && Exact(job.codec, job.bs) && ReachesLast(job)
    ensures c.Decompressed() == Ok(Flatten(job.blocks))
  {
    LastDecides(c, job);
    LastIsReadFrom(c, job);
  }

  /** A last block that starts more than one byte behind the length in the header stops the reader. */
  lemma BehindTheEndStops(c: Container, job: Job)
    requires Holds(c, job) && Exact(job.codec, job.bs) && !job.IsPlain(|job.blocks| - 1)
    requires job.total < job.Start(|job.blocks| - 1) - 1
    ensures c.Decompressed() == Err(ReadError)
  {
    LastDecides(c, job);
    LastIsReadFrom(c, job);
  }

  lemma CutIsLost(c: Container, job: Job)
    requires Holds(c, job) && Lawful(job.codec, job.bs) && !ReachesLast(job)
    ensures c.Decompressed().Err?
  {
    LastDecides(c, job);
    LastIsReadFrom(c, job);
  }

  /** And not otherwise, for a codec that refuses a cut block. */
  lemma BlocksComeBackIff(job: Job)
    requires Written(job) && job.blocks != [] && Lawful(job.codec, job.bs)
    requires forall i :: 0 <= i < |job.blocks| ==> InRange(job, i)
    ensures Container(job.File(), job.codec).Decompressed() == Ok(Flatten(job.blocks)) <==> ReachesLast(job)
    ensures Container(job.File(), job.codec).Decompressed().Ok? <==> ReachesLast(job)
  {
    if ReachesLast(job) {
      BlocksComeBack(job);
    } else {
      WrittenHolds(job);
      CutIsLost(Container(job.File(), job.codec), job);
    }
  }

  lemma ImageIsWritten(image: Bytes, bs: nat, codec: Codec, threshold: int, pad: Byte)
    requires bs > 0 && image != []
    requires JobOf(image, bs, codec, threshold, pad).HeaderFits()
    requires |JobOf(image, bs, codec, threshold, pad).File()| <= |image|
    ensures var job := JobOf(image, bs, codec, threshold, pad);
            Written(job) && forall i :: 0 <= i < |job.blocks| ==> InRange(job, i)
  {
    var job := JobOf(image, bs, codec, threshold, pad);
    BlocksAreWhole(image, bs);
    CountIs(image, bs);
    FileParts(job);
    ShortOutputIsWritten(job);
  }

  lemma WholeBlocks(image: Bytes, bs: nat)
    requires bs > 0 && image != [] && |image| % bs == 0
    ensures Flatten(BlocksOf(image, bs)) == image && BlocksOf(image, bs) != []
  {
    BlocksAreImage(image, bs);
    assert image[..|image|] == image;
    assert Flatten([]) == [];
  }

  lemma ShortOutputReaches(job: Job)
    requires job.HeaderFits() && job.blocks != [] && |job.File()| <= job.total
    ensures ReachesLast(job)
  {
    FileParts(job);
  }

  /** An image of whole blocks comes back byte for byte from an output that is no longer than it. */
  lemma RoundTrip(image: Bytes, bs: nat, codec: Codec, threshold: int, pad: Byte)
    requires bs > 0 && image != [] && |image| % bs == 0 && Exact(codec, bs)
    requires JobOf(image, bs, codec, threshold, pad).HeaderFits()
    requires |JobOf(image, bs, codec, threshold, pad).File()| <= |image|
    ensures var job := JobOf(image, bs, codec, threshold, pad);
            job.Compressed() == Ok(job.File()) && Container(job.File(), codec).Decompressed() == Ok(image)
  {
    var job := JobOf(image, bs, codec, threshold, pad);
    ImageIsWritten(image, bs, codec, threshold, pad);
    WholeBlocks(image, bs);
    ShortOutputReaches(job);
    BlocksComeBack(job);
  }

  lemma OnlyWholeBlocks(image: Bytes, bs: nat)
    requires bs > 0 && image != []
    ensures Flatten(BlocksOf(image, bs)) == image <==> |image| % bs == 0
    ensures |image| % bs == 0 ==> BlocksOf(image, bs) != []
  {
    BlocksAreImage(image, bs);
    if |image| % bs == 0 { WholeBlocks(image, bs); }
  }

  /** With every position in range, an image comes back exactly when it is made of whole blocks and the
      last one is reached. */
  lemma ImageComesBackIff(image: Bytes, bs: nat, codec: Codec, threshold: int, pad: Byte)
    requires bs > 0 && image != [] && Lawful(codec, bs)
    requires Written(JobOf(image, bs, codec, threshold, pad))
    requires forall i :: 0 <= i < |BlocksOf(image, bs)| ==> InRange(JobOf(image, bs, codec, threshold, pad), i)
    ensures var job := JobOf(image, bs, codec, threshold, pad);
            Container(job.File(), codec).Decompressed() == Ok(image) <==>
            |image| % bs == 0 && job.blocks != [] && ReachesLast(job)
  {
    var job := JobOf(image, bs, codec, threshold, pad);
    OnlyWholeBlocks(image, bs);
    if job.blocks == [] {
      HeaderIsRead(job);
    } else {
      BlocksComeBackIff(job);
      if ReachesLast(job) { BlocksComeBack(job); }
    }
  }
}
