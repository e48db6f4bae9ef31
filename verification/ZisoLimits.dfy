/** Images of pc/ziso.py that do not come back: a last block the length in the header does not reach, and a
    position that does not fit in its index entry. */
module ZisoLimits {
  import opened Wrappers
  import opened Text
  import opened Ziso
  import opened ZisoRoundTrip

  const THRESHOLD: int := 95

  /** A block the run-length codec cannot pack, and one that it packs. */
  function Noise(bs: nat): Bytes
    requires bs > 0
  {
    [1] + Pad(0, bs - 1)
  }

  function Quiet(bs: nat): Bytes {
    Pad(0, bs)
  }

  lemma {:induction false} PadHolds(pad: Byte, n: nat)
    ensures forall i :: 0 <= i < n ==> Pad(pad, n)[i] == pad
  {
    if n > 0 { PadHolds(pad, n - 1); }
  }

  lemma NoiseIsLong(bs: nat)
    requires bs >= 2
    ensures |Noise(bs)| == bs && |RunLength().encode(Noise(bs))| == bs + 1
  {
    PadHolds(0, bs - 1);
    assert Noise(bs)[0] == 1 && Noise(bs)[1] == 0;
  }

  lemma QuietIsShort(bs: nat)
    requires bs > 0
    ensures |Quiet(bs)| == bs && RunLength().encode(Quiet(bs)) == [1, 0]
  {
    PadHolds(0, bs);
  }

  // ----- images from blocks ---------------------------------------------------------------------

  lemma {:induction false} BlocksOfFlatten(blocks: seq<Bytes>, bs: nat)
    requires bs > 0 && forall i :: 0 <= i < |blocks| ==> |blocks[i]| == bs
    ensures BlocksOf(Flatten(blocks), bs) == blocks
    decreases |blocks|
  {
    if blocks != [] {
      var rest := blocks[1..];
      BlocksOfFlatten(rest, bs);
      FlattenOfBlocks([blocks[0]], rest);
      FlattenOne(blocks[0]);
      assert blocks == [blocks[0]] + rest;
      FirstBlock(blocks[0], Flatten(rest), bs);
    }
  }

  lemma FirstBlock(block: Bytes, rest: Bytes, bs: nat)
    requires bs > 0 && |block| == bs
    ensures BlocksOf(block + rest, bs) == [block] + BlocksOf(rest, bs)
  {
    assert (block + rest)[..bs] == block && (block + rest)[bs..] == rest;
  }

  lemma {:induction false} FlattenLength(blocks: seq<Bytes>, bs: nat)
    requires forall i :: 0 <= i < |blocks| ==> |blocks[i]| == bs
    ensures |Flatten(blocks)| == bs * |blocks|
  {
    if blocks != [] {
      FlattenLength(blocks[..|blocks| - 1], bs);
      OneMore(bs, |blocks| - 1);
    }
  }

  lemma OneMore(bs: nat, n: nat)
    ensures bs * (n + 1) == bs * n + bs
  {
  }

  /** The compressor cuts an image of whole blocks into those blocks. */
  lemma JobOfBlocks(blocks: seq<Bytes>, bs: nat, codec: Codec, threshold: int, pad: Byte)
    requires bs > 0 && forall i :: 0 <= i < |blocks| ==> |blocks[i]| == bs
    ensures JobOf(Flatten(blocks), bs, codec, threshold, pad) == Job(blocks, bs, bs * |blocks|, codec, threshold * bs, pad)
  {
    BlocksOfFlatten(blocks, bs);
    FlattenLength(blocks, bs);
  }

  // ----- where plain blocks are -----------------------------------------------------------------

  lemma Unaligned(pos: nat)
    ensures Aligned(pos, 0) == pos
  {
    AlignedIs(pos, 0);
  }

  /** Behind plain blocks only, and without alignment, block k is k blocks behind the index. */
  lemma {:induction false} StartBehindPlain(job: Job, k: nat)
    requires job.Valid() && k <= |job.blocks| && job.Align() == 0
    requires forall i :: 0 <= i < k ==> job.IsPlain(i)
    ensures job.Start(k) == job.End(k) == job.Base() + job.bs * k
  {
    Unaligned(job.End(k));
    if k > 0 {
      StartBehindPlain(job, k - 1);
      OneMore(job.bs, k - 1);
    }
  }

  // ----- a last block the header does not reach -------------------------------------------------

  /** n blocks that are stored plain, and a last one that is packed into p bytes; all below 2 GiB. */
  ghost predicate PlainThenPacked(job: Job, n: nat, p: nat) {
    && job.Valid() && Lawful(job.codec, job.bs)
    && |job.blocks| == n + 1 && job.total == job.bs * (n + 1) && job.total + 4 * n + 32 + p < PLAIN
    && (forall i :: 0 <= i < n ==> job.IsPlain(i)) && !job.IsPlain(n) && |job.Stored(n)| == p
  }

  /** The plain blocks cost four bytes of index each, the header and the end of the index another 32. */
  lemma PackedPosition(job: Job, n: nat, p: nat)
    requires PlainThenPacked(job, n, p)
    ensures job.Start(n) == job.total - job.bs + 4 * n + 32 && job.End(n + 1) == job.Start(n) + p
  {
    StartBehindPlain(job, n);
    OneMore(job.bs, n);
  }

  lemma PackedIsWritten(job: Job, n: nat, p: nat)
    requires PlainThenPacked(job, n, p)
    ensures Written(job) && forall i :: 0 <= i <= n ==> InRange(job, i)
  {
    PackedPosition(job, n, p);
    OneMore(job.bs, n);
    QuotientIsFloor(job.total, job.bs);
    QuotientIs(job.total, job.bs, n + 1, 0);
    SmallFileIsWritten(job);
  }

  lemma PackedReaches(job: Job, n: nat, p: nat)
    requires PlainThenPacked(job, n, p)
    ensures ReachesLast(job) <==> job.bs >= 4 * n + 32 + p || job.bs == 4 * n + 31
  {
    PackedPosition(job, n, p);
  }

  lemma CutIsHangOrBlockError(c: Container, k: nat)
    requires c.Readable() && k < c.Count() && c.file[21] < 128 && !IsFlagged(c.Entry(k)) && c.ReadSize(k) >= -1
    requires c.Restored(k).Err?
    ensures c.Restored(k) == Err(Hangs) || c.Restored(k) == Err(BlockError)
  {
  }

  /** What the reader finds of the last block's place, and how much of it is to be read. */
  lemma LastPlace(c: Container, job: Job, n: nat, p: nat)
    requires PlainThenPacked(job, n, p) && Holds(c, job)
    ensures Places(c, job, n) && !IsFlagged(c.Entry(n)) && c.ReadSize(n) == job.bs - 4 * n - 32
  {
    assert Places(c, job, n);
    PackedPosition(job, n, p);
  }

  lemma CutIsNoBlock(c: Container, job: Job, n: nat, p: nat)
    requires PlainThenPacked(job, n, p) && Holds(c, job) && 4 * n + 32 <= job.bs < 4 * n + 32 + p
    ensures Places(c, job, n) && c.Restored(n).Err?
  {
    assert Places(c, job, n);
    PackedReaches(job, n, p);
    LastIsReadFrom(c, job);
  }

  /** A part of the last block is read, and it is no block. */
  lemma PartIsLost(c: Container, job: Job, n: nat, p: nat)
    requires PlainThenPacked(job, n, p) && Holds(c, job) && 4 * n + 32 <= job.bs < 4 * n + 32 + p
    ensures c.Decompressed() == Err(Hangs) || c.Decompressed() == Err(BlockError)
  {
    LastPlace(c, job, n, p);
    CutIsNoBlock(c, job, n, p);
    LastDecides(c, job);
    CutIsHangOrBlockError(c, n);
  }

  lemma NegativeStops(c: Container, job: Job, n: nat, p: nat)
    requires PlainThenPacked(job, n, p) && Holds(c, job) && job.bs < 4 * n + 31
    ensures c.Decompressed() == Err(ReadError)
  {
    PackedPosition(job, n, p);
    BehindTheEndStops(c, job);
  }

  /** Compress an image and decompress the outcome. */
  function ThereAndBack(image: Bytes, bs: nat, codec: Codec, threshold: int, pad: Byte): Result<Bytes>
    requires bs > 0
  {
    var written := JobOf(image, bs, codec, threshold, pad).Compressed();
    if written.Err? then written else Container(written.value, codec).Decompressed()
  }

  lemma WholeImage(image: Bytes, bs: nat, n: nat)
    requires bs > 0 && |image| == bs * (n + 1)
    ensures Flatten(BlocksOf(image, bs)) == image
  {
    QuotientIs(|image|, bs, n + 1, 0);
    OnlyWholeBlocks(image, bs);
  }

  /** Such an image is written without a word, whatever the codec. It comes back exactly when the blocks are
      long enough for the index and the packed one, or when by chance the length for that one is -1;
      otherwise the reader stops with an exception, never ends, or finds no block. */
  lemma PlainThenPackedIs(image: Bytes, bs: nat, codec: Codec, threshold: int, pad: Byte, n: nat, p: nat)
    requires bs > 0 && PlainThenPacked(JobOf(image, bs, codec, threshold, pad), n, p)
    ensures var r := ThereAndBack(image, bs, codec, threshold, pad);
            if bs >= 4 * n + 32 + p || bs == 4 * n + 31 then r == Ok(image)
            else if bs < 4 * n + 31 then r == Err(ReadError)
            else r == Err(Hangs) || r == Err(BlockError)
  {
    var job := JobOf(image, bs, codec, threshold, pad);
    PackedIsWritten(job, n, p);
    WrittenHolds(job);
    WholeImage(image, bs, n);
    var c := Container(job.File(), codec);
    if bs >= 4 * n + 32 + p || bs == 4 * n + 31 {
      PackedReaches(job, n, p);
      ReachedComesBack(c, job);
    } else if bs < 4 * n + 31 {
      NegativeStops(c, job, n, p);
    } else {
      PartIsLost(c, job, n, p);
    }
  }

  // ----- such images ----------------------------------------------------------------------------

  const PAD: Byte := 'X' as int

  /** n blocks of noise and a quiet one, for the run-length codec. */
  ghost predicate IsNoisy(job: Job, n: nat) {
    && job.bs >= 3 && job.codec == RunLength() && job.limit == THRESHOLD * job.bs
    && |job.blocks| == n + 1 && job.total == job.bs * (n + 1) && job.total + 4 * n + 34 < PLAIN
    && (forall i :: 0 <= i < n ==> job.blocks[i] == Noise(job.bs)) && job.blocks[n] == Quiet(job.bs)
  }

  lemma NoiseIsPlain(job: Job, i: nat)
    requires i < |job.blocks| && job.bs >= 3 && job.blocks[i] == Noise(job.bs)
    requires job.codec == RunLength() && job.limit == THRESHOLD * job.bs
    ensures job.IsPlain(i) && |job.blocks[i]| == job.bs
  {
    NoiseIsLong(job.bs);
  }

  lemma NoisyIsPacked(job: Job, n: nat)
    requires IsNoisy(job, n)
    ensures PlainThenPacked(job, n, 2)
  {
    RunLengthIsLawful(job.bs);
    QuietIsShort(job.bs);
    forall i | 0 <= i < n ensures job.IsPlain(i) && |job.blocks[i]| == job.bs { NoiseIsPlain(job, i); }
  }

  lemma HangsOnLittle(c: Container, k: nat)
    requires c.Readable() && k < c.Count() && c.file[21] < 128 && !IsFlagged(c.Entry(k))
    requires c.codec == RunLength() && c.BlockSize() >= 3 && 0 <= c.ReadSize(k) < 2
    ensures c.Restored(k) == Err(Hangs)
  {
    TooLittle(Chunk(c.file, c.ReadPos(k), c.ReadSize(k)), c.BlockSize());
  }

  lemma TooLittle(data: Bytes, bs: nat)
    requires |data| < 2 && bs >= 3
    ensures Trimmed(RunLength(), data, bs) == None
  {
    if data != [] { TooLittle(data[..|data| - 1], bs); }
  }

  /** Nothing or one byte is left to read for the last block. */
  lemma LittleHangs(c: Container, job: Job, n: nat)
    requires IsNoisy(job, n) && Holds(c, job) && 4 * n + 32 <= job.bs < 4 * n + 34
    ensures c.Decompressed() == Err(Hangs)
  {
    NoisyIsPacked(job, n);
    LastPlace(c, job, n, 2);
    HangsOnLittle(c, n);
    LastDecides(c, job);
  }

  function NoiseThenQuiet(n: nat, bs: nat): Bytes
    requires bs > 0
  {
    Flatten(seq(n, _ => Noise(bs)) + [Quiet(bs)])
  }

  lemma NoisyBlocks(blocks: seq<Bytes>, n: nat, bs: nat)
    requires bs >= 3 && blocks == seq(n, _ => Noise(bs)) + [Quiet(bs)]
    ensures |blocks| == n + 1 && (forall i :: 0 <= i < n ==> blocks[i] == Noise(bs)) && blocks[n] == Quiet(bs)
    ensures forall i :: 0 <= i < |blocks| ==> |blocks[i]| == bs
  {
    NoiseIsLong(bs);
    QuietIsShort(bs);
  }

  lemma ImageIsNoisy(n: nat, bs: nat)
    requires bs >= 3 && bs * (n + 1) + 4 * n + 34 < PLAIN
    ensures IsNoisy(JobOf(NoiseThenQuiet(n, bs), bs, RunLength(), THRESHOLD, PAD), n)
  {
    var blocks := seq(n, _ => Noise(bs)) + [Quiet(bs)];
    NoisyBlocks(blocks, n, bs);
    JobOfBlocks(blocks, bs, RunLength(), THRESHOLD, PAD);
  }

  function RunLengthThereAndBack(image: Bytes, bs: nat): Result<Bytes>
    requires bs > 0
  {
    ThereAndBack(image, bs, RunLength(), THRESHOLD, PAD)
  }

  /** For the run-length codec, which packs the quiet block into two bytes, the lost ones all hang. */
  lemma NoiseThenQuietIs(n: nat, bs: nat)
    requires bs >= 3 && bs * (n + 1) + 4 * n + 34 < PLAIN
    ensures RunLengthThereAndBack(NoiseThenQuiet(n, bs), bs) ==
            if bs >= 4 * n + 34 || bs == 4 * n + 31 then Ok(NoiseThenQuiet(n, bs))
            else if bs < 4 * n + 31 then Err(ReadError) else Err(Hangs)
  {
    var image := NoiseThenQuiet(n, bs);
    var job := JobOf(image, bs, RunLength(), THRESHOLD, PAD);
    ImageIsNoisy(n, bs);
    NoisyIsPacked(job, n);
    PlainThenPackedIs(image, bs, RunLength(), THRESHOLD, PAD, n, 2);
    if 4 * n + 32 <= bs < 4 * n + 34 {
      PackedIsWritten(job, n, 2);
      WrittenHolds(job);
      LittleHangs(Container(job.File(), job.codec), job, n);
    }
  }

  const BLOCK: nat := 0x800

  /** About a megabyte of it is the limit: with one block more the reader never ends, and with two it stops. */
  lemma MegabyteIsTheLimit()
    ensures RunLengthThereAndBack(NoiseThenQuiet(503, BLOCK), BLOCK) == Ok(NoiseThenQuiet(503, BLOCK))
    ensures RunLengthThereAndBack(NoiseThenQuiet(504, BLOCK), BLOCK) == Err(Hangs)
    ensures RunLengthThereAndBack(NoiseThenQuiet(505, BLOCK), BLOCK) == Err(ReadError)
  {
    NoiseThenQuietIs(503, BLOCK);
    NoiseThenQuietIs(504, BLOCK);
    NoiseThenQuietIs(505, BLOCK);
  }

  // ----- a position that is too large -----------------------------------------------------------

  const LONG: nat := 0x10_0000 - 1

  /** Just under 2 GiB of noise: no alignment yet, but header, index and data together are longer. */
  ghost predicate IsLong(job: Job) {
    && job.bs == BLOCK && job.codec == RunLength() && job.limit == THRESHOLD * BLOCK
    && |job.blocks| == LONG && job.total == BLOCK * LONG && forall i :: 0 <= i < LONG ==> job.blocks[i] == Noise(BLOCK)
  }

  lemma LongPositions(job: Job, k: nat)
    requires IsLong(job) && k <= LONG
    ensures job.Valid() && job.Align() == 0 && forall i :: 0 <= i < LONG ==> job.IsPlain(i)
    ensures job.Start(k) == job.End(k) == HEADER_SIZE + 4 * (LONG + 1) + BLOCK * k
  {
    forall i | 0 <= i < LONG ensures job.IsPlain(i) && |job.blocks[i]| == job.bs { NoiseIsPlain(job, i); }
    StartBehindPlain(job, k);
  }

  lemma FlaggedFits(v: nat)
    requires v < TWO32
    ensures Flagged(v) < TWO32
  {
  }

  lemma LongIndexFits(job: Job, k: nat)
    requires IsLong(job) && k <= LONG
    ensures job.Index(k) < TWO32
  {
    LongPositions(job, k);
    FlaggedFits(job.Start(k));
  }

  lemma LongIsWritten(job: Job)
    requires IsLong(job)
    ensures job.Compressed() == Ok(job.File())
  {
    LongPositions(job, LONG);
    forall k | 0 <= k <= LONG ensures job.Index(k) < TWO32 { LongIndexFits(job, k); }
  }

  /** It is written without a word, and the entry of its last block gives another position than its own. */
  lemma LongLosesPosition(job: Job)
    requires IsLong(job)
    ensures job.Compressed() == Ok(job.File())
    ensures ShiftUp(Low31(job.Index(LONG - 1)), job.Align()) != job.Start(LONG - 1)
  {
    LongIsWritten(job);
    LongPositions(job, LONG - 1);
    EntryIsPositionIff(job, LONG - 1);
  }

  lemma LongNoiseLosesPosition()
    ensures var job := JobOf(Flatten(seq(LONG, _ => Noise(BLOCK))), BLOCK, RunLength(), THRESHOLD, PAD);
            && |job.blocks| == LONG && job.HeaderFits() && job.Compressed() == Ok(job.File())
            && ShiftUp(Low31(job.Index(LONG - 1)), job.Align()) != job.Start(LONG - 1)
  {
    var blocks := seq(LONG, _ => Noise(BLOCK));
    NoiseIsLong(BLOCK);
    JobOfBlocks(blocks, BLOCK, RunLength(), THRESHOLD, PAD);
    LongLosesPosition(JobOf(Flatten(blocks), BLOCK, RunLength(), THRESHOLD, PAD));
  }
}
