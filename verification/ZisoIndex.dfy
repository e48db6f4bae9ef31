/** What the index of a container written by pc/ziso.py says of where its blocks are, the last one included:
    the reader of modules/isofs/zso.c takes the length of every block from two entries. */
module ZisoIndex {
  import opened Text
  import opened Ziso
  import opened ZisoRoundTrip

  /** Entry k, as it is in the file. */
  function EntryOf(file: Bytes, k: nat): nat
    requires 24 + 4 * k + 4 <= |file|
  {
    var at := 24 + 4 * k;
    file[at] as int + 0x100 * file[at + 1] as int + 0x1_0000 * file[at + 2] as int + 0x100_0000 * file[at + 3] as int
  }

  /** Without its flag. */
  function Offset(file: Bytes, k: nat): nat
    requires 24 + 4 * k + 4 <= |file|
  {
    EntryOf(file, k) % 0x8000_0000
  }

  lemma FourBytes(b: Bytes)
    requires |b| == 4
    ensures UnLe(b) == b[0] as int + 0x100 * b[1] as int + 0x1_0000 * b[2] as int + 0x100_0000 * b[3] as int
  {
    assert b[1..][1..] == b[2..] && b[2..][1..] == b[3..] && b[3..][1..] == [];
    assert UnLe(b[3..]) == b[3] as int + 0x100 * UnLe([]);
    assert UnLe(b[2..]) == b[2] as int + 0x100 * UnLe(b[3..]);
    assert UnLe(b[1..]) == b[1] as int + 0x100 * UnLe(b[2..]);
  }

  lemma EntryIs(job: Job, k: nat)
    requires job.HeaderFits() && k <= |job.blocks| && job.Index(k) < TWO32
    ensures 24 + 4 * k + 4 <= |job.File()| && EntryOf(job.File(), k) == job.Index(k)
  {
    var file := job.File();
    FileParts(job);
    EntryBytes(job, k);
    AtIsSlice(file, HEADER_SIZE + 4 * k, Le(job.Index(k), 4));
    Limits();
    UnLeOfLe(job.Index(k), 4);
    FourBytes(file[24 + 4 * k..28 + 4 * k]);
  }

  lemma {:induction false} ShiftRoundsDown(pos: nat, align: nat)
    ensures var r := ShiftUp(ShiftDown(pos, align), align); r <= pos < r + Pow2(align)
  {
    if align > 0 { ShiftRoundsDown(pos / 2, align - 1); }
  }

  lemma AlignByte(job: Job)
    requires job.HeaderFits()
    ensures |job.File()| >= 24 && job.File()[21] == job.Align()
  {
    FileParts(job);
    HeaderReads(job.total, job.bs, job.Align(), job.Indexes(|job.blocks| + 1) + job.Body(|job.blocks|));
  }

  /** The end of the file can be said in 31 bits. */
  ghost predicate EndInRange(job: Job) {
    ShiftDown(job.End(|job.blocks|), job.Align()) < PLAIN
  }

  lemma LastIndex(job: Job)
    requires EndInRange(job)
    ensures job.Index(|job.blocks|) == ShiftDown(job.End(|job.blocks|), job.Align()) < 0x8000_0000
  {
  }

  lemma Unflagged(file: Bytes, k: nat)
    requires 24 + 4 * k + 4 <= |file| && EntryOf(file, k) < 0x8000_0000
    ensures Offset(file, k) == EntryOf(file, k)
  {
  }

  lemma LastEntryIs(job: Job)
    requires job.HeaderFits() && EndInRange(job)
    ensures |job.File()| == job.End(|job.blocks|) >= 24 + 4 * |job.blocks| + 4 && job.File()[21] == job.Align()
    ensures EntryOf(job.File(), |job.blocks|) == Offset(job.File(), |job.blocks|)
    ensures Offset(job.File(), |job.blocks|) == ShiftDown(job.End(|job.blocks|), job.Align())
  {
    LastIndex(job);
    EntryIs(job, |job.blocks|);
    AlignByte(job);
    FileParts(job);
    Unflagged(job.File(), |job.blocks|);
  }

  /** The last entry is the length of the file, rounded down to the alignment. */
  lemma LastEntryIsLength(job: Job)
    requires job.HeaderFits() && EndInRange(job)
    ensures var file, n := job.File(), |job.blocks|;
            && 24 + 4 * n + 4 <= |file| && EntryOf(file, n) == Offset(file, n)
            && ShiftUp(Offset(file, n), file[21]) <= |file| < ShiftUp(Offset(file, n), file[21]) + Pow2(file[21])
            && (file[21] == 0 ==> EntryOf(file, n) == |file|)
  {
    LastEntryIs(job);
    ShiftRoundsDown(job.End(|job.blocks|), job.Align());
  }

  /** Every other entry is where its block is, with the flag of a plain one. */
  lemma EntryIsBlock(job: Job, k: nat)
    requires job.HeaderFits() && k < |job.blocks| && InRange(job, k)
    ensures var file := job.File();
            && 24 + 4 * k + 4 <= |file| && ShiftUp(Offset(file, k), file[21]) == job.Start(k)
            && (EntryOf(file, k) >= 0x8000_0000 <==> job.IsPlain(k))
            && At(file, job.Start(k), job.Stored(k))
  {
    EntryIsPositionIff(job, k);
    EntryIs(job, k);
    AlignByte(job);
    FileEndsWithBody(job);
    StoredInFile(job.File(), job, k);
    FlagIsTopBit(job.Index(k));
  }

  lemma FlagIsTopBit(v: nat)
    requires v < TWO32
    ensures IsFlagged(v) <==> v >= 0x8000_0000
  {
  }

  /** The length of block k by the entries: this one's and the next one's. */
  function SizeByEntries(file: Bytes, k: nat): int
    requires 24 + 4 * (k + 1) + 4 <= |file|
  {
    ShiftUp(Offset(file, k + 1) - Offset(file, k), file[21])
  }

  lemma SizeIs(file: Bytes, k: nat)
    requires 24 + 4 * (k + 1) + 4 <= |file|
    ensures SizeByEntries(file, k) == ShiftUp(Offset(file, k + 1), file[21]) - ShiftUp(Offset(file, k), file[21])
  {
    ShiftUpGap(Offset(file, k), Offset(file, k + 1), file[21]);
  }

  /** A block in front of another one is covered, padding included. */
  lemma InnerSizeCovers(job: Job, k: nat)
    requires job.HeaderFits() && k + 1 < |job.blocks| && InRange(job, k) && InRange(job, k + 1)
    ensures 24 + 4 * (k + 1) + 4 <= |job.File()|
    ensures SizeByEntries(job.File(), k) == job.Start(k + 1) - job.Start(k) >= |job.Stored(k)|
  {
    EntryIsBlock(job, k);
    EntryIsBlock(job, k + 1);
    SizeIs(job.File(), k);
    NextStart(job, k);
  }

  lemma StoredEndsFile(job: Job)
    requires job.HeaderFits() && job.blocks != []
    ensures job.Start(|job.blocks| - 1) + |job.Stored(|job.blocks| - 1)| == |job.File()|
  {
    EndGrows(job, |job.blocks| - 1, |job.blocks|);
    FileParts(job);
  }

  /** The last one is covered exactly when the file ends at an aligned position, as it does without alignment. */
  lemma LastSizeCoversIff(job: Job)
    requires job.HeaderFits() && job.blocks != [] && InRange(job, |job.blocks| - 1) && EndInRange(job)
    ensures 24 + 4 * |job.blocks| + 4 <= |job.File()|
    ensures SizeByEntries(job.File(), |job.blocks| - 1) >= |job.Stored(|job.blocks| - 1)| <==>
            ShiftUp(Offset(job.File(), |job.blocks|), job.File()[21]) == |job.File()|
    ensures job.File()[21] == 0 ==> SizeByEntries(job.File(), |job.blocks| - 1) == |job.Stored(|job.blocks| - 1)|
  {
    EntryIsBlock(job, |job.blocks| - 1);
    LastEntryIsLength(job);
    SizeIs(job.File(), |job.blocks| - 1);
    StoredEndsFile(job);
  }

  // ----- the whole file of an image -------------------------------------------------------------

  /** The header, byte by byte: the magic number, its own length, the length of the image, the block size, the
      version and the alignment. */
  lemma HeaderIs(job: Job)
    requires job.HeaderFits()
    ensures var file := job.File();
            && |file| >= 24
            && file[0..4] == [0x5a, 0x49, 0x53, 0x4f] && file[4..8] == [24, 0, 0, 0]
            && UnLe(file[8..16]) == job.total && UnLe(file[16..20]) == job.bs
            && file[20] == 1 && file[21] == job.total / 0x8000_0000
  {
    FileParts(job);
    HeaderReads(job.total, job.bs, job.Align(), job.Indexes(|job.blocks| + 1) + job.Body(|job.blocks|));
    KnownWords();
    Limits();
    UnLeOfLe(job.total, 8);
    UnLeOfLe(job.bs, 4);
  }

  lemma KnownWords()
    ensures Le(MAGIC, 4) == [0x5a, 0x49, 0x53, 0x4f] && Le(HEADER_SIZE, 4) == [24, 0, 0, 0]
  {
    LeStep(0x4f, 0);
    LeStep(0x4f53, 1);
    LeStep(0x4f5349, 2);
    LeStep(MAGIC, 3);
    LeStep(0, 0);
    LeStep(0, 1);
    LeStep(0, 2);
    LeStep(HEADER_SIZE, 3);
  }

  lemma LeStep(n: nat, width: nat)
    ensures Le(n, width + 1) == [n % 256] + Le(n / 256, width)
    ensures Le(n, 0) == []
  {
  }

  lemma {:induction false} BlockAt(image: Bytes, bs: nat, k: nat)
    requires bs > 0 && k < |BlocksOf(image, bs)|
    ensures k * bs + bs <= |image| && BlocksOf(image, bs)[k] == image[k * bs..k * bs + bs]
    decreases k
  {
    if k > 0 {
      BlockAt(image[bs..], bs, k - 1);
      var at := (k - 1) * bs;
      assert k * bs == at + bs;
      assert image[bs..][at..at + bs] == image[at + bs..at + bs + bs];
    }
  }

  /** Block k of an image in its file: it is flagged and stored as it is when its encoding has at least the
      given percentage of the block size, and encoded otherwise; its entry is where it is. */
  lemma ImageBlockIs(image: Bytes, bs: nat, codec: Codec, threshold: int, pad: Byte, k: nat)
    requires bs > 0
    requires var job := JobOf(image, bs, codec, threshold, pad);
             job.HeaderFits() && k < |job.blocks| && InRange(job, k)
    ensures k * bs + bs <= |image|
    ensures var file := JobOf(image, bs, codec, threshold, pad).File();
            var block := image[k * bs..k * bs + bs];
            && 24 + 4 * k + 4 <= |file|
            && (EntryOf(file, k) >= 0x8000_0000 <==> 100 * |codec.encode(block)| >= threshold * bs)
            && At(file, ShiftUp(Offset(file, k), file[21]),
                  if EntryOf(file, k) >= 0x8000_0000 then block else codec.encode(block))
  {
    BlockAt(image, bs, k);
    EntryIsBlock(JobOf(image, bs, codec, threshold, pad), k);
  }

  // ----- what is read at all --------------------------------------------------------------------

  /** A file is read exactly when its header has the magic number, the length 24, a block size and a length
      other than 0 and a version up to 1 as a signed byte, and when its index is whole; otherwise the reader
      says which of them failed. */
  lemma ReadIff(c: Container)
    ensures |c.file| < 24 ==> !c.Readable() && c.Decompressed() == Err(PackError)
    ensures |c.file| >= 24 ==>
              var total, bs := UnLe(c.file[8..16]), UnLe(c.file[16..20]);
              var good := UnLe(c.file[0..4]) == 0x4f53_495a && UnLe(c.file[4..8]) == 24 && total > 0 && bs > 0
                          && (c.file[20] <= 1 || c.file[20] >= 128);
              && (!good ==> c.Decompressed() == Err(FormatError))
              && (good && |c.file| < 28 + 4 * (total / bs) ==> c.Decompressed() == Err(PackError))
              && (c.Readable() <==> good && |c.file| >= 28 + 4 * (total / bs))
  {
    if |c.file| >= 24 && UnLe(c.file[16..20]) > 0 {
      QuotientIsFloor(UnLe(c.file[8..16]), UnLe(c.file[16..20]));
    }
  }

  /** Any block of a file whose alignment is 128 or more, a negative one for the reader, is refused. */
  lemma {:induction false} NegativeAlignmentIsRefused(c: Container, k: nat)
    requires c.Readable() && c.file[21] >= 128 && k <= c.Count()
    ensures c.RestoredTo(k) == if k == 0 then Ok([]) else Err(PackError)
    ensures c.Count() > 0 && k == c.Count() ==> c.Decompressed() == Err(PackError)
  {
    if k > 0 { NegativeAlignmentIsRefused(c, k - 1); }
  }

  /** What is written at all: the numbers of the header and every entry fit their fields, and no entry of a packed
      block looks flagged. */
  lemma WrittenIff(job: Job)
    ensures job.Compressed().Ok? <==>
            && job.total / 0x8000_0000 < 128 && job.bs < 0x1_0000_0000
            && (forall i :: 0 <= i < |job.blocks| && 100 * |job.codec.encode(job.blocks[i])| < job.limit ==>
                  job.Index(i) / 0x8000_0000 % 2 == 0)
            && (forall i :: 0 <= i <= |job.blocks| ==> job.Index(i) < 0x1_0000_0000)
    ensures job.Compressed().Ok? ==> job.Compressed().value == job.File()
  {
    assert forall i :: 0 <= i < |job.blocks| ==>
             (job.Misaligned(i) <==> 100 * |job.codec.encode(job.blocks[i])| < job.limit && job.Index(i) / 0x8000_0000 % 2 == 1);
  }
}
