/**
 * What a compound file holds once its tables are loaded: the bytes behind each
 * sector of a regular stream (through the FAT) and of a short stream (through
 * the mini FAT and the mini stream).
 */
module OleImage {
  import opened Bytes
  import opened SectorChain

  /** The bytes of a regular sector, and of a short one. */
  const SECTOR: nat := 512
  const SHORT_SECTOR: nat := 64

  /** The file and the tables a stream reads through; mini is None until both short-stream tables exist. */
  datatype Image = Image(file: seq<byte>, fat: seq<dword>, miniFat: seq<dword>, mini: Option<seq<byte>>)

  /** Where a sector starts in the file, in the 32-bit arithmetic of the source. */
  function SectorPos(sid: dword): (pos: nat)
    ensures pos < 0x1_0000_0000
  {
    (512 + sid * 512) % 0x1_0000_0000
  }

  /** The position is the true one exactly below sector 2^23 - 1; from there on it wraps around. */
  lemma PositionExactly(sid: dword)
    ensures SectorPos(sid) == 512 + 512 * sid <==> sid < 0x7F_FFFF
  {
  }

  /** No sector of a chain wraps around: the tables that load are too small for that. */
  lemma ChainPositions(table: seq<dword>, start: dword, chain: seq<dword>, i: nat)
    requires IsChain(table, start, chain) && |table| <= 0x40_0000 && i < |chain|
    ensures SectorPos(chain[i]) == 512 + 512 * (chain[i] as int)
  {
    hide SectorPos;
    ChainIsDistinct(table, start, chain);
    PositionExactly(chain[i]);
  }

  /** The 512 bytes of a sector of the file, unless they run past its end. */
  function FileSector(file: seq<byte>, sid: dword): (r: Option<seq<byte>>)
    ensures r.Some? ==> |r.value| == SECTOR
  {
    var at := SectorPos(sid);
    if at + SECTOR > |file| then None else Some(file[at..at + SECTOR])
  }

  /** The table that links the sectors of a stream. */
  function Table(img: Image, short: bool): seq<dword> {
    if short then img.miniFat else img.fat
  }

  function BlockSize(short: bool): (n: nat)
    ensures n == SHORT_SECTOR || n == SECTOR
  {
    if short then SHORT_SECTOR else SECTOR
  }

  /** The bytes of one sector of a stream, when they can be had. */
  function Content(img: Image, short: bool, sid: dword): (r: Option<seq<byte>>)
    ensures r.Some? ==> |r.value| == BlockSize(short)
  {
    if short then
      if img.mini.None? || sid * SHORT_SECTOR + SHORT_SECTOR > |img.mini.value| then None
      else Some(img.mini.value[sid * SHORT_SECTOR..sid * SHORT_SECTOR + SHORT_SECTOR])
    else if sid >= 0x8000_0000 then None
    else FileSector(img.file, sid)
  }

  /** A block of a stream that cannot be had is None. */
  type Block = Option<seq<byte>>

  /** The blocks of a chain, in order. */
  function ChainBlocks(img: Image, short: bool, chain: seq<dword>): (blocks: seq<Block>)
    ensures AreBlocks(img, short, chain, blocks)
  {
    var blocks := seq(|chain|, i requires 0 <= i < |chain| => Content(img, short, chain[i]));
    assert forall i | 0 <= i < |chain| :: IsBlock(img, short, chain[i], blocks[i]);
    blocks
  }

  predicate IsBlock(img: Image, short: bool, sid: dword, block: Block) {
    block == Content(img, short, sid)
  }

  /** blocks are the blocks of the chain. */
  ghost predicate AreBlocks(img: Image, short: bool, chain: seq<dword>, blocks: seq<Block>) {
    && |blocks| == |chain|
    && forall i {:trigger IsBlock(img, short, chain[i], blocks[i])} | 0 <= i < |chain| ::
         IsBlock(img, short, chain[i], blocks[i])
  }

  /** A regular stream can be read to its end exactly when all of its sectors lie inside the file. */
  lemma ReadableInsideFile(img: Image, chain: seq<dword>, blocks: seq<Block>)
    requires AreBlocks(img, false, chain, blocks)
    ensures RunsToEnd(blocks, 0) <==>
            forall i | 0 <= i < |chain| :: chain[i] < 0x8000_0000 && SectorPos(chain[i]) + SECTOR <= |img.file|
  {
    forall i | 0 <= i < |chain|
      ensures blocks[i].Some? <==> chain[i] < 0x8000_0000 && SectorPos(chain[i]) + SECTOR <= |img.file|
    {
      assert IsBlock(img, false, chain[i], blocks[i]);
    }
  }

  /** The blocks of a regular chain of a file. */
  function FileBlocks(file: seq<byte>, chain: seq<dword>): seq<Block> {
    ChainBlocks(Image(file, [], [], None), false, chain)
  }

  lemma BlocksOfFile(img: Image, chain: seq<dword>, blocks: seq<Block>)
    requires AreBlocks(img, false, chain, blocks)
    ensures blocks == FileBlocks(img.file, chain)
  {
    var other := FileBlocks(img.file, chain);
    forall i | 0 <= i < |chain|
      ensures blocks[i] == other[i]
    {
      assert IsBlock(img, false, chain[i], blocks[i]);
      assert IsBlock(Image(img.file, [], [], None), false, chain[i], other[i]);
    }
  }

  lemma BlocksUniform(img: Image, short: bool, chain: seq<dword>, blocks: seq<Block>)
    requires AreBlocks(img, short, chain, blocks)
    ensures Uniform(blocks, short)
  {
    forall i | 0 <= i < |chain|
      ensures blocks[i] == Content(img, short, chain[i])
    {
      assert IsBlock(img, short, chain[i], blocks[i]);
    }
  }

  /** The bytes from the i-th block on, up to the end or to the first block that cannot be had. */
  ghost function Run(blocks: seq<Block>, i: nat): (data: seq<byte>)
    decreases |blocks| - i
  {
    if i >= |blocks| || blocks[i].None? then []
    else blocks[i].value + Run(blocks, i + 1)
  }

  /** Every block from the i-th on can be had. */
  ghost predicate RunsToEnd(blocks: seq<Block>, i: nat) {
    forall j | i <= j < |blocks| :: blocks[j].Some?
  }

  /** The bytes left at block i when pos of them are consumed, one after the other. */
  ghost function RestAt(blocks: seq<Block>, i: nat, pos: nat): (rest: seq<byte>)
    decreases pos
  {
    if pos == 0 then Run(blocks, i)
    else if RestAt(blocks, i, pos - 1) == [] then []
    else RestAt(blocks, i, pos - 1)[1..]
  }

  lemma {:induction false} RestIsTail(blocks: seq<Block>, i: nat, pos: nat)
    requires pos <= |Run(blocks, i)|
    ensures RestAt(blocks, i, pos) == Run(blocks, i)[pos..]
  {
    if pos > 0 {
      RestIsTail(blocks, i, pos - 1);
    }
  }

  lemma RunOfLast(blocks: seq<Block>, block: seq<byte>)
    ensures Run(blocks + [Some(block)], |blocks|) == block
  {
    assert Run(blocks + [Some(block)], |blocks| + 1) == [];
  }

  /** Inside a block the rest starts with the bytes of the block. */
  lemma RestInBlock(blocks: seq<Block>, i: nat, pos: nat, n: nat)
    requires i < |blocks| && blocks[i].Some? && pos + n <= |blocks[i].value|
    ensures n <= |RestAt(blocks, i, pos)|
    ensures RestAt(blocks, i, pos)[..n] == blocks[i].value[pos..pos + n]
    ensures RestAt(blocks, i, pos)[n..] == RestAt(blocks, i, pos + n)
    ensures |RestAt(blocks, i, pos)| == |blocks[i].value| - pos + |Run(blocks, i + 1)|
  {
    RestIsTail(blocks, i, pos);
    RestIsTail(blocks, i, pos + n);
  }

  /** At the end of a block the rest is that of the next block. */
  lemma RestNextBlock(blocks: seq<Block>, i: nat)
    requires i < |blocks| && blocks[i].Some?
    ensures RestAt(blocks, i, |blocks[i].value|) == RestAt(blocks, i + 1, 0) == Run(blocks, i + 1)
    ensures i + 1 == |blocks| || blocks[i + 1].None? ==> Run(blocks, i + 1) == []
    ensures RunsToEnd(blocks, i) <==> RunsToEnd(blocks, i + 1)
    ensures i + 1 == |blocks| ==> RunsToEnd(blocks, i)
  {
    RestIsTail(blocks, i, |blocks[i].value|);
  }

  /** i blocks, in bytes. */
  function BytesIn(short: bool, i: int): int {
    if short then i * 64 else i * 512
  }

  /** The number of the block that holds byte k, and the place of k in it. */
  function BlockOf(short: bool, k: nat): nat {
    if short then k / 64 else k / 512
  }

  function PlaceIn(short: bool, k: nat): nat {
    if short then k % 64 else k % 512
  }

  ghost predicate Uniform(blocks: seq<Block>, short: bool) {
    forall i | 0 <= i < |blocks| && blocks[i].Some? :: |blocks[i].value| == BlockSize(short)
  }

  /** The stream is the concatenation of its sectors: what is left at block i is the tail of the whole. */
  lemma {:induction false} RunIsSuffix(blocks: seq<Block>, short: bool, i: nat)
    requires Uniform(blocks, short) && i <= |blocks| && RunsToEnd(blocks, 0)
    ensures |Run(blocks, 0)| == BytesIn(short, |blocks|)
    ensures 0 <= BytesIn(short, i) <= BytesIn(short, |blocks|)
    ensures Run(blocks, i) == Run(blocks, 0)[BytesIn(short, i)..]
  {
    RunLength(blocks, short, 0);
    if i > 0 {
      RunIsSuffix(blocks, short, i - 1);
      RunLength(blocks, short, i - 1);
    }
  }

  lemma {:induction false} RunLength(blocks: seq<Block>, short: bool, i: nat)
    requires Uniform(blocks, short) && i <= |blocks| && RunsToEnd(blocks, i)
    ensures |Run(blocks, i)| == BytesIn(short, |blocks| - i)
    decreases |blocks| - i
  {
    if i < |blocks| {
      RunLength(blocks, short, i + 1);
    }
  }

  /** A run is a number of whole blocks, even when it breaks off. */
  lemma {:induction false} RunIsBlocks(blocks: seq<Block>, i: nat)
    requires Uniform(blocks, false) && i <= |blocks|
    ensures |Run(blocks, i)| % SECTOR == 0
    ensures i < |blocks| && blocks[i].Some? ==> |Run(blocks, i)| >= SECTOR
    decreases |blocks| - i
  {
    if i < |blocks| && blocks[i].Some? {
      RunIsBlocks(blocks, i + 1);
    }
  }

  /** Byte k of a stream lies in block k / 512 (or k / 64) at place k % 512 (or k % 64). */
  lemma {:induction false} RunByte(blocks: seq<Block>, short: bool, i: nat, k: nat)
    requires Uniform(blocks, short) && k < |Run(blocks, i)|
    ensures i + BlockOf(short, k) < |blocks| && blocks[i + BlockOf(short, k)].Some?
    ensures PlaceIn(short, k) < BlockSize(short)
    ensures Run(blocks, i)[k] == blocks[i + BlockOf(short, k)].value[PlaceIn(short, k)]
    decreases |blocks| - i
  {
    var b := BlockSize(short);
    if k >= b {
      RunByte(blocks, short, i + 1, k - b);
    }
  }

  /** The sectors named by the FAT from sid on, n of them, read one after the other with the loader's checks. */
  function FatSectors(file: seq<byte>, fat: seq<dword>, sid: dword, n: nat): (r: Option<seq<byte>>)
    ensures r.Some? ==> |r.value| == 512 * n
    decreases n
  {
    if n == 0 then Some([])
    else if sid == END_OF_CHAIN || FileSector(file, sid).None? || !ValidSector(fat, sid) then None
    else
      match FatSectors(file, fat, fat[sid], n - 1)
      case None => None
      case Some(rest) => Some(FileSector(file, sid).value + rest)
  }

  /** The sector is in the FAT and does not point to itself. */
  predicate ValidSector(fat: seq<dword>, sid: dword) {
    sid < |fat| && fat[sid] != sid
  }

  /** The k-th sector after sid in the FAT. */
  function FatStep(fat: seq<dword>, sid: dword, k: nat): (s: Option<dword>)
    decreases k
  {
    if k == 0 then Some(sid)
    else if sid < |fat| then FatStep(fat, fat[sid], k - 1)
    else None
  }

  /** Byte x of sectors read through the FAT lies in the sector x / 512 steps along the chain. */
  lemma {:induction false} FatSectorsByte(file: seq<byte>, fat: seq<dword>, sid: dword, n: nat, x: nat)
    requires FatSectors(file, fat, sid, n).Some? && x < 512 * n
    ensures FatStep(fat, sid, x / 512).Some?
    ensures var s := FatStep(fat, sid, x / 512).value;
            SectorPos(s) + 512 <= |file| && FatSectors(file, fat, sid, n).value[x] == file[SectorPos(s) + x % 512]
    decreases n
  {
    if x >= 512 {
      FatSectorsByte(file, fat, fat[sid], n - 1, x - 512);
      assert x / 512 == (x - 512) / 512 + 1 && x % 512 == (x - 512) % 512;
    }
  }

  /** Where a byte of a short sector is in the mini stream. */
  lemma ShortSectorByte(img: Image, sid: dword, p: nat)
    requires Content(img, true, sid).Some? && p < SHORT_SECTOR
    ensures img.mini.Some? && sid * 64 + p < |img.mini.value|
    ensures Content(img, true, sid).value[p] == img.mini.value[sid * 64 + p]
  {
  }

  /**
   * The double indirection of short streams. When the mini stream was read from the root entry's
   * chain, byte j of a short stream from its block i on is the file byte found by mapping j through the
   * mini-FAT chain and the result through the root's FAT chain.
   */
  lemma ShortStreamByte(img: Image, chain: seq<dword>, blocks: seq<Block>, rootStart: dword, n: nat, i: nat, j: nat)
    requires AreBlocks(img, true, chain, blocks)
    requires img.mini.Some? && FatSectors(img.file, img.fat, rootStart, n) == img.mini
    requires j < |Run(blocks, i)|
    ensures i + j / 64 < |chain|
    ensures var x := chain[i + j / 64] * 64 + j % 64;
            var s := FatStep(img.fat, rootStart, x / 512);
            && s.Some? && SectorPos(s.value) + 512 <= |img.file|
            && Run(blocks, i)[j] == img.file[SectorPos(s.value) + x % 512]
  {
    hide Run, FatSectors, FatStep, Content, Uniform, SectorPos;
    BlocksUniform(img, true, chain, blocks);
    RunByte(blocks, true, i, j);
    var sid := chain[i + j / 64];
    assert IsBlock(img, true, sid, blocks[i + j / 64]);
    ShortSectorByte(img, sid, j % 64);
    FatSectorsByte(img.file, img.fat, rootStart, n, sid * 64 + j % 64);
  }
}
