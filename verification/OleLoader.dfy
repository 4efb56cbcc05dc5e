/**
 * Opening a compound file: the header, the tables, the directory and the mini
 * stream.
 */
module OleLoader {
  import opened Bytes
  import opened SectorChain
  import opened OleImage
  import opened OleFiles
  import opened OleStreams
  import opened OleFat

  /** The largest block the source will allocate. */
  const ALLOC_LIMIT: nat := 0x100_0000

  // ---------------------------------------------------------------------------
  // Tables read through the FAT
  // ---------------------------------------------------------------------------

  /** One more sector along the FAT: either all n sectors can be had with it or none of the lists exists. */
  lemma {:induction false} FatSectorsLast(file: seq<byte>, fat: seq<dword>, sid: dword, n: nat)
    ensures FatSectors(file, fat, sid, n).Some? ==> FatStep(fat, sid, n).Some?
    ensures FatSectors(file, fat, sid, n + 1) ==
            match FatSectors(file, fat, sid, n)
            case None => None
            case Some(front) =>
              var last := FatStep(fat, sid, n).value;
              if last == END_OF_CHAIN || FileSector(file, last).None? || !ValidSector(fat, last) then None
              else Some(front + FileSector(file, last).value)
    decreases n
  {
    if n == 0 {
      assert FatSectors(file, fat, sid, 0) == Some([]);
      if FatSectors(file, fat, sid, 1).Some? {
        assert FatSectors(file, fat, fat[sid], 0) == Some([]);
        assert [] + FileSector(file, sid).value == FileSector(file, sid).value + [] == FileSector(file, sid).value;
      }
    } else if sid == END_OF_CHAIN || FileSector(file, sid).None? || !ValidSector(fat, sid) {
    } else {
      FatSectorsLast(file, fat, fat[sid], n - 1);
      if FatSectors(file, fat, sid, n + 1).Some? {
        var last := FatStep(fat, sid, n).value;
        var front := FatSectors(file, fat, fat[sid], n - 1).value;
        assert FileSector(file, sid).value + (front + FileSector(file, last).value)
            == (FileSector(file, sid).value + front) + FileSector(file, last).value;
      }
    }
  }

  lemma FatSectorsFail(file: seq<byte>, fat: seq<dword>, sid: dword, n: nat, m: nat)
    requires n <= m && FatSectors(file, fat, sid, n).None?
    ensures FatSectors(file, fat, sid, m).None?
    decreases m
  {
    if n < m {
      FatSectorsFail(file, fat, sid, n, m - 1);
      FatSectorsLast(file, fat, sid, m - 1);
    }
  }

  /** Fills a buffer with n sectors along the FAT: the loop behind both the mini FAT and the mini stream. */
  method ReadAlongFat(ole: OleFile, start: dword, n: nat, dst: array<byte>) returns (ok: bool)
    requires dst.Length == 512 * n
    modifies ole`bufferPos, dst
    ensures ok <==> FatSectors(ole.buffer, ole.secID, start, n).Some?
    ensures ok ==> dst[..] == FatSectors(ole.buffer, ole.secID, start, n).value
  {
    ghost var file, fat := ole.buffer, ole.secID;
    var sector := start;
    for k := 0 to n
      invariant FatSectors(file, fat, start, k) == Some(dst[..512 * k])
      invariant FatStep(fat, start, k) == Some(sector)
    {
      FatSectorsLast(file, fat, start, k);
      if sector == END_OF_CHAIN {
        FatSectorsFail(file, fat, start, k + 1, n);
        return false;
      }
      var bytes := ole.SectorRead(dst.Length - 512 * k, sector);
      if bytes.None? || !ValidSector(ole.secID, sector) {
        FatSectorsFail(file, fat, start, k + 1, n);
        return false;
      }
      WriteSector(dst, 512 * k, bytes.value);
      StepAgain(fat, start, k);
      sector := ole.secID[sector];
    }
    assert dst[..512 * n] == dst[..];
    return true;
  }

  method WriteSector(dst: array<byte>, at: nat, bytes: seq<byte>)
    requires at + |bytes| <= dst.Length
    modifies dst
    ensures dst[..at + |bytes|] == old(dst[..at]) + bytes
    ensures dst[at + |bytes|..] == old(dst[at + |bytes|..])
  {
    forall i | 0 <= i < |bytes| {
      dst[at + i] := bytes[i];
    }
  }

  lemma {:induction false} StepAgain(fat: seq<dword>, sid: dword, k: nat)
    requires FatStep(fat, sid, k).Some? && FatStep(fat, sid, k).value < |fat|
    ensures FatStep(fat, sid, k + 1) == Some(fat[FatStep(fat, sid, k).value])
    decreases k
  {
    if k > 0 {
      StepAgain(fat, fat[sid], k - 1);
    } else {
      assert FatStep(fat, fat[sid], 0) == Some(fat[sid]);
    }
  }

  /** Loads the mini FAT, if the file has one. */
  method ReadMsatTrailer(ole: OleFile) returns (ok: bool)
    modifies ole`bufferPos, ole`sSecID
    ensures var n := ole.csfat;
            && (ole.sfatstart == END_OF_CHAIN ==> ok && ole.sSecID == old(ole.sSecID))
            && (ole.sfatstart != END_OF_CHAIN ==>
                  var data := FatSectors(ole.buffer, ole.secID, ole.sfatstart, n);
                  && (ok <==> 0 < 512 * n <= ALLOC_LIMIT && data.Some?)
                  && ole.sSecID == if ok then Some(LeDwords(data.value, 0, 128 * n)) else None)
  {
    if ole.sfatstart == END_OF_CHAIN {
      return true;
    }
    ole.sSecID := None;
    if 512 * ole.csfat > ALLOC_LIMIT || ole.csfat == 0 {
      return false;
    }
    var dst := new byte[512 * ole.csfat];
    ok := ReadAlongFat(ole, ole.sfatstart, ole.csfat, dst);
    if ok {
      ole.sSecID := Some(LeDwords(dst[..], 0, 128 * ole.csfat));
    }
  }

  /** The number of 512-byte blocks of the mini stream, in the 32-bit arithmetic of the source. */
  function MiniBlocks(size: dword): (n: nat)
    ensures size <= 0xFFFF_FE00 ==> 512 * n - 512 < size <= 512 * n
  {
    ((size + 511) % 0x1_0000_0000) / 512
  }

  /** The mini stream of a root entry. */
  function MiniStream(file: seq<byte>, fat: seq<dword>, start: dword, size: dword): Option<seq<byte>> {
    if 0 < 512 * MiniBlocks(size) <= ALLOC_LIMIT then FatSectors(file, fat, start, MiniBlocks(size)) else None
  }

  /** Loads the mini stream that a root entry describes. */
  method ReadMiniStream(ole: OleFile, start: dword, size: dword) returns (ok: bool)
    modifies ole`bufferPos, ole`ssat
    ensures ole.ssat == MiniStream(ole.buffer, ole.secID, start, size)
    ensures ok <==> ole.ssat.Some?
  {
    var blocks := MiniBlocks(size);
    ole.ssat := None;
    if 512 * blocks > ALLOC_LIMIT || blocks == 0 {
      return false;
    }
    var dst := new byte[512 * blocks];
    ok := ReadAlongFat(ole, start, blocks, dst);
    if ok {
      ole.ssat := Some(dst[..]);
    }
  }

  // ---------------------------------------------------------------------------
  // The FAT as a whole
  // ---------------------------------------------------------------------------

  /** The entries of the FAT table, counted in the 32-bit arithmetic of the source. */
  function FatLength(cfat: dword): (n: nat)
    ensures n % 128 == 0
    ensures cfat <= 0x7F_FFFF ==> n == 128 * cfat
  {
    ((cfat * 512) % 0x1_0000_0000) / 4
  }

  /** Where reading the DIFAT starts: behind the FAT sectors that the header names. */
  function DifatStart(cfat: dword, difstart: dword): Option<DifatState> {
    var n, limit := Min(cfat, HEADER_ENTRIES), Limit(cfat, FatLength(cfat));
    if n <= limit then Some(DifatState(difstart, limit - n)) else None
  }

  /** The FAT sectors of a file in order: those the header names, then those the DIFAT names. */
  function FatList(file: seq<byte>, cfat: dword, msat: seq<dword>, difstart: dword, steps: nat): (r: Option<seq<dword>>)
    requires |msat| == HEADER_ENTRIES
  {
    var head := msat[..Min(cfat, HEADER_ENTRIES)];
    var st := DifatStart(cfat, difstart);
    if cfat == 0 || cfat > 0x100_0000 || 4 * FatLength(cfat) > ALLOC_LIMIT then None
    else if st.None? || Assembled(file, head).None? then None
    else
      var scan := DifatScan(file, st.value, steps);
      if scan.Ended? then Some(head + scan.list) else None
  }

  /** A file that loads lists no more FAT sectors than its header counts and its table holds. */
  lemma FatListFits(file: seq<byte>, cfat: dword, msat: seq<dword>, difstart: dword, steps: nat)
    requires |msat| == HEADER_ENTRIES
    requires FatList(file, cfat, msat, difstart, steps).Some?
    ensures var list := FatList(file, cfat, msat, difstart, steps).value;
            |list| <= cfat && 128 * |list| <= FatLength(cfat) <= 0x40_0000 && Assembled(file, list).Some?
  {
    var st := DifatStart(cfat, difstart).value;
    ScanFits(file, st, steps);
    AssembledAppend(file, msat[..Min(cfat, HEADER_ENTRIES)], DifatScan(file, st, steps).list);
  }

  /** What the mini FAT loader needs of the header. */
  predicate MiniFatLoads(file: seq<byte>, fat: seq<dword>, sfatstart: dword, csfat: dword) {
    sfatstart == END_OF_CHAIN || (0 < 512 * csfat <= ALLOC_LIMIT && FatSectors(file, fat, sfatstart, csfat).Some?)
  }

  /**
   * Builds the FAT and the mini FAT. The part of the table that the list covers is the listed sectors
   * one after the other; what the source leaves uninitialised behind it is arbitrary here.
   */
  method ReadMsat(ole: OleFile, msat: seq<dword>, ghost steps: nat) returns (ok: bool)
    requires |msat| == HEADER_ENTRIES
    requires DifatStart(ole.cfat, ole.difstart).Some? ==>
               DifatScan(ole.buffer, DifatStart(ole.cfat, ole.difstart).value, steps) != Running
    modifies ole`bufferPos, ole`secID, ole`sSecID
    ensures ok ==> FatList(ole.buffer, ole.cfat, msat, ole.difstart, steps).Some?
    ensures FatList(ole.buffer, ole.cfat, msat, ole.difstart, steps).Some? ==>
              var list := FatList(ole.buffer, ole.cfat, msat, ole.difstart, steps).value;
              && |ole.secID| == FatLength(ole.cfat) && 128 * |list| <= |ole.secID|
              && Assembled(ole.buffer, list) == Some(ole.secID[..128 * |list|])
              && (ok <==> MiniFatLoads(ole.buffer, ole.secID, ole.sfatstart, ole.csfat))
    ensures ok && ole.sfatstart == END_OF_CHAIN ==> ole.sSecID == old(ole.sSecID)
    ensures ok && ole.sfatstart != END_OF_CHAIN ==>
              var bytes := FatSectors(ole.buffer, ole.secID, ole.sfatstart, ole.csfat).value;
              ole.sSecID == Some(LeDwords(bytes, 0, 128 * ole.csfat))
  {
    hide Assembled, DifatScan, FatSectors;
    var count := ole.cfat;
    if count == 0 || count > 0x100_0000 {
      return false;
    }
    var length := FatLength(count);
    if 4 * length > ALLOC_LIMIT || length == 0 {
      return false;
    }
    var table := new dword[length];
    ghost var before := table[..];
    var bytes := ReadMsatHeader(ole, table, msat, count);
    if bytes == -1 {
      return false;
    }
    ghost var head := msat[..Min(count, HEADER_ENTRIES)];
    ok := ReadMsatBody(ole, table, bytes / 512, count, head, before, steps);
    if !ok {
      return false;
    }
    FatListFits(ole.buffer, count, msat, ole.difstart, steps);
    ole.secID := table[..];
    ok := ReadMsatTrailer(ole);
  }

  // ---------------------------------------------------------------------------
  // Directory
  // ---------------------------------------------------------------------------

  const ENTRY_SIZE: nat := 128
  const STREAM_ENTRY: nat := 2
  const ROOT_ENTRY: nat := 5

  /** The fields of a directory entry that the reader looks at. */
  datatype DirEntry = DirEntry(nameBytes: nat, kind: nat, start: dword, size: dword)

  function ParseEntry(e: seq<byte>): DirEntry
    requires |e| >= ENTRY_SIZE
  {
    DirEntry(LeWord(e, 64), e[66], LeDword(e, 116), LeDword(e, 120))
  }

  /** The directory entries in the bytes of the directory stream. */
  function ParseEntries(data: seq<byte>): (r: seq<DirEntry>)
    ensures |r| == |data| / ENTRY_SIZE
  {
    if |data| < ENTRY_SIZE then []
    else [ParseEntry(data[..ENTRY_SIZE])] + ParseEntries(data[ENTRY_SIZE..])
  }

  /** What a file offers after the directory is read: its streams and its mini stream. */
  datatype Listing = Listing(files: seq<FileEntry>, ssat: Option<seq<byte>>)

  /** Reading one entry; None when it makes opening the file fail. */
  function ListEntry(file: seq<byte>, fat: seq<dword>, l: Listing, e: DirEntry): Option<Listing> {
    if e.nameBytes > 64 then None
    else if e.kind != ROOT_ENTRY && e.kind != STREAM_ENTRY then Some(l)
    else
      var files := l.files + [FileEntry(e.start, e.size)];
      if e.start == END_OF_CHAIN || e.kind == STREAM_ENTRY then Some(Listing(files, l.ssat))
      else
        match MiniStream(file, fat, e.start, e.size)
        case None => None
        case Some(m) => Some(Listing(files, Some(m)))
  }

  /** Reading several entries, the first one first. */
  function ListEntries(file: seq<byte>, fat: seq<dword>, l: Listing, es: seq<DirEntry>): Option<Listing>
    decreases |es|
  {
    if es == [] then Some(l)
    else
      match ListEntry(file, fat, l, es[0])
      case None => None
      case Some(m) => ListEntries(file, fat, m, es[1..])
  }

  /** The entries that root and stream objects have, in directory order. */
  function Listed(es: seq<DirEntry>): seq<FileEntry> {
    if es == [] then []
    else
      (if es[0].kind == ROOT_ENTRY || es[0].kind == STREAM_ENTRY then [FileEntry(es[0].start, es[0].size)] else [])
      + Listed(es[1..])
  }

  /** The last root entry that has a chain. */
  function LastRoot(es: seq<DirEntry>): Option<DirEntry> {
    if es == [] then None
    else if LastRoot(es[1..]).Some? then LastRoot(es[1..])
    else if es[0].kind == ROOT_ENTRY && es[0].start != END_OF_CHAIN then Some(es[0])
    else None
  }

  /**
   * After a directory is read, the list of files is that of its root and stream entries, and the mini
   * stream is that of its last root entry with a chain, or what it was when there is none.
   */
  lemma {:induction false} ListingIs(file: seq<byte>, fat: seq<dword>, l: Listing, es: seq<DirEntry>)
    requires ListEntries(file, fat, l, es).Some?
    ensures var m := ListEntries(file, fat, l, es).value;
            && m.files == l.files + Listed(es)
            && (LastRoot(es).None? ==> m.ssat == l.ssat)
            && (LastRoot(es).Some? ==>
                  m.ssat.Some? && m.ssat == MiniStream(file, fat, LastRoot(es).value.start, LastRoot(es).value.size))
    decreases |es|
  {
    if es != [] {
      ListingIs(file, fat, ListEntry(file, fat, l, es[0]).value, es[1..]);
    }
  }

  /** What loading has achieved so far. */
  function ListingOf(ole: OleFile): Listing
    reads ole`files, ole`ssat
  {
    Listing(ole.files, ole.ssat)
  }

  /** Handles the directory entry that was just read. */
  method ReadEntry(ole: OleFile, e: DirEntry) returns (ok: bool)
    modifies ole`bufferPos, ole`files, ole`ssat
    ensures ok <==> ListEntry(ole.buffer, ole.secID, old(ListingOf(ole)), e).Some?
    ensures ok ==> ListingOf(ole) == ListEntry(ole.buffer, ole.secID, old(ListingOf(ole)), e).value
  {
    if e.nameBytes > 64 {
      return false;
    }
    ok := true;
    if e.kind == ROOT_ENTRY || e.kind == STREAM_ENTRY {
      ole.files := ole.files + [FileEntry(e.start, e.size)];
      if e.start != END_OF_CHAIN && e.kind == ROOT_ENTRY {
        ok := ReadMiniStream(ole, e.start, e.size);
      }
    }
  }

  /** Reads the next entry of a directory stream; None when a sector of it cannot be had. */
  method NextEntry(s: OleStream, pss: array<byte>) returns (e: Option<DirEntry>)
    requires s.Positioned() && s.Attached() && !s.eof
    requires s.size == SIZE_T - 1 && !s.short && |s.Rest()| % ENTRY_SIZE == 0
    requires pss.Length == ENTRY_SIZE && pss != s.buf
    modifies s`fatpos, s`pos, s`cfat, s`eof, s.buf, pss, s.ole`bufferPos
    ensures e.None? ==> !old(s.Whole())
    ensures e.Some? ==> |old(s.Rest())| >= ENTRY_SIZE && e.value == ParseEntry(old(s.Rest())[..ENTRY_SIZE])
    ensures e.Some? ==> s.Positioned() && s.Rest() == old(s.Rest())[ENTRY_SIZE..] && s.Whole() == old(s.Whole())
    ensures e.Some? ==> (s.eof <==> s.Rest() == []) && (s.eof ==> s.Whole())
    ensures s.Attached()
  {
    hide ParseEntry;
    s.NothingLeft();
    ghost var v := s.Abs();
    var r := s.Read(pss, ENTRY_SIZE);
    if r == -1 {
      return None;
    }
    s.NothingLeft();
    assert pss[..] == v.rest[..ENTRY_SIZE];
    return Some(ParseEntry(pss[..]));
  }

  /** Handles all entries of a directory stream that was just opened. */
  method ReadEntries(ole: OleFile, s: OleStream) returns (ok: bool)
    requires s.ole == ole && s.Positioned() && s.Attached() && !s.eof && s.Offset() == 0
    requires s.size == SIZE_T - 1 && !s.short
    modifies s`fatpos, s`pos, s`cfat, s`eof, s.buf, ole`bufferPos, ole`files, ole`ssat
    ensures var listing := ListEntries(ole.buffer, ole.secID, old(ListingOf(ole)), ParseEntries(Run(s.blocks, 0)));
            && (ok <==> RunsToEnd(s.blocks, 0) && listing.Some?)
            && (ok ==> ListingOf(ole) == listing.value)
  {
    ghost var file, fat, whole := ole.buffer, ole.secID, RunsToEnd(s.blocks, 0);
    ghost var listing := ListEntries(file, fat, ListingOf(ole), ParseEntries(Run(s.blocks, 0)));
    DirectoryStart(s);
    var pss := new byte[ENTRY_SIZE];
    var more := true;
    while more
      invariant s.Positioned() && s.Attached() && (more <==> !s.eof)
      invariant |s.Rest()| % ENTRY_SIZE == 0 && s.Whole() == whole
      invariant !more ==> s.Rest() == [] && whole
      invariant ListEntries(file, fat, ListingOf(ole), ParseEntries(s.Rest())) == listing
      decreases |s.Rest()|, more
    {
      ghost var left := ParseEntries(s.Rest());
      var e := NextEntry(s, pss);
      if e.None? {
        return false;
      }
      assert left == [e.value] + ParseEntries(s.Rest());
      ok := ReadEntry(ole, e.value);
      if !ok {
        return false;
      }
      more := !s.eof;
    }
    return true;
  }

  lemma DirectoryStart(s: OleStream)
    requires s.Positioned() && !s.eof && s.Offset() == 0 && !s.short
    ensures s.Rest() == Run(s.blocks, 0) && s.Whole() == RunsToEnd(s.blocks, 0)
    ensures |Run(s.blocks, 0)| % ENTRY_SIZE == 0 && |Run(s.blocks, 0)| > 0
  {
    hide IsChain, Content;
    s.NothingLeft();
    BlocksUniform(s.img, false, s.chain, s.blocks);
    assert s.cfat == 0 && s.pos == 0;
    hide Uniform, AreBlocks;
    RunIsBlocks(s.blocks, 0);
  }

  /**
   * Reads the directory, which starts at a sector other than the end mark. It succeeds exactly when its
   * chain is accepted, all of its sectors can be read, and no entry makes it fail; dir is that chain.
   */
  method ReadBody(ole: OleFile) returns (ok: bool, ghost dir: seq<dword>)
    requires |ole.secID| <= 0x40_0000 && (ole.sSecID.Some? ==> |ole.sSecID.value| <= 0x40_0000)
    requires ole.dirstart != END_OF_CHAIN
    modifies ole`bufferPos, ole`files, ole`ssat
    ensures Accepted(ole.secID, ole.dirstart) ==> IsChain(ole.secID, ole.dirstart, dir)
    ensures var blocks := FileBlocks(ole.buffer, dir);
            var listing := ListEntries(ole.buffer, ole.secID, old(ListingOf(ole)), ParseEntries(Run(blocks, 0)));
            && (ok <==> Accepted(ole.secID, ole.dirstart) && RunsToEnd(blocks, 0) && listing.Some?)
            && (ok ==> ListingOf(ole) == listing.value)
  {
    dir := [];
    var s := OleStream.Open(ole, ole.dirstart, SIZE_T - 1);
    if s == null {
      if Accepted(ole.secID, ole.dirstart) {
        dir :| IsChain(ole.secID, ole.dirstart, dir);
        FirstBlock(ole.Img(), ole.dirstart, dir);
      }
      return false, dir;
    }
    dir := s.chain;
    BlocksOfFile(s.img, dir, s.blocks);
    ok := ReadEntries(ole, s);
  }

  /** A stream whose first sector cannot be had is not whole. */
  lemma FirstBlock(img: Image, start: dword, chain: seq<dword>)
    requires start != END_OF_CHAIN && IsChain(img.fat, start, chain)
    ensures RunsToEnd(FileBlocks(img.file, chain), 0) ==> Content(img, false, start).Some?
  {
    if chain != [] {
      WalkGoesOn(img.fat, start, chain, 0);
      var other := Image(img.file, [], [], None);
      assert IsBlock(other, false, chain[0], ChainBlocks(other, false, chain)[0]);
    }
  }

  // ---------------------------------------------------------------------------
  // Header
  // ---------------------------------------------------------------------------

  /** The header fields that the reader uses. */
  datatype Header = Header(cfat: dword, dirstart: dword, cutoff: dword, sfatstart: dword, csfat: dword,
                           difstart: dword, msat: seq<dword>)

  /** The header of a file; None when it is not one of a little-endian file with sectors of 512 and 64 bytes. */
  function ParseHeader(file: seq<byte>): (h: Option<Header>)
    ensures h.Some? ==> |h.value.msat| == HEADER_ENTRIES
  {
    if |file| < 512 then None
    else if LeDword(file, 0) != 0xE011_CFD0 || LeDword(file, 4) != 0xE11A_B1A1 || LeWord(file, 28) != 0xFFFE then None
    else if LeWord(file, 30) != 9 || LeWord(file, 32) != 6 then None
    else
      Some(Header(LeDword(file, 44), LeDword(file, 48), LeDword(file, 56), LeDword(file, 60), LeDword(file, 64),
                  LeDword(file, 68), LeDwords(file, 76, 109)))
  }

  /** The file has a header, and FAT sectors that can all be listed and read. */
  predicate TablesListed(file: seq<byte>, steps: nat) {
    var h := ParseHeader(file);
    h.Some? && FatList(file, h.value.cfat, h.value.msat, h.value.difstart, steps).Some?
  }

  /** fat starts with the listed sectors; behind them it is what was in memory before. */
  predicate FatFilled(file: seq<byte>, h: Header, steps: nat, fat: seq<dword>) {
    |h.msat| == HEADER_ENTRIES
    && var list := FatList(file, h.cfat, h.msat, h.difstart, steps);
    && list.Some? && |fat| == FatLength(h.cfat) <= 0x40_0000 && 128 * |list.value| <= |fat|
    && Assembled(file, list.value) == Some(fat[..128 * |list.value|])
  }

  /** When the listed sectors cover the table, the table is determined by the file. */
  lemma FullFatIsDetermined(file: seq<byte>, h: Header, steps: nat, fat: seq<dword>, other: seq<dword>)
    requires FatFilled(file, h, steps, fat) && FatFilled(file, h, steps, other)
    requires 128 * |FatList(file, h.cfat, h.msat, h.difstart, steps).value| == FatLength(h.cfat)
    ensures fat == other
  {
    hide FatList, Assembled;
    assert fat[..|fat|] == fat && other[..|other|] == other;
  }

  /** The mini FAT, when it loads. */
  function MiniFat(file: seq<byte>, fat: seq<dword>, start: dword, count: dword): (t: seq<dword>)
    requires FatSectors(file, fat, start, count).Some?
    ensures |t| == 128 * count
  {
    LeDwords(FatSectors(file, fat, start, count).value, 0, 128 * count)
  }

  /** Reads the header, then the tables that it describes. */
  method ReadHeader(ole: OleFile, ghost steps: nat) returns (ok: bool)
    requires ole.bufferPos == 0
    requires var h := ParseHeader(ole.buffer);
             h.Some? && DifatStart(h.value.cfat, h.value.difstart).Some? ==>
               DifatScan(ole.buffer, DifatStart(h.value.cfat, h.value.difstart).value, steps) != Running
    modifies ole`bufferPos, ole`cfat, ole`dirstart, ole`sectorCutoff, ole`sfatstart, ole`csfat, ole`difstart,
             ole`secID, ole`sSecID
    ensures ok ==> TablesListed(ole.buffer, steps)
    ensures TablesListed(ole.buffer, steps) ==>
              var h := ParseHeader(ole.buffer).value;
              && FatFilled(ole.buffer, h, steps, ole.secID)
              && (ok <==> MiniFatLoads(ole.buffer, ole.secID, h.sfatstart, h.csfat))
    ensures ok ==> var h := ParseHeader(ole.buffer).value;
              && ole.dirstart == h.dirstart && ole.sectorCutoff == h.cutoff
              && (h.sfatstart == END_OF_CHAIN ==> ole.sSecID == old(ole.sSecID))
              && (h.sfatstart != END_OF_CHAIN ==>
                    ole.sSecID == Some(MiniFat(ole.buffer, ole.secID, h.sfatstart, h.csfat)))
  {
    hide FatList, Assembled, FatSectors, DifatScan, ParseHeader;
    HeaderPrefix(ole.buffer);
    var head := ole.Fread(512, 512);
    if head.None? {
      return false;
    }
    assert head.value == ole.buffer[..512];
    var h := ParseHeader(head.value);
    if h.None? {
      return false;
    }
    ole.cfat := h.value.cfat;
    ole.dirstart := h.value.dirstart;
    ole.sectorCutoff := h.value.cutoff;
    ole.sfatstart := h.value.sfatstart;
    ole.csfat := h.value.csfat;
    ole.difstart := h.value.difstart;
    ok := ReadMsat(ole, h.value.msat, steps);
    if FatList(ole.buffer, ole.cfat, h.value.msat, ole.difstart, steps).Some? {
      FatListFits(ole.buffer, ole.cfat, h.value.msat, ole.difstart, steps);
    }
  }

  /** The header is in the first 512 bytes. */
  lemma HeaderPrefix(file: seq<byte>)
    ensures if |file| < 512 then ParseHeader(file).None? else ParseHeader(file[..512]) == ParseHeader(file)
  {
    if |file| >= 512 {
      assert LeDwords(file[..512], 76, 109) == LeDwords(file, 76, 109);
    }
  }

  /** The directory that starts at a sector can be read, entry by entry, to its end; dir is its chain. */
  ghost predicate DirectoryLoads(file: seq<byte>, fat: seq<dword>, start: dword, dir: seq<dword>) {
    && Accepted(fat, start) && IsChain(fat, start, dir) && RunsToEnd(FileBlocks(file, dir), 0)
    && ListEntries(file, fat, Listing([], None), ParseEntries(Run(FileBlocks(file, dir), 0))).Some?
  }

  /** What is needed of a file, apart from its FAT, for opening it to succeed. */
  ghost predicate Opens(file: seq<byte>, h: Header, fat: seq<dword>, dir: seq<dword>) {
    MiniFatLoads(file, fat, h.sfatstart, h.csfat) && DirectoryLoads(file, fat, h.dirstart, dir)
  }

  /** What an open file holds: the tables, the file list and the mini stream that its bytes describe. */
  ghost predicate Opened(ole: OleFile, file: seq<byte>, h: Header, fat: seq<dword>, dir: seq<dword>)
    requires MiniFatLoads(file, fat, h.sfatstart, h.csfat)
    reads ole
  {
    var es := ParseEntries(Run(FileBlocks(file, dir), 0));
    var root := LastRoot(es);
    && ole.buffer == file && ole.secID == fat && ole.sectorCutoff == h.cutoff
    && ole.sSecID == (if h.sfatstart == END_OF_CHAIN then None else Some(MiniFat(file, fat, h.sfatstart, h.csfat)))
    && ole.files == Listed(es)
    && ole.ssat == (if root.None? then None else MiniStream(file, fat, root.value.start, root.value.size))
  }

  /**
   * Opens a compound file held in memory; null when it cannot be. fat is the table as it was loaded and dir
   * the chain of the directory in it. Opening succeeds exactly when the header is one of the format, the FAT
   * sectors can all be listed and read, and the mini FAT and the directory load.
   */
  method OpenBuffer(data: seq<byte>, ghost steps: nat)
    returns (ole: OleFile?, ghost fat: seq<dword>, ghost dir: seq<dword>)
    requires var h := ParseHeader(data);
             h.Some? && DifatStart(h.value.cfat, h.value.difstart).Some? ==>
               DifatScan(data, DifatStart(h.value.cfat, h.value.difstart).value, steps) != Running
    requires ParseHeader(data).Some? ==> ParseHeader(data).value.dirstart != END_OF_CHAIN
    ensures ole != null ==> fresh(ole) && TablesListed(data, steps)
    ensures TablesListed(data, steps) ==>
              var h := ParseHeader(data).value;
              && FatFilled(data, h, steps, fat)
              && (MiniFatLoads(data, fat, h.sfatstart, h.csfat) && Accepted(fat, h.dirstart) ==>
                    IsChain(fat, h.dirstart, dir))
              && (ole != null <==> Opens(data, h, fat, dir))
              && (ole != null ==> Opened(ole, data, h, fat, dir))
    ensures ole != null ==> |ole.Img().fat| <= 0x40_0000 && |ole.Img().miniFat| <= 0x40_0000
  {
    hide FatList, ParseHeader, DifatScan, ListEntries, MiniStream, Listed, LastRoot, ParseEntries, IsChain, RunsToEnd;
    hide Assembled, FatSectors, Run, Accepted;
    fat, dir := [], [];
    var o := new OleFile(data);
    var ok := ReadHeader(o, steps);
    fat := o.secID;
    if !ok {
      return null, fat, dir;
    }
    ok, dir := ReadBody(o);
    if !ok {
      return null, fat, dir;
    }
    ListingIs(data, o.secID, Listing([], None), ParseEntries(Run(FileBlocks(data, dir), 0)));
    assert [] + o.files == o.files;
    return o, fat, dir;
  }

  /**
   * With a table that the listed sectors cover, whether a file opens is determined by the file: two loads agree,
   * each with the chain of the directory in the table it has loaded.
   */
  lemma OpeningIsDetermined(file: seq<byte>, h: Header, steps: nat, fat: seq<dword>, dir: seq<dword>,
                            other: seq<dword>, otherDir: seq<dword>)
    requires FatFilled(file, h, steps, fat) && FatFilled(file, h, steps, other)
    requires 128 * |FatList(file, h.cfat, h.msat, h.difstart, steps).value| == FatLength(h.cfat)
    requires MiniFatLoads(file, fat, h.sfatstart, h.csfat) && Accepted(fat, h.dirstart) ==>
               IsChain(fat, h.dirstart, dir)
    requires MiniFatLoads(file, other, h.sfatstart, h.csfat) && Accepted(other, h.dirstart) ==>
               IsChain(other, h.dirstart, otherDir)
    ensures Opens(file, h, fat, dir) <==> Opens(file, h, other, otherDir)
    ensures Opens(file, h, fat, dir) ==> fat == other && dir == otherDir
  {
    hide FatList, Assembled, FatFilled, MiniFatLoads, Accepted, IsChain, RunsToEnd, ListEntries, ParseEntries, Run;
    FullFatIsDetermined(file, h, steps, fat, other);
    if MiniFatLoads(file, fat, h.sfatstart, h.csfat) && Accepted(fat, h.dirstart) {
      ChainIsUnique(fat, h.dirstart, dir, otherDir);
    }
  }

  // ---------------------------------------------------------------------------
  // Short streams of a file
  // ---------------------------------------------------------------------------

  /**
   * The byte of a file that is byte o of a short stream: through the stream's mini-FAT chain into the mini
   * stream, and through the chain of the root entry into the file.
   */
  function ShortByteOf(file: seq<byte>, fat: seq<dword>, rootStart: dword, chain: seq<dword>, o: nat): Option<byte> {
    if o / 64 >= |chain| then None
    else
      var x := chain[o / 64] * 64 + o % 64;
      var s :- FatStep(fat, rootStart, x / 512);
      if SectorPos(s) + 512 > |file| then None else Some(file[SectorPos(s) + x % 512])
  }

  /** The root entry that an open file has its mini stream from. */
  ghost function RootOf(file: seq<byte>, dir: seq<dword>): Option<DirEntry> {
    LastRoot(ParseEntries(Run(FileBlocks(file, dir), 0)))
  }

  /** The mini stream that short streams of an open file read is the chain of its root entry. */
  lemma MiniStreamOfFile(ole: OleFile, file: seq<byte>, h: Header, fat: seq<dword>, dir: seq<dword>)
    requires MiniFatLoads(file, fat, h.sfatstart, h.csfat) && Opened(ole, file, h, fat, dir)
    requires ole.Img().mini.Some?
    ensures RootOf(file, dir).Some?
    ensures var root := RootOf(file, dir).value;
            FatSectors(file, fat, root.start, MiniBlocks(root.size)) == ole.Img().mini
  {
    hide FatSectors, ParseEntries, LastRoot, Listed, Run;
  }

  /** What is left to read of a short stream of an open file is, byte by byte, what both chains lead to. */
  lemma ShortStreamOfFile(ole: OleFile, file: seq<byte>, h: Header, fat: seq<dword>, dir: seq<dword>,
                          s: OleStream, k: nat)
    requires MiniFatLoads(file, fat, h.sfatstart, h.csfat) && Opened(ole, file, h, fat, dir)
    requires s.img == ole.Img() && s.short && s.InBlock() && k < |s.Rest()|
    ensures RootOf(file, dir).Some? && s.Offset() >= 0
    ensures ShortByteOf(file, fat, RootOf(file, dir).value.start, s.chain, s.Offset() + k) == Some(s.Rest()[k])
  {
    hide FatSectors, FatStep, SectorPos, RootOf, MiniFatLoads;
    assert s.img.mini.Some? && s.img.file == file && s.img.fat == fat by {
      assert IsBlock(s.img, true, s.chain[s.cfat], s.blocks[s.cfat]);
    }
    hide Opened;
    MiniStreamOfFile(ole, file, h, fat, dir);
    var root := RootOf(file, dir).value;
    s.ShortByte(root.start, MiniBlocks(root.size), k);
  }

  /** Reading a short stream of an open file: every byte read is the byte of the file that both chains lead to. */
  method ReadShortStream(ole: OleFile, s: OleStream, dst: array<byte>, want: nat,
                         ghost h: Header, ghost fat: seq<dword>, ghost dir: seq<dword>) returns (r: int)
    requires MiniFatLoads(ole.buffer, fat, h.sfatstart, h.csfat) && Opened(ole, ole.buffer, h, fat, dir)
    requires s.ole == ole && s.img == ole.Img() && s.short && s.Positioned() && s.Attached()
    requires want <= dst.Length && want < SIZE_T && dst != s.buf
    modifies s`fatpos, s`pos, s`cfat, s`eof, s.buf, dst, ole`bufferPos
    ensures r >= 0 ==> r <= want && RootOf(ole.buffer, dir).Some? && old(s.Offset()) >= 0
    ensures r >= 0 ==>
              var root := RootOf(ole.buffer, dir).value;
              forall k | 0 <= k < r ::
                ShortByteOf(ole.buffer, fat, root.start, s.chain, old(s.Offset()) + k) == Some(dst[k])
  {
    hide MiniFatLoads, Opened, RootOf, ShortByteOf, Fails;
    ghost var rest, offset := s.Rest(), s.Offset();
    forall k | 0 <= k < |rest|
      ensures RootOf(ole.buffer, dir).Some? && offset >= 0
      ensures ShortByteOf(ole.buffer, fat, RootOf(ole.buffer, dir).value.start, s.chain, offset + k) == Some(rest[k])
    {
      ShortStreamOfFile(ole, ole.buffer, h, fat, dir, s, k);
    }
    RootIsThere(ole, h, fat, dir, s);
    r := s.Read(dst, want);
    if r >= 0 {
      assert dst[..r] == rest[..r];
    }
  }

  lemma RootIsThere(ole: OleFile, h: Header, fat: seq<dword>, dir: seq<dword>, s: OleStream)
    requires MiniFatLoads(ole.buffer, fat, h.sfatstart, h.csfat) && Opened(ole, ole.buffer, h, fat, dir)
    requires s.img == ole.Img() && s.short && s.InBlock()
    ensures RootOf(ole.buffer, dir).Some? && s.Offset() >= 0
  {
    hide FatSectors, RootOf, MiniFatLoads;
    assert IsBlock(s.img, true, s.chain[s.cfat], s.blocks[s.cfat]);
    hide Opened;
    MiniStreamOfFile(ole, ole.buffer, h, fat, dir);
  }
}
