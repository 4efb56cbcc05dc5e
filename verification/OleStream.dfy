/**
 * Buffered, seekable streams over chains of sectors, and the abstract view they
 * refine: a byte sequence and an offset.
 */
module OleStreams {
  import opened Bytes
  import opened SectorChain
  import opened OleImage
  import opened OleFiles

  /**
   * What a reader can tell about a stream: the bytes from the current position to the end of the
   * chain (or to the first sector that cannot be had, when whole is false), how many bytes the
   * declared size still allows, and the end-of-file flag.
   */
  datatype View = View(rest: seq<byte>, whole: bool, clamp: Option<nat>, eof: bool)

  /** How many of want bytes the declared size allows. */
  function Allowed(v: View, want: nat): (n: nat)
    ensures n <= want
  {
    if v.clamp.Some? then Min(v.clamp.value, want) else want
  }

  /** How many bytes a successful read of want bytes returns. */
  function Taken(v: View, want: nat): (n: nat)
    ensures n <= |v.rest| && n <= want
  {
    if v.eof then 0 else Min(Allowed(v, want), |v.rest|)
  }

  /** A read fails when it needs, or would be first to touch, a sector that cannot be had. */
  predicate Fails(v: View, want: nat) {
    !v.eof && 0 < Allowed(v, want) && |v.rest| <= Allowed(v, want) && !v.whole
  }

  /** The view after a successful read of want bytes. */
  function After(v: View, want: nat): (w: View) {
    var n := Taken(v, want);
    View(v.rest[n..], v.whole,
         if v.clamp.Some? then Some(v.clamp.value - n) else None,
         v.eof || v.clamp == Some(0) || n == |v.rest|)
  }

  /** Views of positioned streams: nothing is left to read at the end of file only. */
  predicate Sane(v: View) {
    && (v.rest == [] ==> v.whole && v.eof)
    && (v.clamp.Some? ==> v.clamp.value < SIZE_T)
  }

  lemma TakenTwice(v: View, a: nat, b: nat)
    requires Sane(v) && !Fails(v, a)
    ensures Taken(v, a + b) == Taken(v, a) + Taken(After(v, a), b)
    ensures Fails(After(v, a), b) <==> Fails(v, a + b)
  {
  }

  lemma MoreFails(v: View, a: nat, b: nat)
    requires Fails(v, a)
    ensures Fails(v, a + b)
  {
  }

  /** A view after a read, field by field. */
  lemma FieldsAfter(v: View, want: nat)
    ensures var w, n := After(v, want), Taken(v, want);
            && |w.rest| == |v.rest| - n && w.whole == v.whole
            && w.clamp == (if v.clamp.Some? then Some(v.clamp.value - n) else None)
            && (w.eof <==> v.eof || v.clamp == Some(0) || n == |v.rest|)
  {
  }

  lemma SaneAfter(v: View, want: nat)
    requires Sane(v) && !Fails(v, want)
    ensures Sane(After(v, want))
  {
  }

  /** The flags and sizes of one and of two reads. */
  lemma EndsTwice(v: View, a: nat, b: nat)
    requires Sane(v) && !Fails(v, a)
    ensures var once, twice := After(v, a + b), After(After(v, a), b);
            && twice.whole == once.whole && twice.clamp == once.clamp && (once.eof ==> twice.eof)
            && (twice.eof && !once.eof ==> once.clamp == Some(0))
  {
    hide Taken, Fails, After;
    TakenTwice(v, a, b);
    FieldsAfter(v, a);
    FieldsAfter(v, a + b);
    FieldsAfter(After(v, a), b);
  }

  /** Taking two pieces off a sequence is taking one. */
  lemma PiecesTwice(rest: seq<byte>, n: nat, m: nat)
    requires n + m <= |rest|
    ensures rest[..n + m] == rest[..n] + rest[n..][..m] && rest[n..][m..] == rest[n + m..]
  {
  }

  lemma RestAfter(v: View, want: nat)
    ensures After(v, want).rest == v.rest[Taken(v, want)..]
  {
  }

  /**
   * Reading a and then b bytes is reading a + b bytes: it fails in the same cases, returns the same
   * bytes, and leaves the same view, except that an exhausted declared size may be noticed earlier.
   */
  lemma ReadsCompose(v: View, a: nat, b: nat)
    requires Sane(v) && !Fails(v, a)
    ensures Sane(After(v, a))
    ensures Fails(After(v, a), b) <==> Fails(v, a + b)
    ensures Taken(v, a + b) == Taken(v, a) + Taken(After(v, a), b)
    ensures v.rest[..Taken(v, a + b)] == v.rest[..Taken(v, a)] + After(v, a).rest[..Taken(After(v, a), b)]
    ensures var once, twice := After(v, a + b), After(After(v, a), b);
            && twice.(eof := once.eof) == once && (once.eof ==> twice.eof)
            && (twice.eof && !once.eof ==> once.clamp == Some(0))
  {
    hide Taken, Fails, After, Sane;
    TakenTwice(v, a, b);
    SaneAfter(v, a);
    EndsTwice(v, a, b);
    RestAfter(v, a);
    RestAfter(v, a + b);
    RestAfter(After(v, a), b);
    PiecesTwice(v.rest, Taken(v, a), Taken(After(v, a), b));
  }

  /** An early end-of-file flag makes no difference once the declared size is used up. */
  lemma ExhaustedReadsNothing(v: View, want: nat)
    requires v.clamp == Some(0) || v.eof
    ensures !Fails(v, want) && Taken(v, want) == 0
    ensures After(v, want).rest == v.rest && After(v, want).eof
  {
  }

  /** The sector after the i-th one of a chain, or the end mark. */
  function Next(chain: seq<dword>, i: nat): dword {
    if i + 1 < |chain| then chain[i + 1] else END_OF_CHAIN
  }

  /** The fields of a stream that stands at byte p of its chain. */
  datatype Standing = Standing(fatpos: dword, pos: nat, cfat: nat, buf: seq<byte>, eof: bool)

  /** The one way a stream can stand at byte p, p before the end of the chain, unless its declared size is used up. */
  function StateAt(img: Image, short: bool, chain: seq<dword>, p: nat): Standing
    requires BlockOf(short, p) < |chain|
    requires Content(img, short, chain[BlockOf(short, p)]).Some?
  {
    var i := BlockOf(short, p);
    Standing(Next(chain, i), PlaceIn(short, p), i,
             Content(img, short, chain[i]).value, false)
  }

  /** The sum and the difference of two numbers in size_t arithmetic. */
  function Plus(a: size_t, b: size_t): size_t {
    if (a as int) + b < SIZE_T then (a as int) + b else (a as int) + b - SIZE_T
  }

  function Minus(a: size_t, b: size_t): size_t {
    if a >= b then a - b else (a as int) - b + SIZE_T
  }

  /** How many bytes a declared size leaves at an offset; only regular streams of known size are bounded. */
  function ClampOf(size: size_t, short: bool, offset: int): Option<nat> {
    if size < SIZE_T / 2 && !short && 0 <= offset < SIZE_T then Some(Minus(size, offset)) else None
  }

  /** Ten bytes behind a declared size of ten, almost a whole size_t is left; and a sector number can lead back to 0. */
  lemma WrapExample()
    ensures ClampOf(10, false, 20) == Some(SIZE_T - 10)
    ensures SectorPos(0x7F_FFFF) == 0
  {
  }

  /** What a declared size leaves is the difference exactly up to the size; behind it nearly all of a size_t is left. */
  lemma ClampExactly(size: size_t, offset: size_t)
    requires size < SIZE_T / 2
    ensures ClampOf(size, false, offset) == Some(if offset <= size then size - offset else SIZE_T - (offset - size))
    ensures ClampOf(size, false, offset) == Some(size - offset) <==> offset <= size
  {
  }

  /** What a declared size leaves after r of these bytes, and on which side of the size they end. */
  lemma ClampMoves(size: size_t, short: bool, offset: nat, r: nat)
    requires offset + r < SIZE_T
    requires ClampOf(size, short, offset).Some? ==> r <= ClampOf(size, short, offset).value
    ensures var clamp := ClampOf(size, short, offset);
            && ClampOf(size, short, offset + r) == (if clamp.Some? then Some(clamp.value - r) else None)
            && clamp.Some? == (size < SIZE_T / 2 && !short)
            && (clamp.Some? ==> clamp.value == Minus(size, offset) && (offset + r <= size <==> offset <= size))
  {
  }

  lemma WholeBlocks(i: nat, j: nat)
    ensures (i * 64 + j) / 64 == i + j / 64 && (i * 64 + j) % 64 == j % 64
  {
  }

  /** A buffer after its first n bytes are written over by those of rest. */
  function Over(bytes: seq<byte>, rest: seq<byte>, n: nat): seq<byte>
    requires n <= |rest| && n <= |bytes|
  {
    rest[..n] + bytes[n..]
  }

  /** Writing n more bytes of rest behind the d bytes already written. */
  lemma Splice(bytes: seq<byte>, rest: seq<byte>, left: seq<byte>, d: nat, n: nat, before: seq<byte>, after: seq<byte>)
    requires d <= |rest| && left == rest[d..] && n <= |left| && d + n <= |bytes|
    requires before == Over(bytes, rest, d)
    requires after == before[..d] + left[..n] + before[d + n..]
    ensures after == Over(bytes, rest, d + n)
    ensures left[n..] == rest[d + n..]
  {
    assert before[..d] == rest[..d];
    assert before[d + n..] == bytes[d + n..];
  }

  lemma NothingOver(bytes: seq<byte>, rest: seq<byte>)
    ensures Over(bytes, rest, 0) == bytes && rest[0..] == rest
  {
  }

  /** A read of whole blocks, described field by field, is the read of the view. */
  lemma ReadIs(v: View, want: nat, r: int, w: View)
    requires r == -1 ==> !v.eof && 0 < Allowed(v, want) && |v.rest| <= Allowed(v, want) && !v.whole
    requires r == -1 || (0 <= r <= Allowed(v, want) && r <= |v.rest|)
    requires r >= 0 ==> w.rest == v.rest[r..] && w.whole == v.whole && (w.rest == [] ==> w.whole)
    requires r >= 0 ==> (w.eof <==> v.eof || v.clamp == Some(0) || w.rest == [])
    requires r >= 0 ==> (r == Allowed(v, want) || w.eof) && (v.eof ==> r == 0)
    requires r >= 0 ==> w.clamp == if v.clamp.Some? then Some(v.clamp.value - r) else None
    ensures r == if Fails(v, want) then -1 else Taken(v, want)
    ensures r >= 0 ==> w == After(v, want)
  {
  }

  class OleStream {
    const ole: OleFile
    const start: dword
    const size: size_t
    const short: bool
    const bufsize: nat
    const buf: array<byte>
    var fatpos: dword
    var pos: nat
    var cfat: size_t
    var eof: bool
    /** The sectors of the stream, fixed when it was opened. */
    ghost const chain: seq<dword>
    /** Their bytes. */
    ghost const blocks: seq<Block>
    /** What the file held at that time; open streams do not outlive a reload of the tables. */
    ghost const img: Image

    constructor (o: OleFile, startSector: dword, byteSize: size_t, isShort: bool, ghost sectors: seq<dword>)
      ensures ole == o && start == startSector && size == byteSize && short == isShort
      ensures bufsize == BlockSize(isShort) && fresh(buf) && buf.Length == bufsize
      ensures chain == sectors && img == o.Img() && AreBlocks(img, short, chain, blocks)
      ensures fatpos == startSector && pos == 0 && cfat == SIZE_T - 1 && !eof
    {
      ole, start, size, short := o, startSector, byteSize, isShort;
      bufsize := BlockSize(isShort);
      buf := new byte[BlockSize(isShort)];
      fatpos, pos, cfat, eof := startSector, 0, SIZE_T - 1, false;
      chain, img, blocks := sectors, o.Img(), ChainBlocks(o.Img(), isShort, sectors);
    }

    /** Small streams are kept in short sectors. */
    static predicate IsShort(byteSize: size_t, cutoff: dword) {
      0 < byteSize < SIZE_T / 2 && byteSize < cutoff
    }

    /** Opens a stream on the chain of a sector; null when the chain is refused or its first sector cannot be had. */
    static method Open(ole: OleFile, start: dword, size: size_t) returns (s: OleStream?)
      requires |ole.Img().fat| <= 0x40_0000 && |ole.Img().miniFat| <= 0x40_0000
      modifies ole`bufferPos
      ensures var short := IsShort(size, ole.sectorCutoff);
              s != null <==> Accepted(Table(ole.Img(), short), start)
                             && (start == END_OF_CHAIN || Content(ole.Img(), short, start).Some?)
      ensures s != null ==> fresh(s) && fresh(s.buf) && s.ole == ole && s.start == start && s.size == size
      ensures s != null ==> s.short == IsShort(size, ole.sectorCutoff) && s.img == ole.Img() && s.Attached()
      ensures s != null ==> s.Opened()
      ensures s != null && start != END_OF_CHAIN ==> s.Positioned() && s.Offset() == 0 && !s.eof
      ensures s != null && start == END_OF_CHAIN ==> s.chain == [] && s.fatpos == start && s.pos == 0 && !s.eof
    {
      var short := IsShort(size, ole.sectorCutoff);
      ghost var img := ole.Img();
      var table := if !short then ole.secID else if ole.sSecID.Some? then ole.sSecID.value else [];
      var ok, chain := ValidateSectorChain(table, start);
      if !ok {
        return null;
      }
      s := new OleStream(ole, start, size, short, chain);
      s.FirstSector();
      ok := s.LoadBlock(0);
      if !ok {
        return null;
      }
    }

    /** What opening a stream establishes for good: a validated chain and a buffer of one sector. */
    ghost predicate Opened() {
      && bufsize == BlockSize(short) && buf.Length == bufsize
      && |Table(img, short)| <= 0x40_0000 && (chain == [] || |chain| < |Table(img, short)|)
      && IsChain(Table(img, short), start, chain)
      && AreBlocks(img, short, chain, blocks)
    }

    /** The file still holds the tables that the stream was opened with. */
    ghost predicate Attached()
      reads ole`secID, ole`sSecID, ole`ssat
    {
      && ole.buffer == img.file
      && if short then ole.Img() == img else ole.secID == img.fat
    }

    /** The buffer holds the sector under the read position, or the last one when all is read. */
    ghost predicate InBlock()
      reads this`fatpos, this`cfat, this`pos, buf
    {
      && Opened()
      && cfat < |chain|
      && fatpos == Next(chain, cfat)
      && blocks[cfat] == Some(buf[..])
      && pos <= bufsize
      && (pos == bufsize ==> cfat == |chain| - 1)
    }

    /** Between calls a stream that has consumed its last sector knows that it is at the end. */
    ghost predicate Positioned()
      reads this`fatpos, this`cfat, this`pos, this`eof, buf
    {
      InBlock() && (pos == bufsize ==> eof)
    }

    /** A seek to the block right behind the last one succeeds; the buffer still holds the block it held before. */
    ghost predicate Behind()
      reads this`fatpos, this`cfat, this`pos
    {
      Opened() && cfat == |chain| && fatpos == END_OF_CHAIN && pos <= bufsize
    }

    ghost predicate OnBlock()
      reads this`fatpos, this`cfat, this`pos, buf
    {
      InBlock() || Behind()
    }

    /** Between calls a stream stands in its chain or right behind it. */
    ghost predicate Ready()
      reads this`fatpos, this`cfat, this`pos, this`eof, buf
    {
      OnBlock() && (pos == bufsize ==> eof)
    }

    /** The blocks that are read: those of the chain, and behind them the one that the buffer holds. */
    ghost function Held(): seq<Block>
      reads this`cfat, buf
    {
      if cfat == |blocks| then blocks + [Some(buf[..])] else blocks
    }

    /** The bytes from the read position up to the end of the chain or to a sector that cannot be had. */
    ghost function Rest(): seq<byte>
      reads this`cfat, this`pos, buf
    {
      RestAt(Held(), cfat, pos)
    }

    /** The block under the read position is in the buffer. */
    lemma HeldHere()
      requires OnBlock()
      ensures buf.Length == bufsize && cfat < |Held()| && Held()[cfat] == Some(buf[..])
    {
      hide IsChain;
    }

    /** Right behind the chain what is left is the rest of the buffer. */
    lemma RestBehind()
      requires Behind()
      ensures Rest() == buf[pos..] && Whole() && 0 <= Offset()
    {
      RunOfLast(blocks, buf[..]);
      RestIsTail(Held(), cfat, pos);
    }

    /** The offset of a stream is far from wrapping around. */
    lemma OffsetFits()
      requires OnBlock()
      ensures 0 <= Offset() < SIZE_T / 2
    {
      hide IsChain, AreBlocks;
    }

    /** No sector from the current one on is out of reach. */
    ghost predicate Whole()
      reads this`cfat
    {
      RunsToEnd(blocks, cfat)
    }

    /** The current byte offset in the stream. */
    ghost function Offset(): int
      reads this`cfat, this`pos
    {
      BytesIn(short, cfat) + pos
    }

    /** How many bytes the declared size leaves, computed as the source does: in size_t arithmetic. */
    ghost function Clamp(): Option<nat>
      reads this`cfat, this`pos
    {
      ClampOf(size, short, Offset())
    }

    ghost function Abs(): View
      reads this`cfat, this`pos, this`eof, buf
    {
      View(Rest(), Whole(), Clamp(), eof)
    }

    /** Loads the next sector of the chain; false when it cannot be had. */
    method BufRead() returns (ok: bool)
      requires bufsize == BlockSize(short) && buf.Length == bufsize && Attached()
      modifies this`fatpos, this`pos, this`cfat, buf, ole`bufferPos
      ensures old(fatpos) == END_OF_CHAIN ==> ok && unchanged(this) && buf[..] == old(buf[..])
      ensures old(fatpos) != END_OF_CHAIN ==>
                var content := Content(img, short, old(fatpos));
                && (ok <==> content.Some? && old(fatpos) < |Table(img, short)|
                            && (short || ValidSector(img.fat, old(fatpos))))
                && (ok ==> buf[..] == content.value && fatpos == Table(img, short)[old(fatpos)]
                           && pos == 0 && cfat == Plus(old(cfat), 1))
      ensures Attached()
    {
      if fatpos != END_OF_CHAIN {
        if short {
          if ole.ssat.None? || ole.sSecID.None? {
            return false;
          }
          var ssat, sSecID := ole.ssat.value, ole.sSecID.value;
          if fatpos * SHORT_SECTOR + bufsize > |ssat| {
            return false;
          }
          var at := fatpos * SHORT_SECTOR;
          forall i | 0 <= i < bufsize {
            buf[i] := ssat[at + i];
          }
          assert buf[..] == ssat[at..at + SHORT_SECTOR];
          if fatpos >= |sSecID| {
            return false;
          }
          fatpos := sSecID[fatpos];
        } else {
          if fatpos >= 0x8000_0000 {
            return false;
          }
          var sector := ole.SectorRead(bufsize, fatpos);
          if sector.None? {
            return false;
          }
          forall i | 0 <= i < bufsize {
            buf[i] := sector.value[i];
          }
          assert buf[..] == sector.value;
          if !ValidSector(ole.secID, fatpos) {
            return false;
          }
          fatpos := ole.secID[fatpos];
        }
        pos := 0;
        cfat := Plus(cfat, 1);
      }
      return true;
    }

    /** Along the chain the table leads from every sector to the next, never back to itself. */
    lemma ChainStep(i: nat)
      requires Opened() && i < |chain|
      ensures var t := Table(img, short);
              chain[i] < |t| && t[chain[i]] == Next(chain, i) != chain[i] && chain[i] != END_OF_CHAIN
      ensures IsBlock(img, short, chain[i], blocks[i])
    {
      var t := Table(img, short);
      assert IsBlock(img, short, chain[i], blocks[i]);
      ChainIsDistinct(t, start, chain);
      WalkGoesOn(t, start, chain, i);
      if i < |chain| - 1 {
        WalkGoesOn(t, start, chain, i + 1);
      }
    }

    /** A stream has nothing left exactly when it has consumed its last sector. */
    lemma NothingLeft()
      requires OnBlock()
      ensures Rest() == [] <==> pos == bufsize
      ensures pos == bufsize ==> Whole() && fatpos == END_OF_CHAIN
    {
      RestInBlock(Held(), cfat, pos, bufsize - pos);
      RestNextBlock(Held(), cfat);
    }

    /** When every block can be had, the rest is the concatenation of all blocks from the offset on. */
    lemma OffsetIsPlace()
      requires InBlock() && RunsToEnd(blocks, 0)
      ensures 0 <= Offset() <= |Run(blocks, 0)| == BytesIn(short, |chain|)
      ensures Rest() == Run(blocks, 0)[Offset()..]
    {
      BlocksUniform(img, short, chain, blocks);
      RunIsSuffix(blocks, short, cfat);
      RunLength(blocks, short, cfat);
      RestIsTail(blocks, cfat, pos);
    }

    /** Before the end the offset determines every field: however a stream got there, it stands the same. */
    lemma OffsetDeterminesState()
      requires InBlock() && pos < bufsize
      ensures Offset() >= 0 && BlockOf(short, Offset()) < |chain|
      ensures Content(img, short, chain[BlockOf(short, Offset())]).Some?
      ensures Fields() == StateAt(img, short, chain, Offset()).(eof := eof)
    {
      ChainStep(cfat);
    }

    /** The fields that change. */
    ghost function Fields(): Standing
      reads this`fatpos, this`cfat, this`pos, this`eof, buf
    {
      Standing(fatpos, pos, cfat, buf[..], eof)
    }

    /** The view of a stream between calls is sane. */
    lemma PositionedIsSane()
      requires Ready()
      ensures Sane(Abs())
    {
      NothingLeft();
    }

    /** Byte k of what is left of a short stream is the file byte reached from offset Offset() + k by both chains. */
    lemma ShortByte(rootStart: dword, n: nat, k: nat)
      requires InBlock() && short && k < |Rest()|
      requires img.mini.Some? && FatSectors(img.file, img.fat, rootStart, n) == img.mini
      ensures Offset() >= 0 && (Offset() + k) / 64 < |chain|
      ensures var x := chain[(Offset() + k) / 64] * 64 + (Offset() + k) % 64;
              var s := FatStep(img.fat, rootStart, x / 512);
              && s.Some? && SectorPos(s.value) + 512 <= |img.file|
              && Rest()[k] == img.file[SectorPos(s.value) + x % 512]
    {
      hide FatSectors, FatStep, SectorPos, IsChain;
      assert blocks[cfat].Some? && pos <= |blocks[cfat].value| <= |Run(blocks, cfat)|;
      RestIsTail(blocks, cfat, pos);
      hide Run, RestAt;
      ShortStreamByte(img, chain, blocks, rootStart, n, cfat, pos + k);
      WholeBlocks(cfat, pos + k);
    }

    /** Copies n bytes from the read position to offset at of dst. */
    method CopyOut(dst: array<byte>, at: nat, n: nat)
      requires pos + n <= buf.Length && at + n <= dst.Length && dst != buf
      modifies dst
      ensures dst[..] == old(dst[..at]) + buf[..][pos..pos + n] + old(dst[at + n..])
    {
      forall i | 0 <= i < n {
        dst[at + i] := buf[pos + i];
      }
    }

    /** The sector that the i-th step along the chain arrives at; the end mark after the last one. */
    ghost function SectorAfter(i: nat): dword {
      if i < |chain| then chain[i] else END_OF_CHAIN
    }

    /** The chain starts with the start sector, if that is not the end mark already. */
    lemma FirstSector()
      requires Opened()
      ensures SectorAfter(0) == start
      ensures chain != [] ==> start != END_OF_CHAIN && IsBlock(img, short, start, blocks[0])
    {
      if chain != [] {
        WalkGoesOn(Table(img, short), start, chain, 0);
        assert IsBlock(img, short, chain[0], blocks[0]);
      }
    }

    /** Loads the k-th block when fatpos points to it; past the last block nothing happens. */
    method LoadBlock(ghost k: nat) returns (ok: bool)
      requires Opened() && Attached() && fatpos == SectorAfter(k)
      modifies this`fatpos, this`pos, this`cfat, buf, ole`bufferPos
      ensures k >= |chain| ==>
                ok && fatpos == old(fatpos) && pos == old(pos) && cfat == old(cfat) && buf[..] == old(buf[..])
      ensures k < |chain| ==> (ok <==> blocks[k].Some?)
      ensures k < |chain| && ok ==>
                blocks[k] == Some(buf[..]) && fatpos == Next(chain, k) && pos == 0 && cfat == Plus(old(cfat), 1)
      ensures Attached()
    {
      if k < |chain| {
        ChainStep(k);
      }
      ok := BufRead();
    }

    /** Moves past the rest of the current block and loads the next one. */
    method NextBlock() returns (ok: bool)
      requires OnBlock() && pos < bufsize && Attached()
      modifies this`fatpos, this`pos, this`cfat, buf, ole`bufferPos
      ensures ok ==> OnBlock() && Rest() == RestAt(old(Held()), old(cfat), bufsize) && Whole() == old(Whole())
      ensures ok ==> Offset() == old(Offset() + (bufsize - pos))
      ensures !ok ==> !old(Whole()) && RestAt(old(Held()), old(cfat), bufsize) == []
      ensures ok ==> (Behind() <==> old(Behind()))
      ensures Attached()
    {
      hide Attached, IsChain, RestAt, Run;
      RestNextBlock(Held(), cfat);
      pos := bufsize;
      ok := LoadBlock(cfat + 1);
    }

    /** Copies what the current block holds of need bytes, and loads the next block once it is used up. */
    method ReadBlock(dst: array<byte>, at: nat, need: nat) returns (n: nat, ok: bool)
      requires OnBlock() && pos < bufsize && Attached()
      requires 0 < need && at + need <= dst.Length && dst != buf
      modifies this`fatpos, this`pos, this`cfat, buf, dst, ole`bufferPos
      ensures ok ==> 0 < n <= need && n <= |old(Rest())|
      ensures ok ==> OnBlock() && Rest() == old(Rest())[n..] && Whole() == old(Whole())
      ensures ok ==> Offset() == old(Offset()) + n
      ensures ok ==> (Rest() == [] <==> fatpos == END_OF_CHAIN && pos >= bufsize) && (Rest() == [] ==> Whole())
      ensures ok ==> dst[..] == old(dst[..])[..at] + old(Rest())[..n] + old(dst[..])[at + n..]
      ensures !ok ==> !old(Whole()) && |old(Rest())| <= need
      ensures ok ==> (Behind() <==> old(Behind()))
      ensures Attached()
    {
      hide Attached, RestAt, RunsToEnd, BytesIn, Opened, Held;
      HeldHere();
      var remaining := bufsize - pos;
      n, ok := if need < remaining then need else remaining, true;
      RestInBlock(Held(), cfat, pos, n);
      CopyOut(dst, at, n);
      if need < remaining {
        pos := pos + n;
      } else {
        ok := NextBlock();
      }
      if ok {
        NothingLeft();
      }
    }

    /** Copies total bytes, block after block, or all up to the end of the chain when it comes first. */
    method ReadBlocks(dst: array<byte>, total: nat) returns (r: int)
      requires Ready() && Attached()
      requires total <= dst.Length && dst != buf
      modifies this`fatpos, this`pos, this`cfat, this`eof, buf, dst, ole`bufferPos
      ensures r == -1 ==> !old(eof) && 0 < total && |old(Rest())| <= total && !old(Whole())
      ensures r == -1 || (0 <= r <= total && r <= |old(Rest())|)
      ensures r >= 0 ==> Ready() && Rest() == old(Rest())[r..] && Whole() == old(Whole())
      ensures r >= 0 ==> (eof <==> old(eof) || Rest() == []) && (r == total || eof)
      ensures r >= 0 ==> (old(eof) ==> r == 0) && (Rest() == [] ==> Whole())
      ensures r >= 0 ==> dst[..] == Over(old(dst[..]), old(Rest()), r)
      ensures r >= 0 ==> Offset() == old(Offset()) + r
      ensures r >= 0 ==> (Behind() <==> old(Behind()))
      ensures Attached()
    {
      hide Opened, Attached, RestAt, RunsToEnd, BytesIn, Over;
      ghost var rest, bytes := Rest(), dst[..];
      NothingLeft();
      NothingOver(bytes, rest);
      var didRead := 0;
      while !eof && didRead < total
        invariant didRead <= total && didRead <= |rest| && Ready()
        invariant Rest() == rest[didRead..] && Whole() == old(Whole())
        invariant dst[..] == Over(bytes, rest, didRead)
        invariant Offset() == old(Offset()) + didRead
        invariant eof <==> old(eof) || Rest() == []
        invariant (Rest() == [] ==> Whole()) && (old(eof) ==> didRead == 0)
        invariant Behind() <==> old(Behind())
        decreases total - didRead
      {
        ghost var left, before := Rest(), dst[..];
        var n, ok := ReadBlock(dst, didRead, total - didRead);
        if !ok {
          return -1;
        }
        Splice(bytes, rest, left, didRead, n, before, dst[..]);
        didRead := didRead + n;
        if fatpos == END_OF_CHAIN && pos >= bufsize {
          eof := true;
        }
      }
      r := didRead;
    }

    /**
     * Reads up to want bytes into dst. Returns -1 on failure, otherwise the number of bytes read.
     * On every input it does what reading from the view does. A regular stream of known size stays inside its size
     * exactly when it was inside it before.
     */
    method Read(dst: array<byte>, want: nat) returns (r: int)
      requires Ready() && Attached()
      requires want <= dst.Length && want < SIZE_T && dst != buf
      modifies this`fatpos, this`pos, this`cfat, this`eof, buf, dst, ole`bufferPos
      ensures r == if old(Fails(Abs(), want)) then -1 else old(Taken(Abs(), want))
      ensures r >= 0 ==> Ready() && Abs() == old(After(Abs(), want))
      ensures r >= 0 ==> dst[..] == old(Abs()).rest[..r] + old(dst[..])[r..]
      ensures r >= 0 ==> Offset() == old(Offset()) + r
      ensures r >= 0 && size < SIZE_T / 2 && !short ==> (Offset() <= size <==> old(Offset()) <= size)
      ensures r >= 0 ==> (Behind() <==> old(Behind()))
      ensures Attached()
    {
      hide Attached, RestAt, RunsToEnd, Fails, Taken, After, ClampOf, Minus, Opened, InBlock, Behind, Held;
      ghost var v, offset := Abs(), Offset();
      OffsetFits();
      ClampMoves(size, short, offset, 0);
      var total := want;
      if size < SIZE_T / 2 && !short {
        var rem := Minus(size, cfat * 512 + pos);
        total := if rem < total then rem else total;
        if rem <= 0 {
          eof := true;
        }
      }
      assert total == Allowed(v, want) && Rest() == v.rest && Whole() == v.whole;
      assert eof <==> v.eof || v.clamp == Some(0);
      r := ReadBlocks(dst, total);
      if r >= 0 {
        OffsetFits();
        ClampMoves(size, short, offset, r);
      }
      ReadIs(v, want, r, Abs());
    }

    /**
     * Two reads in a row: together they fail exactly when one read of both lengths would, and return its bytes.
     */
    method ReadTwice(first: array<byte>, a: nat, second: array<byte>, b: nat) returns (r: int)
      requires Ready() && Attached()
      requires a <= first.Length && b <= second.Length && a + b < SIZE_T
      requires first != buf && second != buf && first != second
      modifies this`fatpos, this`pos, this`cfat, this`eof, buf, first, second, ole`bufferPos
      ensures r == if old(Fails(Abs(), a + b)) then -1 else old(Taken(Abs(), a + b))
      ensures r >= 0 ==>
                var n := old(Taken(Abs(), a));
                n <= r && first[..n] + second[..r - n] == old(Abs()).rest[..r]
      ensures r >= 0 ==> Ready() && Offset() == old(Offset()) + r
      ensures r >= 0 ==> Rest() == old(Rest())[r..] && Whole() == old(Whole()) && (old(After(Abs(), a + b)).eof ==> eof)
      ensures r >= 0 ==> (Behind() <==> old(Behind()))
      ensures Attached()
    {
      hide Ready, Attached, Fails, Taken;
      ghost var v := Abs();
      PositionedIsSane();
      r := Read(first, a);
      if r == -1 {
        MoreFails(v, a, b);
        return -1;
      }
      ReadsCompose(v, a, b);
      var m := Read(second, b);
      if m == -1 {
        return -1;
      }
      assert first[..r] == v.rest[..r];
      assert second[..m] == After(v, a).rest[..m];
      r := r + m;
    }

    /**
     * Moves to byte ofs, wherever the stream stood before. Below the end of the chain it arrives where
     * reading ofs bytes from the start would, provided the sector can be had. One block past the end it
     * reports success but keeps the old buffer contents; further out it fails.
     */
    method Seek(ofs: dword) returns (ok: bool)
      requires Opened() && Attached()
      modifies this`fatpos, this`pos, this`cfat, this`eof, buf, ole`bufferPos
      ensures var q := BlockOf(short, ofs);
              ok <==> q == |chain| || (q < |chain| && Content(img, short, chain[q]).Some?)
      ensures ok && BlockOf(short, ofs) < |chain| ==>
                Positioned() && !eof && Offset() == ofs
                && Fields() == StateAt(img, short, chain, ofs)
      ensures ok && BlockOf(short, ofs) < |chain| && RunsToEnd(blocks, 0) ==>
                ofs <= |Run(blocks, 0)| && Rest() == Run(blocks, 0)[ofs..]
      ensures ok && BlockOf(short, ofs) == |chain| ==>
                && buf[..] == old(buf[..]) && fatpos == END_OF_CHAIN && !eof
                && cfat == |chain| && pos == PlaceIn(short, ofs)
                && Behind() && Ready() && Offset() == ofs && Rest() == old(buf[..])[PlaceIn(short, ofs)..]
      ensures Attached()
    {
      var quot, rem := BlockOf(short, ofs), PlaceIn(short, ofs);
      FirstSector();
      fatpos := start;
      for i := 0 to quot
        modifies this`fatpos
        invariant i <= |chain| && fatpos == SectorAfter(i)
      {
        if i < |chain| {
          ChainStep(i);
        }
        if short {
          if ole.sSecID.None? || fatpos >= |ole.sSecID.value| {
            return false;
          }
          fatpos := ole.sSecID.value[fatpos];
        } else {
          if !ValidSector(ole.secID, fatpos) {
            return false;
          }
          fatpos := ole.secID[fatpos];
        }
      }
      assert quot < |chain| ==> IsBlock(img, short, chain[quot], blocks[quot]);
      ok := LoadBlock(quot);
      if !ok {
        return false;
      }
      pos := rem;
      eof := false;
      cfat := quot;
      if quot == |chain| {
        RestBehind();
      } else if RunsToEnd(blocks, 0) {
        OffsetIsPlace();
      }
    }

    /**
     * Seeks right behind the end and reads: the read succeeds, and hands out bytes of the block that the stream
     * stood in before, from the place on that the offset has in a block.
     */
    method ReadBehindEnd(ofs: dword, dst: array<byte>, want: nat) returns (r: int)
      requires InBlock() && Attached() && BlockOf(short, ofs) == |chain|
      requires want <= dst.Length && want < SIZE_T && dst != buf
      modifies this`fatpos, this`pos, this`cfat, this`eof, buf, dst, ole`bufferPos
      ensures var block, place, most := old(blocks[cfat]).value, PlaceIn(short, ofs), ClampOf(size, short, ofs);
              && r == Min(bufsize - place, if most.Some? then Min(most.value, want) else want)
              && dst[..r] == block[place..][..r]
      ensures Behind() && Offset() == ofs + r && Attached()
    {
      hide Attached, RestAt, RunsToEnd;
      var ok := Seek(ofs);
      RestBehind();
      r := Read(dst, want);
    }

    /**
     * Seeking agrees with reading: of two streams on one chain, one reads ofs bytes from the start, its size
     * being no bound, and the other seeks to ofs, wherever it stood; they end up the same in every field.
     */
    static method SeekLikeReading(reader: OleStream, seeker: OleStream, dst: array<byte>, ofs: dword)
      requires reader.Positioned() && reader.Attached() && reader.Offset() == 0 && !reader.eof
      requires reader.Clamp().None? && ofs < |reader.Rest()|
      requires seeker.Opened() && seeker.Attached() && reader != seeker && reader.buf != seeker.buf
      requires seeker.img == reader.img && seeker.short == reader.short && seeker.chain == reader.chain
      requires ofs <= dst.Length && dst != reader.buf && dst != seeker.buf
      modifies reader`fatpos, reader`pos, reader`cfat, reader`eof, reader.buf, reader.ole`bufferPos, dst
      modifies seeker`fatpos, seeker`pos, seeker`cfat, seeker`eof, seeker.buf, seeker.ole`bufferPos
      ensures reader.Fields() == seeker.Fields() && !seeker.eof
      ensures dst[..ofs] == old(reader.Rest())[..ofs]
    {
      ghost var v := reader.Abs();
      var r := reader.Read(dst, ofs);
      assert r == ofs && reader.Abs() == After(v, ofs);
      assert !reader.eof;
      reader.OffsetDeterminesState();
      var ok := seeker.Seek(ofs);
    }
  }
}
