/** The FAT of a compound file, assembled from the sectors that the header and the DIFAT chain name. */
module OleFat {
  import opened Bytes
  import opened SectorChain
  import opened OleImage
  import opened OleFiles
  import opened Iteration

  /** The number of FAT sectors the header can name. */
  const HEADER_ENTRIES: nat := 109

  /** The 128 table entries in a sector of the file. */
  function SectorDwords(file: seq<byte>, sid: dword): (r: Option<seq<dword>>)
    ensures r.Some? ==> |r.value| == 128
  {
    match FileSector(file, sid)
    case None => None
    case Some(bytes) => Some(LeDwords(bytes, 0, 128))
  }

  /** The entries of several sectors, one after the other. */
  function Assembled(file: seq<byte>, sids: seq<dword>): (r: Option<seq<dword>>)
    ensures r.Some? ==> |r.value| == 128 * |sids|
  {
    if sids == [] then Some([])
    else
      var n := |sids| - 1;
      match Assembled(file, sids[..n])
      case None => None
      case Some(front) =>
        if SectorDwords(file, sids[n]).None? then None
        else Some(front + SectorDwords(file, sids[n]).value)
  }

  lemma AssembledNone(file: seq<byte>)
    ensures Assembled(file, []) == Some([])
  {
  }

  lemma AssembledLast(file: seq<byte>, front: seq<dword>, sid: dword)
    ensures Assembled(file, front + [sid]) ==
            if Assembled(file, front).None? || SectorDwords(file, sid).None? then None
            else Some(Assembled(file, front).value + SectorDwords(file, sid).value)
  {
    hide SectorDwords;
    assert (front + [sid])[..|front|] == front;
  }

  /** Assembling is done piece by piece: both pieces must be readable. */
  lemma {:induction false} AssembledAppend(file: seq<byte>, a: seq<dword>, b: seq<dword>)
    ensures Assembled(file, a + b).Some? <==> Assembled(file, a).Some? && Assembled(file, b).Some?
    ensures Assembled(file, a + b).Some? ==>
              Assembled(file, a + b).value == Assembled(file, a).value + Assembled(file, b).value
    decreases |b|
  {
    hide Assembled, SectorDwords;
    if b == [] {
      AssembledNone(file);
      assert a + b == a;
      if Assembled(file, a).Some? {
        assert Assembled(file, a).value + [] == Assembled(file, a).value;
      }
    } else {
      var front, sid := b[..|b| - 1], b[|b| - 1];
      AssembledAppend(file, a, front);
      AssembledLast(file, a + front, sid);
      AssembledLast(file, front, sid);
      assert a + b == a + front + [sid] && b == front + [sid];
      if Assembled(file, a + b).Some? {
        Regroup(Assembled(file, a).value, Assembled(file, front).value, SectorDwords(file, sid).value);
      }
    }
  }

  lemma Regroup(a: seq<dword>, b: seq<dword>, c: seq<dword>)
    ensures (a + b) + c == a + (b + c)
  {
  }

  predicate IsLive(s: dword) {
    s != END_OF_CHAIN && s != FREE_SECTOR
  }

  /** The entries of a DIFAT sector that name FAT sectors. */
  function Live(s: seq<dword>): (r: seq<dword>) {
    if s == [] then []
    else Live(s[..|s| - 1]) + if IsLive(s[|s| - 1]) then [s[|s| - 1]] else []
  }

  lemma {:induction false} LiveAppend(a: seq<dword>, b: seq<dword>)
    ensures Live(a + b) == Live(a) + Live(b)
  {
    if b == [] {
      assert a + b == a;
    } else {
      assert (a + b)[..|a + b| - 1] == a + b[..|b| - 1];
      LiveAppend(a, b[..|b| - 1]);
    }
  }

  /** A sector of the DIFAT chain that is to be read next, and how many FAT sectors may still be found. */
  datatype DifatState = DifatState(sid: dword, room: nat)

  /** Reads one DIFAT sector; None at the end, or at the first thing that cannot be read or stored. */
  function DifatNext(file: seq<byte>, st: DifatState): Option<DifatState> {
    if !IsLive(st.sid) || SectorDwords(file, st.sid).None? then None
    else
      var d := SectorDwords(file, st.sid).value;
      var named := Live(d[..127]);
      if |named| > st.room || Assembled(file, named).None? then None
      else Some(DifatState(d[127], st.room - |named|))
  }

  /** Iterating it tells where reading the DIFAT stands after so many sectors, None when it has stopped before. */
  ghost function Stepper(file: seq<byte>): DifatState -> Option<DifatState> {
    s => DifatNext(file, s)
  }

  /** How reading the DIFAT goes: it ends with a list of FAT sectors, breaks off, or is still under way. */
  datatype Scan = Ended(list: seq<dword>) | Broken | Running

  /** Reading at most so many sectors of the DIFAT chain. */
  function DifatScan(file: seq<byte>, st: DifatState, steps: nat): Scan
    decreases steps
  {
    if !IsLive(st.sid) then Ended([])
    else if steps == 0 then Running
    else if DifatNext(file, st).None? then Broken
    else Behind(Live(SectorDwords(file, st.sid).value[..127]), DifatScan(file, DifatNext(file, st).value, steps - 1))
  }

  /** A scan that found some sectors before. */
  function Behind(front: seq<dword>, scan: Scan): Scan {
    if scan.Ended? then Ended(front + scan.list) else scan
  }

  lemma BehindTwice(a: seq<dword>, b: seq<dword>, scan: Scan)
    ensures Behind(a, Behind(b, scan)) == Behind(a + b, scan)
    ensures Behind(a, Ended([])) == Ended(a)
  {
    assert a + [] == a;
    if scan.Ended? {
      assert a + (b + scan.list) == (a + b) + scan.list;
    }
  }

  /** A scan is under way for ever exactly when the steps never stop. */
  lemma {:induction false} ScanStops(file: seq<byte>, st: DifatState, n: nat)
    ensures DifatScan(file, st, n) != Running ==> Iterate(Stepper(file), st, n + 1).None?
    ensures Iterate(Stepper(file), st, n).None? ==> DifatScan(file, st, n) != Running
    decreases n
  {
    var next := Stepper(file);
    IterateFront(next, st, n);
    if n > 0 {
      IterateFront(next, st, n - 1);
      assert next(st) == DifatNext(file, st);
      if next(st).Some? {
        ScanStops(file, next(st).value, n - 1);
      }
    }
  }

  lemma {:induction false} RoomShrinks(file: seq<byte>, st: DifatState, n: nat)
    ensures Iterate(Stepper(file), st, n).Some? ==> Code(Iterate(Stepper(file), st, n).value) < Code(st) + 0x1_0000_0000
    ensures Iterate(Stepper(file), st, n).Some? ==> Iterate(Stepper(file), st, n).value.room <= st.room
  {
    if n > 0 {
      RoomShrinks(file, st, n - 1);
    }
  }

  /** A state as a number: there are so many sector numbers and so much room. */
  function Code(st: DifatState): int {
    st.room * 0x1_0000_0000 + st.sid
  }

  /**
   * Reading the DIFAT stops if and only if it never comes back to a sector without having found the
   * name of a FAT sector since. In particular it stops on every DIFAT chain without a cycle.
   */
  lemma DifatHalting(file: seq<byte>, st: DifatState)
    ensures (exists n: nat :: DifatScan(file, st, n) != Running) <==>
            !exists i: nat, j: nat :: Recurs(Stepper(file), st, i, j)
  {
    forall n: nat
      ensures Iterate(Stepper(file), st, n).Some? ==>
                Code(Iterate(Stepper(file), st, n).value) < Code(st) + 0x1_0000_0000
    {
      RoomShrinks(file, st, n);
    }
    if n: nat :| DifatScan(file, st, n) != Running {
      ScanStops(file, st, n);
      assert StopsWithin(Stepper(file), st, n + 1);
    }
    if n: nat :| StopsWithin(Stepper(file), st, n) {
      ScanStops(file, st, n);
    }
    forall t, u | Code(t) == Code(u)
      ensures t == u
    {
      assert t.room == u.room;
    }
    StopsUnlessRepeats(Stepper(file), st, Code, Code(st) + 0x1_0000_0000);
  }

  /** The sector that the DIFAT is at after n steps. */
  ghost function SectorAfter(file: seq<byte>, st: DifatState, n: nat): Option<dword> {
    match Iterate(Stepper(file), st, n)
    case None => None
    case Some(t) => Some(t.sid)
  }

  lemma RecursAtSector(file: seq<byte>, st: DifatState, i: nat, j: nat)
    requires Recurs(Stepper(file), st, i, j)
    ensures SectorAfter(file, st, i).Some? && SectorAfter(file, st, i) == SectorAfter(file, st, j)
  {
  }

  /** It stops on every chain that does not come back to a sector. */
  lemma AcyclicStops(file: seq<byte>, st: DifatState)
    requires forall i: nat, j: nat | i < j && SectorAfter(file, st, i).Some? ::
               SectorAfter(file, st, i) != SectorAfter(file, st, j)
    ensures exists n: nat :: DifatScan(file, st, n) != Running
  {
    hide DifatScan, SectorAfter;
    DifatHalting(file, st);
    if i: nat, j: nat :| Recurs(Stepper(file), st, i, j) {
      RecursAtSector(file, st, i, j);
    }
  }

  /** A file of one sector: 127 free entries, and a last one that names the sector itself. */
  function LoopingFile(): (file: seq<byte>)
    ensures |file| == 1024
  {
    seq(1024, i => if 512 <= i < 1020 then 0xFF else 0)
  }

  /** There reading the DIFAT goes on for ever, whatever room there is. */
  lemma DifatLoopExample(room: nat, n: nat)
    ensures Recurs(Stepper(LoopingFile()), DifatState(0, room), 0, 1)
    ensures DifatScan(LoopingFile(), DifatState(0, room), n) == Running
  {
    var st := DifatState(0, room);
    LoopingStep(room);
    assert Iterate(Stepper(LoopingFile()), st, 0) == Some(st);
    assert Iterate(Stepper(LoopingFile()), st, 1) == Some(st);
    DifatHalting(LoopingFile(), st);
  }

  lemma LoopingStep(room: nat)
    ensures DifatNext(LoopingFile(), DifatState(0, room)) == Some(DifatState(0, room))
  {
    LoopingSector();
    hide SectorDwords;
    NothingLive(SectorDwords(LoopingFile(), 0).value[..127]);
    AssembledNone(LoopingFile());
  }

  lemma LoopingSector()
    ensures SectorDwords(LoopingFile(), 0).Some?
    ensures var d := SectorDwords(LoopingFile(), 0).value;
            d[127] == 0 && forall i | 0 <= i < 127 :: d[i] == FREE_SECTOR
  {
    var bytes := LoopingFile()[512..1024];
    assert FileSector(LoopingFile(), 0) == Some(bytes);
    forall i | 0 <= i < 127
      ensures LeDword(bytes, 4 * i) == FREE_SECTOR
    {
      assert bytes[4 * i] == 0xFF && bytes[4 * i + 1] == 0xFF && bytes[4 * i + 2] == 0xFF && bytes[4 * i + 3] == 0xFF;
    }
    assert bytes[508] == 0 && bytes[509] == 0 && bytes[510] == 0 && bytes[511] == 0;
    assert LeDwords(bytes, 0, 128)[127] == LeDword(bytes, 508);
  }

  lemma {:induction false} NothingLive(d: seq<dword>)
    requires forall i | 0 <= i < |d| :: d[i] == FREE_SECTOR
    ensures Live(d) == []
  {
    if d != [] {
      NothingLive(d[..|d| - 1]);
    }
  }

  /** Writes a sector's entries into a table at the given sector index. */
  method StoreSector(table: array<dword>, index: nat, entries: seq<dword>)
    requires |entries| == 128 && 128 * index + 128 <= table.Length
    modifies table
    ensures table[..] == old(table[..128 * index]) + entries + old(table[128 * index + 128..])
  {
    forall i | 0 <= i < 128 {
      table[128 * index + i] := entries[i];
    }
  }

  /** Reads one sector straight into the table at the given sector index, if both bounds allow. */
  method ReadInto(ole: OleFile, table: array<dword>, index: nat, sid: dword) returns (ok: bool)
    requires 128 * index <= table.Length
    modifies ole`bufferPos, table
    ensures ok <==> 128 * index + 128 <= table.Length && SectorDwords(ole.buffer, sid).Some?
    ensures ok ==> table[..] == old(table[..128 * index]) + SectorDwords(ole.buffer, sid).value
                                + old(table[128 * index + 128..])
    ensures !ok ==> table[..] == old(table[..])
  {
    var sector := ole.SectorRead(4 * table.Length - 512 * index, sid);
    if sector.None? {
      return false;
    }
    StoreSector(table, index, LeDwords(sector.value, 0, 128));
    return true;
  }

  /** The table holds the named sectors from its start, and is untouched behind them. */
  ghost predicate Filled(now: seq<dword>, before: seq<dword>, file: seq<byte>, sids: seq<dword>) {
    && |now| == |before| && 128 * |sids| <= |now|
    && Assembled(file, sids).Some?
    && now == Assembled(file, sids).value + before[128 * |sids|..]
  }

  lemma FilledNext(now: seq<dword>, before: seq<dword>, file: seq<byte>, sids: seq<dword>, sid: dword,
                   after: seq<dword>)
    requires Filled(now, before, file, sids)
    requires SectorDwords(file, sid).Some? && 128 * |sids| + 128 <= |now|
    requires after == now[..128 * |sids|] + SectorDwords(file, sid).value + now[128 * |sids| + 128..]
    ensures Filled(after, before, file, sids + [sid])
  {
    var all := sids + [sid];
    assert all[..|all| - 1] == sids;
    assert now[..128 * |sids|] == Assembled(file, sids).value;
    assert now[128 * |sids| + 128..] == before[128 * |all|..];
  }

  /** Reads one named FAT sector behind those that are in the table. */
  method ReadNamed(ole: OleFile, table: array<dword>, num: nat, s: dword,
                   ghost done: seq<dword>, ghost before: seq<dword>)
    returns (ok: bool)
    requires |done| == num && Filled(table[..], before, ole.buffer, done)
    modifies ole`bufferPos, table
    ensures ok <==> 128 * num + 128 <= table.Length && SectorDwords(ole.buffer, s).Some?
    ensures ok ==> Filled(table[..], before, ole.buffer, done + [s])
  {
    hide SectorDwords, Filled, Assembled, Loadable, Limit;
    ghost var now := table[..];
    FilledFits(now, before, ole.buffer, done, num);
    ok := ReadInto(ole, table, num, s);
    if ok {
      FilledNext(now, before, ole.buffer, done, s, table[..]);
    }
  }

  /** Reads the FAT sectors that the header names; -1 on failure, otherwise the number of bytes read. */
  method ReadMsatHeader(ole: OleFile, table: array<dword>, msat: seq<dword>, count: nat) returns (r: int)
    requires |msat| == HEADER_ENTRIES
    modifies ole`bufferPos, table
    ensures var n := Min(count, HEADER_ENTRIES);
            && (r == -1 || r == 512 * n)
            && (r == -1 <==> 128 * n > table.Length || Assembled(ole.buffer, msat[..n]).None?)
            && (r >= 0 ==> Filled(table[..], old(table[..]), ole.buffer, msat[..n]))
  {
    hide SectorDwords, Filled, Assembled, Loadable, Limit;
    ghost var before, file := table[..], ole.buffer;
    var n := Min(count, HEADER_ENTRIES);
    NoneFilled(before, file);
    assert msat[..0] == [];
    r := 0;
    for num := 0 to n
      invariant r == 512 * num
      invariant Filled(table[..], before, file, msat[..num])
    {
      ghost var done := msat[..num];
      var ok := ReadNamed(ole, table, num, msat[num], done, before);
      assert msat[..num + 1] == done + [msat[num]];
      if !ok {
        CannotFill(file, done, msat[num], msat[num + 1..n]);
        assert msat[..n] == done + [msat[num]] + msat[num + 1..n];
        return -1;
      }
      r := r + 512;
    }
    FilledFits(table[..], before, file, msat[..n], n);
  }

  lemma NoneFilled(before: seq<dword>, file: seq<byte>)
    ensures Filled(before, before, file, [])
  {
  }

  lemma FilledFits(now: seq<dword>, before: seq<dword>, file: seq<byte>, sids: seq<dword>, count: nat)
    requires Filled(now, before, file, sids) && |sids| <= count
    ensures 128 * |sids| <= |now| && Assembled(file, sids).Some? && Loadable(file, Limit(count, |now|), sids)
  {
  }

  lemma NoMoreRoom(num: nat, count: nat, length: nat)
    ensures num + 1 > Limit(count, length) <==> num >= count || 128 * num + 128 > length
  {
  }

  /** One sector that cannot be had spoils the whole list. */
  lemma CannotFill(file: seq<byte>, done: seq<dword>, sid: dword, rest: seq<dword>)
    ensures SectorDwords(file, sid).None? ==> Assembled(file, done + [sid] + rest).None?
  {
    hide SectorDwords;
    var all := done + [sid];
    assert all[|all| - 1] == sid;
    AssembledAppend(file, all, rest);
  }

  /** How many FAT sectors can be held: the header's count and the table both bound it. */
  function Limit(count: nat, length: nat): (limit: nat)
    ensures limit <= count && 128 * limit <= length
  {
    Min(count, length / 128)
  }

  /** The listed sectors can all be read and held. */
  predicate Loadable(file: seq<byte>, limit: nat, list: seq<dword>) {
    |list| <= limit && Assembled(file, list).Some?
  }

  /** The names found in one more entry of a DIFAT sector. */
  lemma LiveStep(d: seq<dword>, i: nat)
    requires i < 127 && |d| == 128
    ensures Live(d[..i + 1]) == if IsLive(d[i]) then Live(d[..i]) + [d[i]] else Live(d[..i])
    ensures Live(d[..127]) == Live(d[..i + 1]) + Live(d[i + 1..127])
  {
    assert d[..i + 1][..i] == d[..i];
    assert d[..127] == d[..i + 1] + d[i + 1..127];
    LiveAppend(d[..i + 1], d[i + 1..127]);
  }

  /** When the sector that entry i names cannot be loaded, the whole sector of names cannot. */
  lemma NotLoadable(file: seq<byte>, limit: nat, held: seq<dword>, d: seq<dword>, i: nat)
    requires i < 127 && |d| == 128 && IsLive(d[i])
    requires |held + Live(d[..i])| + 1 > limit || SectorDwords(file, d[i]).None?
    ensures !Loadable(file, limit, held + Live(d[..127]))
  {
    hide SectorDwords;
    LiveStep(d, i);
    hide Live;
    var part := held + Live(d[..i + 1]);
    assert part == held + Live(d[..i]) + [d[i]];
    assert part[|part| - 1] == d[i];
    AssembledAppend(file, part, Live(d[i + 1..127]));
    assert part + Live(d[i + 1..127]) == held + Live(d[..127]);
  }

  /**
   * Reads the FAT sectors that one DIFAT sector names, the header's and all earlier ones being in the
   * table already; returns how many the table then holds.
   */
  method ReadDifatSector(ole: OleFile, table: array<dword>, d: seq<dword>, count: nat, from: nat,
                         ghost held: seq<dword>, ghost before: seq<dword>) returns (ok: bool, num: nat)
    requires |d| == 128 && |held| == from <= count
    requires Filled(table[..], before, ole.buffer, held)
    modifies ole`bufferPos, table
    ensures var named := Live(d[..127]);
            ok <==> Loadable(ole.buffer, Limit(count, table.Length), held + named)
    ensures ok ==> num == from + |Live(d[..127])| <= count
                   && Filled(table[..], before, ole.buffer, held + Live(d[..127]))
  {
    hide Live, Filled, Loadable, Assembled, SectorDwords, IsLive, Limit;
    ghost var file := ole.buffer;
    HeldNone(held, d);
    num := from;
    ok := true;
    for i := 0 to 127
      invariant num == |held + Live(d[..i])| <= count
      invariant Filled(table[..], before, file, held + Live(d[..i]))
    {
      var s := d[i];
      HeldStep(held, d, i);
      NoMoreRoom(num, count, table.Length);
      if IsLive(s) {
        ok := num < count;
        if ok {
          ok := ReadNamed(ole, table, num, s, held + Live(d[..i]), before);
        }
        if !ok {
          NotLoadable(file, Limit(count, table.Length), held, d, i);
          return false, num;
        }
        num := num + 1;
      }
    }
    FilledFits(table[..], before, file, held + Live(d[..127]), count);
  }

  lemma HeldNone(held: seq<dword>, d: seq<dword>)
    requires |d| == 128
    ensures held + Live(d[..0]) == held
  {
  }

  lemma HeldStep(held: seq<dword>, d: seq<dword>, i: nat)
    requires i < 127 && |d| == 128
    ensures held + Live(d[..i + 1]) == if IsLive(d[i]) then held + Live(d[..i]) + [d[i]] else held + Live(d[..i])
  {
    hide Live, IsLive;
    LiveStep(d, i);
  }

  /**
   * Reads the FAT sectors that the DIFAT chain names, behind those of the header. The source loops until
   * the chain ends, so the caller must know that reading it stops (steps bounds it).
   */
  method ReadMsatBody(ole: OleFile, table: array<dword>, offset: nat, count: nat,
                      ghost held: seq<dword>, ghost before: seq<dword>, ghost steps: nat) returns (ok: bool)
    requires |held| == offset <= Limit(count, table.Length)
    requires Filled(table[..], before, ole.buffer, held)
    requires DifatScan(ole.buffer, DifatState(ole.difstart, Limit(count, table.Length) - offset), steps) != Running
    modifies ole`bufferPos, table
    ensures var scan := DifatScan(ole.buffer, DifatState(ole.difstart, Limit(count, table.Length) - offset), steps);
            && (ok <==> scan.Ended?)
            && (ok ==> Filled(table[..], before, ole.buffer, held + scan.list))
  {
    hide Live, Loadable, Filled, Assembled, DifatScan, Limit, IsLive, SectorDwords;
    var sid := ole.difstart;
    var num := offset;
    ghost var limit := Limit(count, table.Length);
    ghost var scan := DifatScan(ole.buffer, DifatState(sid, limit - offset), steps);
    ghost var done, left := held, steps;
    while IsLive(sid)
      invariant num == |done| <= limit
      invariant Filled(table[..], before, ole.buffer, done)
      invariant Behind(held, scan) == Behind(done, DifatScan(ole.buffer, DifatState(sid, limit - num), left))
      decreases left
    {
      var sector := ole.SectorRead(512, sid);
      SectorOf(ole.buffer, sid);
      if sector.None? {
        DifatBroken(ole.buffer, DifatState(sid, limit - num), left);
        return false;
      }
      var d := LeDwords(sector.value, 0, 128);
      FilledFits(table[..], before, ole.buffer, done, num);
      DifatStep(ole.buffer, sid, left, d, done, limit);
      ok, num := ReadDifatSector(ole, table, d, count, num, done, before);
      if !ok {
        return false;
      }
      WithinLimit(ole.buffer, limit, done + Live(d[..127]));
      done := done + Live(d[..127]);
      left := left - 1;
      sid := d[127];
    }
    DifatEnds(ole.buffer, DifatState(sid, limit - num), left);
    BehindTwice(done, [], Broken);
    return true;
  }

  lemma SectorOf(file: seq<byte>, sid: dword)
    ensures SectorDwords(file, sid) ==
            if FileSector(file, sid).None? then None else Some(LeDwords(FileSector(file, sid).value, 0, 128))
  {
  }

  lemma WithinLimit(file: seq<byte>, limit: nat, list: seq<dword>)
    requires Loadable(file, limit, list)
    ensures |list| <= limit
  {
  }

  lemma DifatBroken(file: seq<byte>, st: DifatState, left: nat)
    requires IsLive(st.sid) && SectorDwords(file, st.sid).None? && DifatScan(file, st, left) != Running
    ensures DifatScan(file, st, left) == Broken
  {
  }

  lemma DifatEnds(file: seq<byte>, st: DifatState, left: nat)
    requires !IsLive(st.sid)
    ensures DifatScan(file, st, left) == Ended([])
  {
  }

  /** One sector along the DIFAT chain. */
  lemma DifatStep(file: seq<byte>, sid: dword, left: nat, d: seq<dword>, done: seq<dword>, limit: nat)
    requires IsLive(sid) && SectorDwords(file, sid) == Some(d)
    requires |done| <= limit && Assembled(file, done).Some?
    requires DifatScan(file, DifatState(sid, limit - |done|), left) != Running
    ensures left > 0
    ensures var more := done + Live(d[..127]);
            var scan := Behind(done, DifatScan(file, DifatState(sid, limit - |done|), left));
            if Loadable(file, limit, more) then
              scan == Behind(more, DifatScan(file, DifatState(d[127], limit - |more|), left - 1))
            else scan == Broken
  {
    AssembledAppend(file, done, Live(d[..127]));
    var st := DifatState(sid, limit - |done|);
    if DifatNext(file, st).Some? {
      BehindTwice(done, Live(d[..127]), DifatScan(file, DifatNext(file, st).value, left - 1));
    }
  }

  /** A scan lists sectors that can be read and that fit the room there is. */
  lemma {:induction false} ScanFits(file: seq<byte>, st: DifatState, steps: nat)
    ensures var scan := DifatScan(file, st, steps); scan.Ended? ==> Loadable(file, st.room, scan.list)
    decreases steps
  {
    if IsLive(st.sid) && steps > 0 && DifatNext(file, st).Some? {
      var scan := DifatScan(file, DifatNext(file, st).value, steps - 1);
      ScanFits(file, DifatNext(file, st).value, steps - 1);
      if scan.Ended? {
        AssembledAppend(file, Live(SectorDwords(file, st.sid).value[..127]), scan.list);
      }
    }
  }
}
