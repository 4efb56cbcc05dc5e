/**
 * Chains of sectors in an allocation table: which chains the reader accepts
 * before it opens a stream on them.
 */
module SectorChain {
  import opened Bytes
  import opened Iteration

  /** Marks the last sector of a chain. */
  const END_OF_CHAIN: dword := 0xFFFF_FFFE

  /** Marks a sector that is not in use. */
  const FREE_SECTOR: dword := 0xFFFF_FFFF

  /** The sector that follows the first i sectors of c in the table; start for i == 0. */
  function Link(table: seq<dword>, start: dword, c: seq<dword>, i: nat): (s: dword)
    requires i <= |c|
  {
    if i == 0 then start
    else if c[i - 1] < |table| then table[c[i - 1]]
    else FREE_SECTOR
  }

  /** c lists sectors met by following the table from start: all of them in range, none an end mark. */
  ghost predicate IsWalk(table: seq<dword>, start: dword, c: seq<dword>) {
    forall i {:trigger Link(table, start, c, i)} | 0 <= i < |c| ::
      c[i] == Link(table, start, c, i) && c[i] < |table| && c[i] != END_OF_CHAIN
  }

  /** c is the whole chain of start: a walk that arrives at the end mark. */
  ghost predicate IsChain(table: seq<dword>, start: dword, c: seq<dword>) {
    && IsWalk(table, start, c)
    && Link(table, start, c, |c|) == END_OF_CHAIN
  }

  /** What the validator promises to its caller. */
  ghost predicate Accepted(table: seq<dword>, start: dword) {
    exists c :: IsChain(table, start, c) && (|c| == 0 || |c| < |table|)
  }

  /** Two walks from one start agree as long as both last. */
  lemma {:induction false} WalksAgree(table: seq<dword>, start: dword, c: seq<dword>, d: seq<dword>)
    requires IsWalk(table, start, c) && IsWalk(table, start, d)
    requires |c| <= |d|
    ensures c == d[..|c|]
  {
    if c != [] {
      var n := |c| - 1;
      forall i | 0 <= i < n
        ensures c[i] == Link(table, start, c[..n], i) && c[i] < |table| && c[i] != END_OF_CHAIN
      {
        assert c[i] == Link(table, start, c, i);
      }
      WalksAgree(table, start, c[..n], d);
      assert c[n] == Link(table, start, c, n) == Link(table, start, d, n) == d[n];
    }
  }

  /** Inside a walk the next sector is always another sector of the table. */
  lemma WalkGoesOn(table: seq<dword>, start: dword, d: seq<dword>, i: nat)
    requires IsWalk(table, start, d) && i < |d|
    ensures Link(table, start, d[..i], i) == d[i]
    ensures d[i] < |table| && d[i] != END_OF_CHAIN
  {
    assert d[i] == Link(table, start, d, i);
  }

  /** Every walk from start is a prefix of the chain of start. */
  lemma WalkInsideChain(table: seq<dword>, start: dword, c: seq<dword>, d: seq<dword>)
    requires IsChain(table, start, c) && IsWalk(table, start, d)
    ensures |d| <= |c| && d == c[..|d|]
  {
    if |d| <= |c| {
      WalksAgree(table, start, d, c);
    } else {
      WalkGoesOn(table, start, d, |c|);
      WalksAgree(table, start, c, d);
    }
  }

  lemma ChainIsUnique(table: seq<dword>, start: dword, c: seq<dword>, d: seq<dword>)
    requires IsChain(table, start, c) && IsChain(table, start, d)
    ensures c == d
  {
    WalkInsideChain(table, start, c, d);
    WalkInsideChain(table, start, d, c);
  }

  /** After a repeated sector a walk repeats for ever, k steps on as well. */
  lemma {:induction false} RepeatsGoOn(table: seq<dword>, start: dword, c: seq<dword>, i: nat, j: nat, k: nat)
    requires IsChain(table, start, c)
    requires i < j && j + k < |c| && c[i] == c[j]
    ensures c[i + k] == c[j + k]
  {
    if k > 0 {
      RepeatsGoOn(table, start, c, i, j, k - 1);
      assert c[i + k] == Link(table, start, c, i + k);
      assert c[j + k] == Link(table, start, c, j + k);
    }
  }

  /** A chain that ends visits every sector at most once. */
  lemma ChainIsDistinct(table: seq<dword>, start: dword, c: seq<dword>)
    requires IsChain(table, start, c)
    ensures forall i | 0 <= i < |c| :: c[i] < |table|
    ensures forall i, j | 0 <= i < j < |c| :: c[i] != c[j]
  {
    forall i | 0 <= i < |c|
      ensures c[i] < |table|
    {
      WalkGoesOn(table, start, c, i);
    }
    forall i, j | 0 <= i < j < |c|
      ensures c[i] != c[j]
    {
      var k := |c| - 1 - j;
      WalkGoesOn(table, start, c, i + k + 1);
      if c[i] == c[j] {
        RepeatsGoOn(table, start, c, i, j, k);
      }
    }
  }

  /**
   * The chains that end are exactly the accepted ones and those that use up every entry of the
   * table; and a chain that ends never has more sectors than the table.
   */
  lemma EndingChainAccepted(table: seq<dword>, start: dword, c: seq<dword>)
    requires IsChain(table, start, c)
    ensures |c| <= |table|
    ensures Accepted(table, start) <==> |c| == 0 || |c| != |table|
  {
    ChainIsDistinct(table, start, c);
    DistinctBelow(c, |table|);
    if Accepted(table, start) {
      var d :| IsChain(table, start, d) && (|d| == 0 || |d| < |table|);
      ChainIsUnique(table, start, c, d);
    }
  }

  /** Tells whether start heads a chain that a stream may be opened on. */
  method ValidateSectorChain(table: seq<dword>, start: dword) returns (ok: bool, ghost chain: seq<dword>)
    ensures ok <==> Accepted(table, start)
    ensures ok ==> IsChain(table, start, chain) && (|chain| == 0 || |chain| < |table|)
    ensures ok ==> forall i, j | 0 <= i < j < |chain| :: chain[i] != chain[j]
  {
    var count := 0;
    var sector := start;
    chain := [];
    while sector != END_OF_CHAIN
      invariant count == |chain|
      invariant IsWalk(table, start, chain)
      invariant sector == Link(table, start, chain, |chain|)
      invariant |chain| == 0 || |chain| < |table|
      decreases |table| - count
    {
      if sector >= |table| {
        NotAccepted(table, start, chain, sector);
        return false, chain;
      }
      count := count + 1;
      if count >= |table| {
        NotAccepted(table, start, chain, sector);
        return false, chain;
      }
      ghost var walked := chain;
      chain := chain + [sector];
      forall i | 0 <= i < |chain|
        ensures chain[i] == Link(table, start, chain, i) && chain[i] < |table| && chain[i] != END_OF_CHAIN
      {
        assert i < |walked| ==> walked[i] == Link(table, start, walked, i);
      }
      sector := table[sector];
    }
    ChainIsDistinct(table, start, chain);
    return true, chain;
  }

  /** A walk that runs out of the table, or has met as many sectors as the table holds, is refused. */
  lemma NotAccepted(table: seq<dword>, start: dword, c: seq<dword>, sector: dword)
    requires IsWalk(table, start, c)
    requires sector == Link(table, start, c, |c|) != END_OF_CHAIN
    requires sector >= |table| || |c| + 1 >= |table|
    ensures !Accepted(table, start)
  {
    if Accepted(table, start) {
      var d :| IsChain(table, start, d) && (|d| == 0 || |d| < |table|);
      WalkInsideChain(table, start, d, c);
      if |c| < |d| {
        WalkGoesOn(table, start, d, |c|);
      }
    }
  }
}
