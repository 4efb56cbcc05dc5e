/**
 * The password database: every account is stored three times, under its name,
 * its uid and a running number. Here is what it means that the three agree,
 * and what keeps them so.
 */
module ThreeIndexes {
  import opened Bytes
  import opened Lists

  type Record = seq<byte>

  // ---------------------------------------------------------------------------
  // One index
  // ---------------------------------------------------------------------------

  /** The map holds exactly the given records, each under its key. */
  ghost predicate Indexes<K>(m: map<K, Record>, keys: seq<K>, recs: seq<Record>) {
    && |keys| == |recs| && Distinct(keys)
    && (forall i {:trigger keys[i]} | 0 <= i < |keys| :: keys[i] in m && m[keys[i]] == recs[i])
    && (forall k | k in m :: k in keys)
  }

  lemma IndexAppend<K>(m: map<K, Record>, keys: seq<K>, recs: seq<Record>, k: K, r: Record)
    requires Indexes(m, keys, recs) && k !in keys
    ensures Indexes(m[k := r], keys + [k], recs + [r])
  {
  }

  lemma IndexUpdate<K>(m: map<K, Record>, keys: seq<K>, recs: seq<Record>, i: nat, r: Record)
    requires Indexes(m, keys, recs) && i < |keys|
    ensures Indexes(m[keys[i] := r], keys, recs[i := r])
  {
  }

  lemma IndexRename<K>(m: map<K, Record>, keys: seq<K>, recs: seq<Record>, i: nat, k: K, r: Record)
    requires Indexes(m, keys, recs) && i < |keys|
    requires forall j | 0 <= j < |keys| && j != i :: keys[j] != k
    ensures Indexes((m - {keys[i]})[k := r], keys[i := k], recs[i := r])
  {
    var after, now := (m - {keys[i]})[k := r], keys[i := k];
    forall x | x in after
      ensures x in now
    {
      if x == k {
        assert now[i] == k;
      } else {
        var j :| 0 <= j < |keys| && keys[j] == x;
        assert now[j] == x;
      }
    }
  }

  lemma IndexRemove<K>(m: map<K, Record>, keys: seq<K>, recs: seq<Record>, i: nat)
    requires Indexes(m, keys, recs) && i < |keys|
    ensures Indexes(m - {keys[i]}, Without(keys, i), Without(recs, i))
  {
    var rest := Without(keys, i);
    forall k | k in m && k != keys[i]
      ensures k in rest
    {
      var j :| 0 <= j < |keys| && keys[j] == k;
      assert rest[if j < i then j else j - 1] == k;
    }
  }

  /** An index has as many entries as there are records. */
  lemma {:induction false} IndexCount<K>(m: map<K, Record>, keys: seq<K>, recs: seq<Record>)
    requires Indexes(m, keys, recs)
    ensures |m| == |keys|
    decreases |keys|
  {
    if keys == [] {
      assert m == map[];
    } else {
      IndexRemove(m, keys, recs, 0);
      IndexCount(m - {keys[0]}, Without(keys, 0), Without(recs, 0));
      assert (m - {keys[0]}).Keys == m.Keys - {keys[0]};
    }
  }

  // ---------------------------------------------------------------------------
  // Three indexes in step
  // ---------------------------------------------------------------------------

  /**
   * The database. The tag byte of the version-4 format in front of each key keeps the three indexes apart;
   * besides them there is one entry that holds the version.
   */
  datatype Db = Db(byName: map<CString, Record>, byUid: map<dword, Record>, byNum: map<dword, Record>)

  /** The most accounts there can be, so that uids and numbers stay within an int. */
  const MOST_ACCOUNTS: nat := 0x7FFF_0000

  /** The running numbers 1 to n. */
  function Numbers(n: nat): (r: seq<dword>)
    requires n <= MOST_ACCOUNTS
    ensures |r| == n
    ensures forall i | 0 <= i < n :: r[i] == i + 1
  {
    if n == 0 then [] else Numbers(n - 1) + [n]
  }

  /** The same records under the given names, the given uids and the numbers from 1. */
  ghost predicate InStep(db: Db, names: seq<CString>, uids: seq<dword>, recs: seq<Record>) {
    && |recs| <= MOST_ACCOUNTS
    && Indexes<CString>(db.byName, names, recs)
    && Indexes<dword>(db.byUid, uids, recs)
    && Indexes<dword>(db.byNum, Numbers(|recs|), recs)
  }

  lemma Together(db: Db, names: seq<CString>, uids: seq<dword>, recs: seq<Record>, n: nat)
    requires |recs| == n <= MOST_ACCOUNTS
    requires Indexes<CString>(db.byName, names, recs) && Indexes<dword>(db.byUid, uids, recs)
    requires Indexes<dword>(db.byNum, Numbers(n), recs)
    ensures InStep(db, names, uids, recs)
  {
  }

  lemma InStepCounts(db: Db, names: seq<CString>, uids: seq<dword>, recs: seq<Record>)
    requires InStep(db, names, uids, recs)
    ensures |names| == |uids| == |recs| <= MOST_ACCOUNTS
  {
  }

  /** The database after a record is written under its three keys. */
  function Written(db: Db, name: CString, uid: dword, num: dword, r: Record): Db {
    Db(db.byName[name := r], db.byUid[uid := r], db.byNum[num := r])
  }

  /** A new name and a new uid under the next number keep the indexes in step. */
  lemma AddInStep(db: Db, names: seq<CString>, uids: seq<dword>, recs: seq<Record>,
                  name: CString, uid: dword, r: Record)
    requires InStep(db, names, uids, recs) && |recs| < MOST_ACCOUNTS
    requires name !in names && uid !in uids
    ensures InStep(Written(db, name, uid, |recs| + 1, r), names + [name], uids + [uid], recs + [r])
  {
    IndexAppend<CString>(db.byName, names, recs, name, r);
    IndexAppend<dword>(db.byUid, uids, recs, uid, r);
    IndexAppend<dword>(db.byNum, Numbers(|recs|), recs, (|recs| + 1) as dword, r);
  }

  /** The database after record k is rewritten: its old name is deleted, then the new record is written. */
  function Rewritten(db: Db, oldName: CString, name: CString, uid: dword, num: dword, r: Record): Db {
    Written(db.(byName := db.byName - {oldName}), name, uid, num, r)
  }

  /** Rewriting a record under its uid and number, and under a name no other has, keeps the indexes in step. */
  lemma SetInStep(db: Db, names: seq<CString>, uids: seq<dword>, recs: seq<Record>, k: nat, name: CString, r: Record)
    requires InStep(db, names, uids, recs) && k < |recs|
    requires forall j | 0 <= j < |names| && j != k :: names[j] != name
    ensures InStep(Rewritten(db, names[k], name, uids[k], k + 1, r), names[k := name], uids, recs[k := r])
  {
    IndexRename<CString>(db.byName, names, recs, k, name, r);
    IndexUpdate<dword>(db.byUid, uids, recs, k, r);
    IndexUpdate<dword>(db.byNum, Numbers(|recs|), recs, k, r);
  }

  /** Record i is stored under each of its keys. */
  lemma InStepAt(db: Db, names: seq<CString>, uids: seq<dword>, recs: seq<Record>, i: nat)
    requires InStep(db, names, uids, recs) && i < |recs|
    ensures (i + 1) as dword in db.byNum && db.byNum[(i + 1) as dword] == recs[i]
    ensures names[i] in db.byName && db.byName[names[i]] == recs[i]
    ensures uids[i] in db.byUid && db.byUid[uids[i]] == recs[i]
  {
    assert Numbers(|recs|)[i] == i + 1;
  }

  /** The records are determined by the database. */
  lemma RecordsAreUnique(db: Db, names: seq<CString>, uids: seq<dword>, recs: seq<Record>,
                         names': seq<CString>, uids': seq<dword>, recs': seq<Record>)
    requires InStep(db, names, uids, recs) && InStep(db, names', uids', recs')
    ensures recs == recs'
  {
    IndexCount<dword>(db.byNum, Numbers(|recs|), recs);
    IndexCount<dword>(db.byNum, Numbers(|recs'|), recs');
    forall i | 0 <= i < |recs|
      ensures recs[i] == recs'[i]
    {
      assert Numbers(|recs|)[i] == i + 1 && Numbers(|recs'|)[i] == i + 1;
    }
  }

  /** All entries of the database: those of the three indexes, and the version. */
  function Entries(db: Db): nat {
    |db.byName| + |db.byUid| + |db.byNum| + 1
  }

  /** Counting all entries and dividing by three counts the records. */
  lemma EntryCount(db: Db, names: seq<CString>, uids: seq<dword>, recs: seq<Record>)
    requires InStep(db, names, uids, recs)
    ensures Entries(db) == 3 * |recs| + 1 && Entries(db) / 3 == |recs|
  {
    IndexCount<CString>(db.byName, names, recs);
    IndexCount<dword>(db.byUid, uids, recs);
    IndexCount<dword>(db.byNum, Numbers(|recs|), recs);
  }

  /** A number is in use exactly when it is from 1 to the number of records. */
  lemma NumbersInUse(db: Db, names: seq<CString>, uids: seq<dword>, recs: seq<Record>, j: dword)
    requires InStep(db, names, uids, recs)
    ensures j in db.byNum <==> 1 <= j <= |recs|
    ensures 1 <= j <= |recs| ==> db.byNum[j] == recs[j - 1]
  {
    if 1 <= j <= |recs| {
      assert Numbers(|recs|)[j - 1] == j;
    }
  }

  // ---------------------------------------------------------------------------
  // Closing the gap that a deletion leaves in the numbers
  // ---------------------------------------------------------------------------

  /**
   * Deletion under way: record k is gone from the number index and the records behind it have moved down as
   * far as number gap; what the index holds under gap itself, if anything, no longer matters.
   */
  ghost predicate Closing(byNum: map<dword, Record>, recs: seq<Record>, k: nat, gap: nat) {
    && k < gap <= |recs| <= MOST_ACCOUNTS
    && Indexes<dword>(byNum - {gap as dword}, Without(Numbers(|recs|), gap - 1), Without(recs, k))
  }

  /** Deleting the number of record k opens the gap there. */
  lemma ClosingStarts(byNum: map<dword, Record>, recs: seq<Record>, k: nat)
    requires |recs| <= MOST_ACCOUNTS && k < |recs|
    requires Indexes<dword>(byNum, Numbers(|recs|), recs)
    ensures Closing(byNum - {(k + 1) as dword}, recs, k, k + 1)
  {
    IndexRemove<dword>(byNum, Numbers(|recs|), recs, k);
    var gap := {(k + 1) as dword};
    assert byNum - gap - gap == byNum - gap;
  }

  /** There is a record behind the gap exactly when its number is in use. */
  lemma BehindTheGap(byNum: map<dword, Record>, recs: seq<Record>, k: nat, gap: nat)
    requires Closing(byNum, recs, k, gap)
    ensures (gap + 1) as dword in byNum <==> gap < |recs|
    ensures gap < |recs| ==> byNum[(gap + 1) as dword] == recs[gap]
  {
    var keys := Without(Numbers(|recs|), gap - 1);
    assert (gap + 1) as dword in byNum <==> (gap + 1) as dword in byNum - {gap as dword};
    if gap < |recs| {
      assert keys[gap - 1] == gap + 1 && Without(recs, k)[gap - 1] == recs[gap];
    } else {
      assert (gap + 1) as dword !in keys;
    }
  }

  /** The record behind the gap moves down into it. */
  lemma ClosingGoesOn(byNum: map<dword, Record>, recs: seq<Record>, k: nat, gap: nat)
    requires Closing(byNum, recs, k, gap) && gap < |recs|
    ensures Closing(byNum[gap as dword := recs[gap]], recs, k, gap + 1)
  {
    hide Indexes;
    var here, next: dword := gap, gap + 1;
    var keys, rest := Without(Numbers(|recs|), gap - 1), Without(recs, k);
    assert keys[gap - 1] == next && rest[gap - 1] == recs[gap];
    IndexRename<dword>(byNum - {here}, keys, rest, gap - 1, here, recs[gap]);
    assert keys[gap - 1 := here] == Without(Numbers(|recs|), gap);
    assert rest[gap - 1 := recs[gap]] == rest;
    assert byNum[here := recs[gap]] - {next} == (byNum - {here} - {next})[here := recs[gap]];
  }

  /** Past the last record the gap is at the end. */
  lemma ClosingEnds(byNum: map<dword, Record>, recs: seq<Record>, k: nat)
    requires Closing(byNum, recs, k, |recs|)
    ensures Indexes<dword>(byNum - {|recs| as dword}, Numbers(|recs| - 1), Without(recs, k))
  {
    assert Without(Numbers(|recs|), |recs| - 1) == Numbers(|recs| - 1);
  }

  /** A record taken out of all three indexes. */
  lemma DeleteInStep(db: Db, names: seq<CString>, uids: seq<dword>, recs: seq<Record>, k: nat,
                     byNum: map<dword, Record>)
    requires InStep(db, names, uids, recs) && k < |recs|
    requires Indexes<dword>(byNum, Numbers(|recs| - 1), Without(recs, k))
    ensures InStep(Db(db.byName - {names[k]}, db.byUid - {uids[k]}, byNum),
                   Without(names, k), Without(uids, k), Without(recs, k))
  {
    hide Indexes, Without, Numbers;
    InStepCounts(db, names, uids, recs);
    IndexRemove<CString>(db.byName, names, recs, k);
    IndexRemove<dword>(db.byUid, uids, recs, k);
    Together(Db(db.byName - {names[k]}, db.byUid - {uids[k]}, byNum),
             Without(names, k), Without(uids, k), Without(recs, k), |recs| - 1);
  }
}
