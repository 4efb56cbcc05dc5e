/** The accounts a password database holds, and when an operation leaves its three indexes in step. */
module Accounts {
  import opened Bytes
  import opened AccountRecord
  import opened Lists
  import opened ThreeIndexes

  function Names(accts: seq<Account>): (r: seq<CString>)
    ensures |r| == |accts|
  {
    Map((a: Account) => a.name, accts)
  }

  function Uids(accts: seq<Account>): (r: seq<dword>)
    ensures |r| == |accts|
  {
    Map((a: Account) => a.uid, accts)
  }

  function Records(accts: seq<Account>): (r: seq<Record>)
    ensures |r| == |accts|
  {
    Map(Encode, accts)
  }

  /** The database holds exactly these accounts, numbered from 1, the same record under all three keys. */
  ghost predicate Agrees(db: Db, accts: seq<Account>) {
    InStep(db, Names(accts), Uids(accts), Records(accts))
  }

  lemma EncodeInjective(a: Account, b: Account)
    requires Encode(a) == Encode(b)
    ensures a == b
  {
    RecordRoundTrip(a);
    RecordRoundTrip(b);
  }

  /** The accounts are determined by the database. */
  lemma AccountsAreUnique(db: Db, a: seq<Account>, b: seq<Account>)
    requires Agrees(db, a) && Agrees(db, b)
    ensures a == b
  {
    RecordsAreUnique(db, Names(a), Uids(a), Records(a), Names(b), Uids(b), Records(b));
    assert |a| == |b|;
    forall i | 0 <= i < |a|
      ensures a[i] == b[i]
    {
      assert Records(a)[i] == Records(b)[i];
      EncodeInjective(a[i], b[i]);
    }
  }

  lemma FieldsAt(accts: seq<Account>, i: nat)
    requires i < |accts|
    ensures Names(accts)[i] == accts[i].name && Uids(accts)[i] == accts[i].uid && Records(accts)[i] == Encode(accts[i])
  {
  }

  /** The fields of a longer, an updated and a shorter list of accounts. */
  lemma FieldsAppend(accts: seq<Account>, a: Account)
    ensures Names(accts + [a]) == Names(accts) + [a.name] && Uids(accts + [a]) == Uids(accts) + [a.uid]
    ensures Records(accts + [a]) == Records(accts) + [Encode(a)]
  {
    hide Encode;
    MapAppend((b: Account) => b.name, accts, a);
    MapAppend((b: Account) => b.uid, accts, a);
    MapAppend(Encode, accts, a);
  }

  lemma FieldsUpdate(accts: seq<Account>, k: nat, a: Account)
    requires k < |accts|
    ensures Names(accts[k := a]) == Names(accts)[k := a.name] && Uids(accts[k := a]) == Uids(accts)[k := a.uid]
    ensures Records(accts[k := a]) == Records(accts)[k := Encode(a)]
  {
    hide Encode;
    MapUpdate((b: Account) => b.name, accts, k, a);
    MapUpdate((b: Account) => b.uid, accts, k, a);
    MapUpdate(Encode, accts, k, a);
  }

  lemma FieldsWithout(accts: seq<Account>, k: nat)
    requires k < |accts|
    ensures Names(Without(accts, k)) == Without(Names(accts), k)
    ensures Uids(Without(accts, k)) == Without(Uids(accts), k)
    ensures Records(Without(accts, k)) == Without(Records(accts), k)
  {
    hide Encode;
    MapWithout((b: Account) => b.name, accts, k);
    MapWithout((b: Account) => b.uid, accts, k);
    MapWithout(Encode, accts, k);
  }

  /** Account i is stored under each of its keys. */
  lemma StoredThrice(db: Db, accts: seq<Account>, i: nat)
    requires Agrees(db, accts) && i < |accts| <= MOST_ACCOUNTS
    ensures (i + 1) as dword in db.byNum && db.byNum[(i + 1) as dword] == Encode(accts[i])
    ensures accts[i].name in db.byName && db.byName[accts[i].name] == Encode(accts[i])
    ensures accts[i].uid in db.byUid && db.byUid[accts[i].uid] == Encode(accts[i])
  {
    InStepAt(db, Names(accts), Uids(accts), Records(accts), i);
    FieldsAt(accts, i);
  }

  lemma DistinctKeys(db: Db, accts: seq<Account>)
    requires Agrees(db, accts)
    ensures |accts| <= MOST_ACCOUNTS && Distinct(Names(accts)) && Distinct(Uids(accts))
  {
  }

  /** No two accounts share a name or a uid. */
  lemma NoneShared(db: Db, accts: seq<Account>, i: nat, j: nat)
    requires Agrees(db, accts) && i < |accts| && j < |accts| && i != j
    ensures accts[i].name != accts[j].name && accts[i].uid != accts[j].uid
  {
    FieldsAt(accts, i);
    FieldsAt(accts, j);
  }

  /** Two numbers with records of one name: no list of accounts agrees with that. */
  lemma DoubleName(db: Db, accts: seq<Account>, i: dword, j: dword, a: Account, b: Account)
    requires 1 <= i < j && a.name == b.name
    requires i in db.byNum && db.byNum[i] == Encode(a)
    requires j in db.byNum && db.byNum[j] == Encode(b)
    ensures !Agrees(db, accts)
  {
    hide Encode, InStep, Names, Uids, Records;
    if Agrees(db, accts) {
      NumbersInUse(db, Names(accts), Uids(accts), Records(accts), i);
      NumbersInUse(db, Names(accts), Uids(accts), Records(accts), j);
      FieldsAt(accts, i - 1);
      FieldsAt(accts, j - 1);
      EncodeInjective(accts[i - 1], a);
      EncodeInjective(accts[j - 1], b);
      NoneShared(db, accts, i - 1, j - 1);
    }
  }

  /** An account under a free name and a free uid and the next number: the indexes stay in step. */
  lemma AddAgrees(db: Db, accts: seq<Account>, a: Account)
    requires Agrees(db, accts) && |accts| < MOST_ACCOUNTS
    requires a.name !in Names(accts) && a.uid !in Uids(accts)
    ensures Agrees(Written(db, a.name, a.uid, |accts| + 1, Encode(a)), accts + [a])
  {
    hide Encode, InStep, Names, Uids, Records;
    InStepCounts(db, Names(accts), Uids(accts), Records(accts));
    AddInStep(db, Names(accts), Uids(accts), Records(accts), a.name, a.uid, Encode(a));
    FieldsAppend(accts, a);
  }

  /** Under a name that is taken they fall out of step: no list of accounts agrees with the outcome. */
  lemma AddDisagrees(db: Db, accts: seq<Account>, a: Account, other: seq<Account>)
    requires Agrees(db, accts) && |accts| < MOST_ACCOUNTS && a.name in Names(accts)
    ensures !Agrees(Written(db, a.name, a.uid, |accts| + 1, Encode(a)), other)
  {
    hide Encode, Agrees, Names;
    var i :| 0 <= i < |accts| && Names(accts)[i] == a.name;
    FieldsAt(accts, i);
    StoredThrice(db, accts, i);
    DoubleName(Written(db, a.name, a.uid, |accts| + 1, Encode(a)), other, i + 1, |accts| + 1, accts[i], a);
  }

  /** An account rewritten under a name that no other account has: the indexes stay in step. */
  lemma SetAgrees(db: Db, accts: seq<Account>, k: nat, a: Account)
    requires Agrees(db, accts) && k < |accts| <= MOST_ACCOUNTS && a.uid == accts[k].uid
    requires forall j | 0 <= j < |accts| && j != k :: accts[j].name != a.name
    ensures Agrees(Rewritten(db, accts[k].name, a.name, a.uid, k + 1, Encode(a)), accts[k := a])
  {
    hide Encode, InStep, Names, Uids, Records;
    var names := Names(accts);
    forall j | 0 <= j < |names| && j != k
      ensures names[j] != a.name
    {
      FieldsAt(accts, j);
    }
    FieldsAt(accts, k);
    SetInStep(db, names, Uids(accts), Records(accts), k, a.name, Encode(a));
    FieldsUpdate(accts, k, a);
    assert Uids(accts)[k := a.uid] == Uids(accts);
  }

  /** Rewritten under another account's name, it puts them out of step. */
  lemma SetDisagrees(db: Db, accts: seq<Account>, k: nat, a: Account, j: nat, other: seq<Account>)
    requires Agrees(db, accts) && k < |accts| <= MOST_ACCOUNTS && a.uid == accts[k].uid
    requires j < |accts| && j != k && accts[j].name == a.name
    ensures !Agrees(Rewritten(db, accts[k].name, a.name, a.uid, k + 1, Encode(a)), other)
  {
    hide Encode, Agrees;
    var after := Rewritten(db, accts[k].name, a.name, a.uid, k + 1, Encode(a));
    StoredThrice(db, accts, j);
    if j < k {
      DoubleName(after, other, j + 1, k + 1, accts[j], a);
    } else {
      DoubleName(after, other, k + 1, j + 1, a, accts[j]);
    }
  }

  /** An account taken out: those behind it move down by one, in order. */
  lemma DeleteAgrees(db: Db, accts: seq<Account>, k: nat, byNum: map<dword, Record>)
    requires Agrees(db, accts) && k < |accts| <= MOST_ACCOUNTS
    requires Indexes<dword>(byNum, Numbers(|accts| - 1), Without(Records(accts), k))
    ensures Agrees(Db(db.byName - {accts[k].name}, db.byUid - {accts[k].uid}, byNum), Without(accts, k))
  {
    hide Encode, InStep, Indexes, Numbers, Without, Names, Uids, Records;
    DeleteInStep(db, Names(accts), Uids(accts), Records(accts), k, byNum);
    FieldsWithout(accts, k);
    FieldsAt(accts, k);
  }
}
