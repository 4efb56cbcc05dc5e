/** The account operations as they work on the database and on the store of login hashes. */
module PasswordDb {
  import opened Bytes
  import opened AccountRecord
  import opened Lists
  import opened RecordBuffer
  import opened ThreeIndexes
  import opened Accounts
  import opened Sessions

  /** A search key: the running number, the uid or the name. */
  datatype Find = ByNum(num: int) | ByUid(uid: int) | ByName(name: CString)

  const HASH_LENGTH: nat := 64

  /** An account as callers see it: not at all when its uid is outside the visible range. */
  function Shown(cfg: Config, a: Account): Option<Account> {
    if Visible(cfg, a.uid) then Some(a) else None
  }

  /** Where a search key leads. */
  function Sought(cfg: Config, accts: seq<Account>, find: Find): (r: Option<nat>)
    ensures r.Some? ==> r.value < |accts|
  {
    match find
    case ByNum(num) =>
      var j := Unsigned32(num);
      if 1 <= j <= |accts| then Some(j - 1) else None
    case ByUid(uid) => if Visible(cfg, uid) then IndexOf(Uids(accts), uid) else None
    case ByName(name) => IndexOf(Names(accts), name)
  }

  /** The answer of get: None when there is no record, Some(None) when there is one that is not shown. */
  function Look(cfg: Config, accts: seq<Account>, find: Find): Option<Option<Account>> {
    var i :- Sought(cfg, accts, find);
    Some(Shown(cfg, accts[i]))
  }

  /** Without the password. */
  function Public(found: Option<Option<Account>>): Option<Option<Account>> {
    if found.Some? && found.value.Some? then Some(Some(found.value.value.(pwd := []))) else found
  }

  /** The visible accounts, in order and without passwords; uid 65533 is visible but not listed. */
  function Listed(cfg: Config, accts: seq<Account>): seq<Account> {
    if accts == [] then []
    else
      var n := |accts| - 1;
      Listed(cfg, accts[..n])
      + if cfg.start <= accts[n].uid < LAST_UID then [accts[n].(pwd := [])] else []
  }

  /** Exactly the accounts from the start to uid 65532 are listed, and none shows its password. */
  lemma {:induction false} ListedExactly(cfg: Config, accts: seq<Account>, a: Account)
    ensures a in Listed(cfg, accts) <==>
            exists i :: 0 <= i < |accts| && cfg.start <= accts[i].uid < LAST_UID && a == accts[i].(pwd := [])
  {
    if accts != [] {
      var n := |accts| - 1;
      ListedExactly(cfg, accts[..n], a);
      if i :| 0 <= i < |accts| && cfg.start <= accts[i].uid < LAST_UID && a == accts[i].(pwd := []) {
        assert i < n ==> accts[..n][i] == accts[i];
      }
    }
  }

  /** The strings fit the buffers of write and of the key. */
  predicate Fits(f: Form) {
    |f.name| < KEY_ROOM && Room(Made(f, 0)) <= RECORD_ROOM
  }

  /** The database holds the accounts of the state, and the hash store its sessions. */
  ghost predicate Holds(db: Db, hashes: map<Hash, dword>, st: State) {
    Agrees(db, st.accts) && hashes == st.hashes
  }

  /**
   * What a caller of an operation must heed: texts fit the buffers, an update names a visible account, and no
   * account is given the name of another.
   */
  ghost predicate Proper(cfg: Config, st: State, op: Op) {
    && NamesApart(cfg, st, op)
    && match op
       case Login(name, pwd, token) => true
       case Add(hash, form, wanted) => Fits(form) && |st.accts| < MOST_ACCOUNTS
       case Set(hash, uid, patch) =>
         Authorised(cfg, st, hash) ==>
           var i := Place(cfg, st.accts, uid);
           i.Some? && Fits(Patched(st.accts[i.value], patch))
       case Delete(hash, uid) => uid < SIZE_T - 1
  }

  ghost predicate AllProper(cfg: Config, st: State, ops: seq<Op>) {
    forall i | 0 <= i < |ops| :: Proper(cfg, Before(cfg, st, ops, i), ops[i])
  }

  // ---------------------------------------------------------------------------
  // Where names come to be shared
  // ---------------------------------------------------------------------------

  /** An account of which only name and uid matter. */
  function Bare(name: CString, uid: dword): Account {
    Account(name, [], uid, 0, 0, [], [], [], [], 0)
  }

  /** A database with two accounts, and a live hash for the second one. */
  lemma TwoAccounts(cfg: Config, a: Account, b: Account, hash: Hash) returns (db: Db, st: State)
    requires a.name != b.name && a.uid != b.uid && Visible(cfg, b.uid)
    ensures st == State([a, b], map[hash := b.uid])
    ensures Holds(db, st.hashes, st) && Safe(cfg, st) && Authorised(cfg, st, hash)
  {
    hide Agrees, Encode, Names, Uids, Safe, Written;
    var empty := Db(map[], map[], map[]);
    EmptyAgrees();
    FieldsAppend([], a);
    AddAgrees(empty, [], a);
    assert [] + [a] == [a] && [a] + [b] == [a, b];
    var one := Written(empty, a.name, a.uid, 1, Encode(a));
    FieldsAppend([a], b);
    AddAgrees(one, [a], b);
    db, st := Written(one, b.name, b.uid, 2, Encode(b)), State([a, b], map[hash := b.uid]);
    TwoAreSafe(cfg, a, b, hash);
    SmallUid(b.uid);
  }

  lemma EmptyAgrees()
    ensures Agrees(Db(map[], map[], map[]), [])
    ensures Names([]) == [] && Uids([]) == []
  {
  }

  lemma TwoAreSafe(cfg: Config, a: Account, b: Account, hash: Hash)
    requires a.name != b.name && a.uid != b.uid && Visible(cfg, b.uid)
    ensures Safe(cfg, State([a, b], map[hash := b.uid]))
  {
    hide Names, Uids;
    FieldsAt([a, b], 0);
    FieldsAt([a, b], 1);
    assert Uids([a, b])[1] in Uids([a, b]);
  }

  /** An account with uid 0 is hidden, so adding one with its name is not refused: two accounts share the name. */
  lemma HiddenNameExample(crypt: (CString, CString) -> CString) returns (cfg: Config, db: Db, st: State, op: Op)
    ensures Holds(db, st.hashes, st) && Safe(cfg, st)
    ensures op.Add? && Step(cfg, st, op).Some? && !NamesApart(cfg, st, op)
  {
    hide Holds, Safe, Names, NewUid, Made, Authorised;
    cfg := Config(1000, crypt);
    var root, user := Bare([114], 0), Bare([97], 1000);
    db, st := TwoAccounts(cfg, root, user, [1]);
    op := Add([1], Form([114], [], 0, [], [], [], [], 0, 0), 1001);
    FieldsAt(st.accts, 0);
    assert Names(st.accts)[0] == [114];
    assert !Taken(cfg, st.accts, [114]);
  }

  /** An update may give an account the empty name that another one has. */
  lemma EmptyNameExample(crypt: (CString, CString) -> CString) returns (cfg: Config, db: Db, st: State, op: Op)
    ensures Holds(db, st.hashes, st) && Safe(cfg, st)
    ensures op.Set? && Step(cfg, st, op).Some? && !NamesApart(cfg, st, op)
  {
    hide Holds, Safe, Uids, IndexOf, Made, Authorised;
    cfg := Config(1000, crypt);
    var nameless, user := Bare([], 1001), Bare([97], 1000);
    db, st := TwoAccounts(cfg, nameless, user, [1]);
    op := Set([1], 1000, Patch(Some([]), None, -1, None, None, None, None, -1, -1));
    FieldsAt(st.accts, 0);
    FieldsAt(st.accts, 1);
    assert Place(cfg, st.accts, 1000) == Some(1);
    assert st.accts[0].name == Patched(st.accts[1], op.patch).name;
  }

  // ---------------------------------------------------------------------------
  // Looking up
  // ---------------------------------------------------------------------------

  /** The record stored under a key. */
  function Stored(db: Db, find: Find): Option<Record> {
    match find
    case ByNum(num) =>
      var j := Unsigned32(num);
      if j in db.byNum then Some(db.byNum[j]) else None
    case ByUid(uid) =>
      var u := Unsigned32(uid);
      if u in db.byUid then Some(db.byUid[u]) else None
    case ByName(name) => if name in db.byName then Some(db.byName[name]) else None
  }

  lemma KeysInUse(db: Db, names: seq<CString>, uids: seq<dword>, recs: seq<Record>, name: CString, uid: dword)
    requires InStep(db, names, uids, recs)
    ensures name in db.byName <==> name in names
    ensures uid in db.byUid <==> uid in uids
  {
  }

  /** Each of the three keys leads to the record of the account it belongs to. */
  lemma StoredIsSought(cfg: Config, db: Db, accts: seq<Account>, find: Find)
    requires Agrees(db, accts) && |accts| <= MOST_ACCOUNTS
    requires find.ByUid? ==> Visible(cfg, find.uid)
    ensures match Sought(cfg, accts, find)
            case None => Stored(db, find).None?
            case Some(i) => Stored(db, find) == Some(Encode(accts[i]))
  {
    hide Encode, InStep;
    match find
    case ByNum(num) =>
      NumbersInUse(db, Names(accts), Uids(accts), Records(accts), Unsigned32(num));
      if 1 <= Unsigned32(num) <= |accts| {
        FieldsAt(accts, Unsigned32(num) - 1);
      }
    case ByUid(uid) =>
      KeysInUse(db, Names(accts), Uids(accts), Records(accts), [], uid);
      if uid in Uids(accts) {
        StoredThrice(db, accts, IndexOf(Uids(accts), uid).value);
        FieldsAt(accts, IndexOf(Uids(accts), uid).value);
      }
    case ByName(name) =>
      KeysInUse(db, Names(accts), Uids(accts), Records(accts), name, 0);
      if name in Names(accts) {
        StoredThrice(db, accts, IndexOf(Names(accts), name).value);
        FieldsAt(accts, IndexOf(Names(accts), name).value);
      }
  }

  /** An account found under any of its keys is the account itself. */
  lemma FoundUnderEachKey(cfg: Config, db: Db, accts: seq<Account>, i: nat)
    requires Agrees(db, accts) && i < |accts| <= MOST_ACCOUNTS && Visible(cfg, accts[i].uid)
    ensures Look(cfg, accts, ByNum(i + 1)) == Some(Some(accts[i]))
    ensures Look(cfg, accts, ByUid(accts[i].uid)) == Some(Some(accts[i]))
    ensures Look(cfg, accts, ByName(accts[i].name)) == Some(Some(accts[i]))
  {
    hide Names, Uids, IndexOf, Agrees, Encode;
    DistinctKeys(db, accts);
    FieldsAt(accts, i);
    IndexOfDistinct(Names(accts), i);
    IndexOfDistinct(Uids(accts), i);
    SmallNumber(i + 1);
  }

  lemma SmallNumber(n: nat)
    requires n < 0x8000_0000
    ensures Unsigned32(n) == n
  {
  }

  // ---------------------------------------------------------------------------
  // The module's state and its operations
  // ---------------------------------------------------------------------------

  class Spwd {
    const cfg: Config
    var db: Db
    var hashes: map<Hash, dword>

    constructor (cfg: Config, db: Db, hashes: map<Hash, dword>)
      ensures this.cfg == cfg && this.db == db && this.hashes == hashes
    {
      this.cfg, this.db, this.hashes := cfg, db, hashes;
    }

    /** Reading the account under a key: None when there is none, Some(None) when it is not shown. */
    method Get(find: Find, ghost accts: seq<Account>) returns (r: Option<Option<Account>>)
      requires Agrees(db, accts)
      ensures r == Look(cfg, accts, find)
    {
      if find.ByUid? && !Visible(cfg, find.uid) {
        return None;
      }
      hide Agrees, Encode, Sought, Peek;
      DistinctKeys(db, accts);
      StoredIsSought(cfg, db, accts, find);
      var record := Stored(db, find);
      if record.None? {
        return None;
      }
      PeekBack(accts[Sought(cfg, accts, find).value], cfg.start, LAST_UID);
      r := ReadRecord(record.value, cfg.start, LAST_UID);
    }

    /** Counting all entries with a cursor; every account has three. */
    method UserCount(ghost accts: seq<Account>) returns (num: nat)
      requires Agrees(db, accts)
      ensures num == |accts|
    {
      hide Indexes;
      EntryCount(db, Names(accts), Uids(accts), Records(accts));
      var names := CountKeys(db.byName.Keys);
      var uids := CountKeys(db.byUid.Keys);
      var nums := CountKeys(db.byNum.Keys);
      num := (names + uids + nums + 1) / 3;
    }

    /** The least free uid from the start. */
    method FirstFree(ghost accts: seq<Account>) returns (uid: int)
      requires Agrees(db, accts)
      ensures uid == LeastFree(InUse(accts), cfg.start)
    {
      hide Agrees, InUse, LeastFree;
      DistinctKeys(db, accts);
      ghost var free := LeastFree(InUse(accts), cfg.start);
      var c := cfg.start;
      while true
        invariant cfg.start <= c <= free
        decreases free - c
      {
        c := c + 1;
        UidsInUse(db, accts, c - 1);
        if Unsigned32(c - 1) !in db.byUid {
          break;
        }
      }
      uid := c - 1;
    }

    /**
     * The walk over all accounts by number. Adding wants the name to be new, and a number and a uid; otherwise
     * it looks for the uid and the number of the visible account with that name.
     */
    method CheckName(name: CString, wanted: int32, adding: bool, ghost accts: seq<Account>)
      returns (ret: int, uid: int, num: int)
      requires Agrees(db, accts) && accts != []
      ensures ret == if adding && Taken(cfg, accts, name) then -1 else 0
      ensures adding && ret == 0 ==> uid == NewUid(cfg, accts, wanted) && num == |accts| + 1
      ensures !adding ==> forall i | 0 <= i < |accts| :: accts[i].name == name && Visible(cfg, accts[i].uid) ==>
                uid == accts[i].uid && num == i + 1
    {
      hide Agrees, NewUid, Look;
      DistinctKeys(db, accts);
      uid, num := if adding then wanted else cfg.start, -1;
      var count := UserCount(accts);
      var c := 0;
      while c <= count
        invariant 0 <= c <= count + 1
        invariant forall i | 0 <= i < c && i < count :: !(accts[i].name == name && Visible(cfg, accts[i].uid))
      {
        c := c + 1;
        var found := Get(ByNum(c), accts);
        LookByNumber(cfg, accts, c);
        if found.Some? && found.value.Some? {
          var a := found.value.value;
          if a.name == name {
            if adding {
              return -1, uid, num;
            }
            forall i | 0 <= i < |accts| && accts[i].name == name
              ensures i == c - 1
            {
              if i != c - 1 {
                NoneShared(db, accts, i, c - 1);
              }
            }
            return 0, a.uid, c;
          }
          uid := a.uid + 1;
        }
      }
      num := c;
      if adding {
        uid := PickUid(wanted, accts);
      }
      ret := 0;
    }

    /** The wanted uid if it is free, else the least free one. */
    method PickUid(wanted: int32, ghost accts: seq<Account>) returns (uid: int)
      requires Agrees(db, accts)
      ensures uid == NewUid(cfg, accts, wanted)
    {
      hide Agrees, InUse, LeastFree;
      DistinctKeys(db, accts);
      if wanted >= cfg.start {
        UidsInUse(db, accts, wanted);
        if Unsigned32(wanted) !in db.byUid {
          return wanted;
        }
      }
      uid := FirstFree(accts);
    }

    /** Writing an account under its name, its uid and a number. */
    method Write(f: Form, uid: dword, num: int)
      requires Fits(f)
      modifies this`db
      ensures db == Written(old(db), f.name, uid, Unsigned32(num), Encode(Made(f, uid)))
    {
      hide Encode;
      EncodedLength(Made(f, uid));
      var data := WriteRecord(Made(f, uid));
      db := db.(byName := db.byName[f.name := data]);
      db := db.(byUid := db.byUid[uid := data]);
      db := db.(byNum := db.byNum[Unsigned32(num) := data]);
    }

    /** Moving the records behind a deleted number down by one; from -1 there is nothing to move. */
    method CloseGap(num: int, ghost recs: seq<Record>, ghost k: nat)
      requires num == -1 ==> |recs| <= MOST_ACCOUNTS && Indexes<dword>(db.byNum, Numbers(|recs|), recs)
      requires num != -1 ==> num == k + 1 && Closing(db.byNum, recs, k, k + 1)
      modifies this`db
      ensures num == -1 ==> db == old(db)
      ensures num != -1 ==> Indexes<dword>(db.byNum, Numbers(|recs| - 1), Without(recs, k))
      ensures db.byName == old(db.byName) && db.byUid == old(db.byUid)
    {
      hide Closing, Indexes, Unsigned32, Without, Numbers;
      BeforeClosing(db.byNum, recs, k, num);
      var next := num + 1;
      while Unsigned32(next) in db.byNum
        invariant num == -1 ==> next == 0 && db == old(db)
        invariant num != -1 ==> k + 2 <= next <= |recs| + 1 && |recs| <= MOST_ACCOUNTS
        invariant num != -1 ==> Closing(db.byNum, recs, k, next - 1)
        invariant num != -1 ==> (next as dword in db.byNum <==> next <= |recs|)
        invariant db.byName == old(db.byName) && db.byUid == old(db.byUid)
        decreases |recs| + 1 - next
      {
        OneMove(db.byNum, recs, k, next);
        db := db.(byNum := db.byNum[Unsigned32(next - 1) := db.byNum[Unsigned32(next)]]);
        next := next + 1;
      }
      if num != -1 {
        SmallNumber(next);
        SmallNumber(next - 1);
        ClosingEnds(db.byNum, recs, k);
      }
      db := db.(byNum := db.byNum - {Unsigned32(next - 1)});
    }

    /**
     * Deleting an account: under its name only when uid and number are -1, else under all three keys, with the
     * later accounts moving down.
     */
    method Del(name: CString, uid: int, num: int, ghost accts: seq<Account>, ghost k: nat)
      requires Agrees(db, accts)
      requires uid == -1 <==> num == -1
      requires num != -1 ==> k < |accts| && name == accts[k].name && uid == accts[k].uid && num == k + 1
      modifies this`db
      ensures num == -1 ==> db == old(db).(byName := old(db.byName) - {name})
      ensures num != -1 ==> Agrees(db, Without(accts, k))
    {
      hide Indexes, Names, Uids, Records, Numbers, Without, Unsigned32, Closing;
      ghost var before, recs := db, Records(accts);
      db := db.(byName := db.byName - {name});
      if uid != -1 {
        db := db.(byUid := db.byUid - {Unsigned32(uid)});
      }
      if num != -1 {
        SmallNumber(num);
        ClosingStarts(db.byNum, recs, k);
        db := db.(byNum := db.byNum - {Unsigned32(num)});
      }
      CloseGap(num, recs, k);
      if num != -1 {
        SmallUid(uid);
        DeleteAgrees(before, accts, k, db.byNum);
        assert db == Db(before.byName - {name}, before.byUid - {accts[k].uid}, db.byNum);
      }
    }

    // -------------------------------------------------------------------------
    // Sessions
    // -------------------------------------------------------------------------

    /** The uid that a login hash stands for; -1 when there is none. */
    method CheckHash(hash: Hash) returns (uid: int)
      ensures uid == if hash in hashes then Signed32(hashes[hash]) else -1
    {
      if hash !in hashes {
        return -1;
      }
      uid := Signed32(hashes[hash]);
    }

    /** Deleting every hash of a uid, with a cursor over all of them. */
    method ClearHash(uid: int)
      modifies this`hashes
      ensures hashes == Cleared(old(hashes), Unsigned32(uid))
    {
      ghost var before := hashes;
      var left := hashes.Keys;
      while left != {}
        invariant left <= hashes.Keys
        invariant hashes == map h | h in before && (h in left || before[h] != Unsigned32(uid)) :: before[h]
        decreases left
      {
        var h :| h in left;
        left := left - {h};
        if hashes[h] == Unsigned32(uid) {
          hashes := hashes - {h};
        }
      }
    }

    /** Logging in: the token is the random string; None when name or password do not fit. */
    method Verify(name: CString, pwd: CString, token: Hash, ghost st: State) returns (r: Option<Hash>)
      requires Holds(db, hashes, st)
      modifies this`hashes
      ensures r == if LogsIn(cfg, st.accts, name, pwd).Some? then Some(token) else None
      ensures Holds(db, hashes, After(cfg, st, Login(name, pwd, token)))
    {
      hide Agrees, IndexOf, Names, Uids;
      var item := Get(ByName(name), st.accts);
      if item.None? || item.value.None? {
        return None;
      }
      var a := item.value.value;
      if cfg.crypt(pwd, a.pwd) != a.pwd {
        return None;
      }
      SmallUid(a.uid);
      ClearHash(a.uid);
      hashes := hashes[token := a.uid];
      r := Some(token);
    }

    // -------------------------------------------------------------------------
    // Operations on accounts
    // -------------------------------------------------------------------------

    /**
     * Adding an account. The indexes stay in step exactly when no account, visible or not, has the name
     * already.
     */
    method AddEntry(hash: Hash, form: Form, wanted: nat, ghost st: State) returns (ok: bool)
      requires Holds(db, hashes, st) && Safe(cfg, st) && |st.accts| < MOST_ACCOUNTS
      requires Fits(form)
      modifies this`db
      ensures ok == Step(cfg, st, Add(hash, form, wanted)).Some?
      ensures !ok ==> db == old(db)
      ensures ok ==> var uid := NewUid(cfg, st.accts, Signed32(wanted));
                     db == Written(old(db), form.name, uid, |st.accts| + 1, Encode(Made(form, uid)))
      ensures NamesApart(cfg, st, Add(hash, form, wanted)) ==>
                Holds(db, hashes, After(cfg, st, Add(hash, form, wanted)))
      ensures !NamesApart(cfg, st, Add(hash, form, wanted)) ==> forall other :: !Agrees(db, other)
    {
      hide Agrees, NewUid, Taken, Encode, Names, Uids, Fits, Distinct, OneEach, AllLive;
      var who := CheckHash(hash);
      if who < cfg.start || wanted < cfg.start {
        return false;
      }
      NotEmpty(cfg, st, hash);
      var ret, uid, num := CheckName(form.name, Signed32(wanted), true, st.accts);
      if ret != 0 {
        return false;
      }
      ghost var before, a := db, Made(form, uid);
      SmallNumber(num);
      Write(form, uid, num);
      ok := true;
      if form.name in Names(st.accts) {
        forall other
          ensures !Agrees(db, other)
        {
          AddDisagrees(before, st.accts, a, other);
        }
      } else {
        AddAgrees(before, st.accts, a);
      }
    }

    /** Deleting an account and its sessions. */
    method DelEntry(hash: Hash, uid: nat, ghost st: State) returns (ok: bool)
      requires Holds(db, hashes, st) && Safe(cfg, st)
      requires uid < SIZE_T - 1
      modifies this
      ensures ok == Step(cfg, st, Delete(hash, uid)).Some?
      ensures Holds(db, hashes, After(cfg, st, Delete(hash, uid)))
    {
      hide Agrees, Names, Uids, Distinct, OneEach, AllLive, IndexOf;
      var who := CheckHash(hash);
      if who < cfg.start {
        return false;
      }
      NotEmpty(cfg, st, hash);
      var item := Get(ByUid(uid), st.accts);
      var name: CString, found, num := [], -1, -1;
      if item.Some? && item.value.Some? {
        name := item.value.value.name;
        var ret;
        ret, found, num := CheckName(name, 0, false, st.accts);
      }
      if found != uid {
        return false;
      }
      Del(name, uid, num, st.accts, num - 1);
      SmallUid(uid);
      ClearHash(uid);
      ok := true;
    }

    /**
     * Changing an account. A new name is always refused, except the empty one, which is not checked: the indexes
     * stay in step exactly when no other account has it.
     */
    method SetEntry(hash: Hash, uid: nat, patch: Patch, ghost st: State) returns (ok: bool)
      requires Holds(db, hashes, st) && Safe(cfg, st)
      requires Authorised(cfg, st, hash) ==>
                 var i := Place(cfg, st.accts, uid);
                 i.Some? && Fits(Patched(st.accts[i.value], patch))
      modifies this`db
      ensures ok == Step(cfg, st, Set(hash, uid, patch)).Some?
      ensures !ok ==> db == old(db)
      ensures ok ==> var i := Place(cfg, st.accts, uid).value;
                     var a := Made(Patched(st.accts[i], patch), uid);
                     db == Rewritten(old(db), st.accts[i].name, a.name, uid, i + 1, Encode(a))
      ensures NamesApart(cfg, st, Set(hash, uid, patch)) ==> Holds(db, hashes, After(cfg, st, Set(hash, uid, patch)))
      ensures !NamesApart(cfg, st, Set(hash, uid, patch)) ==> forall other :: !Agrees(db, other)
    {
      hide Agrees, Encode, Names, Uids, Fits, Distinct, OneEach, AllLive, IndexOf, Unsigned32, Patched;
      DistinctKeys(db, st.accts);
      var who := CheckHash(hash);
      if who < cfg.start {
        return false;
      }
      NotEmpty(cfg, st, hash);
      var item := Get(ByUid(uid), st.accts);
      var a := item.value.value;
      var ret, found, num := CheckName(a.name, 0, false, st.accts);
      if patch.name.Some? && patch.name.value != a.name && patch.name.value != [] {
        var taken, _, _ := CheckName(patch.name.value, 0, false, st.accts);
        if taken == 0 {
          return false;
        }
      }
      ghost var before := db;
      Del(a.name, -1, -1, st.accts, 0);
      SmallNumber(num);
      Write(Patched(a, patch), uid, num);
      ok := true;
      WrittenBack(before, st.accts, num - 1, Made(Patched(a, patch), uid), db);
    }

    /** One call of the extension. */
    method Call(op: Op, ghost st: State)
      requires Holds(db, hashes, st) && Safe(cfg, st) && Proper(cfg, st, op)
      modifies this
      ensures Holds(db, hashes, After(cfg, st, op))
    {
      hide Holds, Safe, NamesApart, After, Fits, Authorised, Place;
      match op
      case Login(name, pwd, token) =>
        var _ := Verify(name, pwd, token, st);
      case Add(hash, form, wanted) =>
        var _ := AddEntry(hash, form, wanted, st);
      case Set(hash, uid, patch) =>
        var _ := SetEntry(hash, uid, patch, st);
      case Delete(hash, uid) =>
        var _ := DelEntry(hash, uid, st);
    }

    /** Any run of calls: the three indexes stay in step, and the sessions safe. */
    method Calls(ops: seq<Op>, ghost st: State)
      requires Holds(db, hashes, st) && Safe(cfg, st) && AllProper(cfg, st, ops)
      modifies this
      ensures Holds(db, hashes, Run(cfg, st, ops)) && Safe(cfg, Run(cfg, st, ops))
    {
      hide Holds, Safe, Proper, After;
      assert ops[..0] == [];
      for i := 0 to |ops|
        invariant Holds(db, hashes, Run(cfg, st, ops[..i])) && Safe(cfg, Run(cfg, st, ops[..i]))
      {
        ghost var now := Before(cfg, st, ops, i);
        assert Proper(cfg, now, ops[i]);
        ProperIsApart(cfg, now, ops[i]);
        StepIsSafe(cfg, now, ops[i]);
        Call(ops[i], now);
        assert ops[..i + 1][..i] == ops[..i];
      }
      assert ops[..|ops|] == ops;
    }

    /** An account by uid or by name, for whoever holds a live hash. */
    method GetEntry(hash: Hash, find: Find, ghost st: State) returns (r: Option<Option<Account>>)
      requires Holds(db, hashes, st) && !find.ByNum?
      ensures r == if !Authorised(cfg, st, hash) then None else Public(Look(cfg, st.accts, find))
    {
      hide Agrees, Look;
      var who := CheckHash(hash);
      if who < cfg.start {
        return None;
      }
      var found := Get(find, st.accts);
      r := Public(found);
    }

    /** The account that a live hash stands for. */
    method GetByHash(hash: Hash, ghost st: State) returns (r: Option<Option<Account>>)
      requires Holds(db, hashes, st)
      ensures r == if |hash| != HASH_LENGTH || !Authorised(cfg, st, hash) then None
                   else Public(Look(cfg, st.accts, ByUid(Signed32(hashes[hash]))))
    {
      hide Agrees, Look;
      if |hash| != HASH_LENGTH {
        return None;
      }
      var who := CheckHash(hash);
      if who < cfg.start {
        return None;
      }
      var found := Get(ByUid(who), st.accts);
      r := Public(found);
    }

    /** All accounts in the order of their numbers; the one under the last visible uid is left out. */
    method GetAll(hash: Hash, ghost st: State) returns (r: Option<seq<Account>>)
      requires Holds(db, hashes, st) && Safe(cfg, st)
      ensures r == if !Authorised(cfg, st, hash) then None else Some(Listed(cfg, st.accts))
    {
      hide Agrees, Distinct, OneEach, AllLive;
      DistinctKeys(db, st.accts);
      var who := CheckHash(hash);
      if who < cfg.start {
        return None;
      }
      NotEmpty(cfg, st, hash);
      var count := UserCount(st.accts);
      var c, list := 0, [];
      while c <= count
        invariant 0 <= c <= count && list == Listed(cfg, st.accts[..c])
      {
        c := c + 1;
        var found := Get(ByNum(c), st.accts);
        LookByNumber(cfg, st.accts, c);
        if found.None? {
          break;
        }
        assert st.accts[..c][..c - 1] == st.accts[..c - 1];
        if found.value.Some? && found.value.value.uid < LAST_UID {
          list := list + [found.value.value.(pwd := [])];
        }
      }
      assert st.accts[..count] == st.accts;
      r := Some(list);
    }
  }

  method CountKeys<K(==)>(keys: set<K>) returns (n: nat)
    ensures n == |keys|
  {
    var left := keys;
    n := 0;
    while left != {}
      invariant n + |left| == |keys|
      decreases left
    {
      var k :| k in left;
      left := left - {k};
      n := n + 1;
    }
  }

  /** One move of the loop in Spwd.CloseGap. */
  lemma OneMove(byNum: map<dword, Record>, recs: seq<Record>, k: nat, next: nat)
    requires 0 < next < 0x7FFF_FFFF && Unsigned32(next) in byNum && Closing(byNum, recs, k, next - 1)
    ensures next <= |recs|
    ensures var after := byNum[Unsigned32(next - 1) := byNum[Unsigned32(next)]];
            Closing(after, recs, k, next) && ((next + 1) as dword in after <==> next < |recs|)
  {
    hide Closing, Unsigned32;
    SmallNumber(next);
    SmallNumber(next - 1);
    BehindTheGap(byNum, recs, k, next - 1);
    ClosingGoesOn(byNum, recs, k, next - 1);
    BehindTheGap(byNum[Unsigned32(next - 1) := byNum[Unsigned32(next)]], recs, k, next);
  }

  lemma UidsInUse(db: Db, accts: seq<Account>, uid: int)
    requires Agrees(db, accts) && 0 <= uid < 0x8000_0000
    ensures Unsigned32(uid) == uid
    ensures Unsigned32(uid) in db.byUid <==> uid in InUse(accts)
  {
    hide InStep, Unsigned32, InUse;
    SmallNumber(uid);
    KeysInUse(db, Names(accts), Uids(accts), Records(accts), [], uid);
  }

  lemma LookByNumber(cfg: Config, accts: seq<Account>, c: nat)
    requires 1 <= c <= |accts| + 1 <= MOST_ACCOUNTS + 1
    ensures Look(cfg, accts, ByNum(c)) == if c <= |accts| then Some(Shown(cfg, accts[c - 1])) else None
  {
    SmallNumber(c);
  }

  /** Where the loop in Spwd.CloseGap starts: from -1 it ends at once and deletes nothing. */
  lemma BeforeClosing(byNum: map<dword, Record>, recs: seq<Record>, k: nat, num: int)
    requires num == -1 ==> |recs| <= MOST_ACCOUNTS && Indexes<dword>(byNum, Numbers(|recs|), recs)
    requires num != -1 ==> num == k + 1 && Closing(byNum, recs, k, k + 1)
    ensures |recs| <= MOST_ACCOUNTS && (num != -1 ==> k < |recs|)
    ensures num == -1 ==> Unsigned32(0) !in byNum && byNum - {Unsigned32(-1)} == byNum
    ensures num != -1 ==> ((k + 2) as dword in byNum <==> k + 2 <= |recs|)
  {
    hide Indexes, Closing, Unsigned32, Numbers, Without;
    if num == -1 {
      NothingBelow(byNum, recs);
    } else {
      ClosingBounds(byNum, recs, k, k + 1);
      BehindTheGap(byNum, recs, k, k + 1);
    }
  }

  lemma ClosingBounds(byNum: map<dword, Record>, recs: seq<Record>, k: nat, gap: nat)
    requires Closing(byNum, recs, k, gap)
    ensures k < gap <= |recs| <= MOST_ACCOUNTS
  {
  }

  lemma NothingBelow(byNum: map<dword, Record>, recs: seq<Record>)
    requires |recs| <= MOST_ACCOUNTS && Indexes<dword>(byNum, Numbers(|recs|), recs)
    ensures Unsigned32(0) !in byNum && Unsigned32(-1) !in byNum
    ensures byNum - {Unsigned32(-1)} == byNum
  {
    assert Unsigned32(0) == 0 && Unsigned32(-1) == 0xFFFF_FFFF;
    hide Unsigned32, Numbers;
    assert 0 !in Numbers(|recs|) && 0xFFFF_FFFF !in Numbers(|recs|);
  }

  lemma SmallUid(uid: dword)
    ensures Unsigned32(uid) == uid
  {
  }

  /** Where there is a live hash, there is an account. */
  lemma NotEmpty(cfg: Config, st: State, hash: Hash)
    requires Safe(cfg, st) && hash in st.hashes
    ensures st.accts != []
  {
  }

  /** What rewriting an account makes of the three indexes. */
  lemma WrittenBack(db: Db, accts: seq<Account>, k: nat, a: Account, after: Db)
    requires Agrees(db, accts) && k < |accts| && a.uid == accts[k].uid
    requires after == Rewritten(db, accts[k].name, a.name, a.uid, k + 1, Encode(a))
    ensures (forall j | 0 <= j < |accts| && j != k :: accts[j].name != a.name) ==> Agrees(after, accts[k := a])
    ensures !(forall j | 0 <= j < |accts| && j != k :: accts[j].name != a.name) ==>
              forall other :: !Agrees(after, other)
  {
    hide Agrees, Encode, Rewritten;
    DistinctKeys(db, accts);
    if j :| 0 <= j < |accts| && j != k && accts[j].name == a.name {
      forall other
        ensures !Agrees(after, other)
      {
        SetDisagrees(db, accts, k, a, j, other);
      }
    } else {
      SetAgrees(db, accts, k, a);
    }
  }

  lemma ProperIsApart(cfg: Config, st: State, op: Op)
    requires Proper(cfg, st, op)
    ensures NamesApart(cfg, st, op)
  {
  }
}
