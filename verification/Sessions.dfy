/**
 * What the account operations do to the list of accounts and to the live
 * login hashes, and what every run of them keeps.
 */
module Sessions {
  import opened Bytes
  import opened AccountRecord
  import opened Lists
  import opened ThreeIndexes
  import opened Accounts

  type Hash = seq<byte>

  /** Uids outside start..LAST_UID belong to the system; their accounts are never shown. */
  const LAST_UID: nat := 65533

  type StartUid = s: nat | s <= LAST_UID

  /** The settings: where visible uids start, and the one-way function that passwords are stored under. */
  datatype Config = Config(start: StartUid, crypt: (CString, CString) -> CString)

  datatype State = State(accts: seq<Account>, hashes: map<Hash, dword>)

  /** What a new account is made of, apart from its uid. */
  datatype Form = Form(name: CString, pwd: CString, gid: int, loginClass: CString, desc: CString, dir: CString,
                       shell: CString, change: int, expire: int)

  /** Changes to an account; None and -1 leave a field as it is. */
  datatype Patch = Patch(name: Option<CString>, pwd: Option<CString>, gid: int, loginClass: Option<CString>,
                         desc: Option<CString>, dir: Option<CString>, shell: Option<CString>, change: int, expire: int)

  datatype Op =
    | Login(name: CString, pwd: CString, token: Hash)
    | Add(hash: Hash, form: Form, wanted: nat)
    | Set(hash: Hash, uid: nat, patch: Patch)
    | Delete(hash: Hash, uid: nat)

  predicate Visible(cfg: Config, uid: int) {
    cfg.start <= uid <= LAST_UID
  }

  /** The account that a form and a uid make; numbers are cut to 32 bits. */
  function Made(f: Form, uid: dword): Account {
    Account(f.name, f.pwd, uid, Unsigned32(f.gid), Signed32(f.change), f.loginClass, f.desc, f.dir, f.shell,
            Signed32(f.expire))
  }

  /** An account keeps the numbers it was given exactly as far as they fit their fields. */
  lemma MadeKeeps(f: Form, uid: dword)
    ensures var a := Made(f, uid);
            && (a.gid == f.gid <==> 0 <= f.gid < 0x1_0000_0000)
            && (a.change == f.change <==> -0x8000_0000 <= f.change < 0x8000_0000)
            && (a.expire == f.expire <==> -0x8000_0000 <= f.expire < 0x8000_0000)
            && Decode(Encode(a)) == Some(a)
  {
    hide Encode, Decode;
    RecordRoundTrip(Made(f, uid));
  }

  function Either(change: Option<CString>, was: CString): CString {
    if change.Some? then change.value else was
  }

  function Changed(change: int, was: int): int {
    if change == -1 then was else change
  }

  /** An account's fields with the changes made. */
  function Patched(a: Account, p: Patch): Form {
    Form(Either(p.name, a.name), Either(p.pwd, a.pwd), Changed(p.gid, a.gid), Either(p.loginClass, a.loginClass),
         Either(p.desc, a.desc), Either(p.dir, a.dir), Either(p.shell, a.shell), Changed(p.change, a.change),
         Changed(p.expire, a.expire))
  }

  /** An update that changes nothing leaves the account as it is. */
  lemma PatchNothing(a: Account)
    ensures Made(Patched(a, Patch(None, None, -1, None, None, None, None, -1, -1)), a.uid) == a
  {
    SignedRoundTrip(a.gid);
    SignedRoundTrip(a.change);
    SignedRoundTrip(a.expire);
  }

  /**
   * An update that gives every field asks for these fields exactly when no number in it is a -1, which stands for no
   * change, unless the account has that -1 already. The numbers are cut to 32 bits afterwards, by Made.
   */
  lemma PatchAll(a: Account, f: Form)
    ensures Patched(a, Patch(Some(f.name), Some(f.pwd), f.gid, Some(f.loginClass), Some(f.desc), Some(f.dir),
                             Some(f.shell), f.change, f.expire)) == f
            <==> && (f.gid == -1 ==> a.gid == -1)
                 && (f.change == -1 ==> a.change == -1)
                 && (f.expire == -1 ==> a.expire == -1)
  {
  }

  /** A visible account has this name: adding refuses it. */
  predicate Taken(cfg: Config, accts: seq<Account>, name: CString) {
    exists i :: 0 <= i < |accts| && accts[i].name == name && Visible(cfg, accts[i].uid)
  }

  /** The least number from from on that is not in use. */
  function LeastFree(used: set<int>, from: int): (u: int)
    ensures from <= u <= from + |used| && u !in used
    ensures forall v | from <= v < u :: v in used
    decreases used
  {
    if from !in used then from else LeastFree(used - {from}, from + 1)
  }

  function InUse(accts: seq<Account>): (used: set<int>)
    ensures |used| <= |accts|
    ensures forall u :: u in used <==> u in Uids(accts)
  {
    if accts == [] then {} else InUse(accts[..|accts| - 1]) + {accts[|accts| - 1].uid}
  }

  /** The uid of a new account: the wanted one if it is visible from below and free, else the least free one. */
  function NewUid(cfg: Config, accts: seq<Account>, wanted: int32): (u: int)
    ensures cfg.start <= u && u !in Uids(accts) && (u == wanted || u <= cfg.start + |accts|)
    ensures if cfg.start <= wanted && wanted !in Uids(accts) then u == wanted
            else forall v: int | cfg.start <= v < u :: v in Uids(accts)
  {
    var used := InUse(accts);
    if cfg.start <= wanted && wanted !in used then wanted else LeastFree(used, cfg.start)
  }

  predicate Authorised(cfg: Config, st: State, hash: Hash) {
    hash in st.hashes && Signed32(st.hashes[hash]) >= cfg.start
  }

  /** The sessions that are left when those of one uid are cleared. */
  function Cleared(hashes: map<Hash, dword>, uid: int): map<Hash, dword> {
    map h | h in hashes && hashes[h] != uid :: hashes[h]
  }

  /** The account that a login with this name and password logs in. */
  function LogsIn(cfg: Config, accts: seq<Account>, name: CString, pwd: CString): (r: Option<dword>)
    ensures r.Some? ==> r.value in Uids(accts) && Visible(cfg, r.value)
  {
    match IndexOf(Names(accts), name)
    case None => None
    case Some(i) =>
      FieldsAt(accts, i);
      if Visible(cfg, accts[i].uid) && cfg.crypt(pwd, accts[i].pwd) == accts[i].pwd then Some(accts[i].uid) else None
  }

  /** The name and password of exactly the visible accounts log in, each as itself. */
  lemma LoginExactly(cfg: Config, accts: seq<Account>, name: CString, pwd: CString, uid: dword)
    requires Distinct(Names(accts))
    ensures LogsIn(cfg, accts, name, pwd) == Some(uid) <==>
            exists i :: 0 <= i < |accts| && HasPassword(cfg, accts[i], name, pwd) && accts[i].uid == uid
  {
    hide Names, IndexOf;
    forall i | 0 <= i < |accts| && accts[i].name == name
      ensures IndexOf(Names(accts), name) == Some(i)
    {
      FieldsAt(accts, i);
      IndexOfDistinct(Names(accts), i);
    }
    if IndexOf(Names(accts), name).Some? {
      FieldsAt(accts, IndexOf(Names(accts), name).value);
    }
  }

  /** A visible account with this name and password. */
  predicate HasPassword(cfg: Config, a: Account, name: CString, pwd: CString) {
    a.name == name && Visible(cfg, a.uid) && cfg.crypt(pwd, a.pwd) == a.pwd
  }

  /** The place of a visible account. */
  function Place(cfg: Config, accts: seq<Account>, uid: nat): (r: Option<nat>)
    ensures r.Some? ==> r.value < |accts| && accts[r.value].uid == uid && Visible(cfg, uid)
    ensures r.None? && Visible(cfg, uid) ==> uid !in Uids(accts)
  {
    if !Visible(cfg, uid) then None
    else
      match IndexOf(Uids(accts), uid)
      case None => None
      case Some(i) =>
        FieldsAt(accts, i);
        Some(i)
  }

  /** A change of name, other than to the empty one, is always refused. */
  predicate Renames(a: Account, p: Patch) {
    p.name.Some? && p.name.value != a.name && p.name.value != []
  }

  /** The outcome of an operation; None when it is refused. */
  function Step(cfg: Config, st: State, op: Op): Option<State> {
    match op
    case Login(name, pwd, token) =>
      var uid :- LogsIn(cfg, st.accts, name, pwd);
      Some(st.(hashes := Cleared(st.hashes, uid)[token := uid]))
    case Add(hash, form, wanted) =>
      if !Authorised(cfg, st, hash) || wanted < cfg.start || Taken(cfg, st.accts, form.name) then None
      else if |st.accts| >= MOST_ACCOUNTS then None
      else Some(st.(accts := st.accts + [Made(form, NewUid(cfg, st.accts, Signed32(wanted)))]))
    case Set(hash, uid, patch) =>
      if !Authorised(cfg, st, hash) then None
      else
        var i :- Place(cfg, st.accts, uid);
        if Renames(st.accts[i], patch) then None
        else Some(st.(accts := st.accts[i := Made(Patched(st.accts[i], patch), uid)]))
    case Delete(hash, uid) =>
      if !Authorised(cfg, st, hash) then None
      else
        var i :- Place(cfg, st.accts, uid);
        Some(State(Without(st.accts, i), Cleared(st.hashes, uid)))
  }

  function After(cfg: Config, st: State, op: Op): State {
    match Step(cfg, st, op)
    case None => st
    case Some(next) => next
  }

  // ---------------------------------------------------------------------------
  // What a state must be like, and what a step must heed to keep it so
  // ---------------------------------------------------------------------------

  ghost predicate OneEach(hashes: map<Hash, dword>) {
    forall g, h | g in hashes && h in hashes && hashes[g] == hashes[h] :: g == h
  }

  ghost predicate AllLive(cfg: Config, hashes: map<Hash, dword>, uids: seq<dword>) {
    forall h | h in hashes :: Visible(cfg, hashes[h]) && hashes[h] in uids
  }

  /** Names and uids are distinct, no uid has two live hashes, and every live hash stands for a visible account. */
  ghost predicate Safe(cfg: Config, st: State) {
    && Distinct(Names(st.accts)) && Distinct(Uids(st.accts))
    && OneEach(st.hashes) && AllLive(cfg, st.hashes, Uids(st.accts))
  }

  /** The step gives no account the name of another. */
  ghost predicate NamesApart(cfg: Config, st: State, op: Op) {
    match op
    case Add(hash, form, wanted) => Step(cfg, st, op).Some? ==> form.name !in Names(st.accts)
    case Set(hash, uid, patch) =>
      Step(cfg, st, op).Some? ==>
        var i := Place(cfg, st.accts, uid).value;
        var name := Patched(st.accts[i], patch).name;
        forall j | 0 <= j < |st.accts| && j != i :: st.accts[j].name != name
    case _ => true
  }

  lemma ClearedIsSafe(cfg: Config, hashes: map<Hash, dword>, uids: seq<dword>, uid: dword, token: Hash)
    requires OneEach(hashes) && AllLive(cfg, hashes, uids)
    requires Visible(cfg, uid) && uid in uids
    ensures OneEach(Cleared(hashes, uid)[token := uid]) && AllLive(cfg, Cleared(hashes, uid)[token := uid], uids)
  {
  }

  lemma ClearedWithout(cfg: Config, hashes: map<Hash, dword>, uids: seq<dword>, i: nat)
    requires OneEach(hashes) && AllLive(cfg, hashes, uids) && i < |uids|
    ensures OneEach(Cleared(hashes, uids[i])) && AllLive(cfg, Cleared(hashes, uids[i]), Without(uids, i))
  {
    var left := Cleared(hashes, uids[i]);
    forall h | h in left
      ensures left[h] in Without(uids, i)
    {
      var j :| 0 <= j < |uids| && uids[j] == left[h];
      assert Without(uids, i)[if j < i then j else j - 1] == left[h];
    }
  }

  /** One step keeps a state safe. */
  lemma StepIsSafe(cfg: Config, st: State, op: Op)
    requires Safe(cfg, st) && NamesApart(cfg, st, op)
    ensures Safe(cfg, After(cfg, st, op))
  {
    var accts := st.accts;
    match op
    case Login(name, pwd, token) =>
      match LogsIn(cfg, accts, name, pwd) {
        case None =>
        case Some(uid) => ClearedIsSafe(cfg, st.hashes, Uids(accts), uid, token);
      }
    case Add(hash, form, wanted) =>
      AddIsSafe(cfg, st, hash, form, wanted);
    case Set(hash, uid, patch) =>
      SetIsSafe(cfg, st, hash, uid, patch);
    case Delete(hash, uid) =>
      match Place(cfg, accts, uid) {
        case None =>
        case Some(i) =>
          FieldsAt(accts, i);
          ClearedWithout(cfg, st.hashes, Uids(accts), i);
          DistinctWithout(Names(accts), i);
          DistinctWithout(Uids(accts), i);
          FieldsWithout(accts, i);
      }
  }

  lemma LiveAmongMore(cfg: Config, hashes: map<Hash, dword>, uids: seq<dword>, uid: dword)
    requires AllLive(cfg, hashes, uids)
    ensures AllLive(cfg, hashes, uids + [uid])
  {
  }

  lemma AddIsSafe(cfg: Config, st: State, hash: Hash, form: Form, wanted: nat)
    requires Safe(cfg, st) && NamesApart(cfg, st, Add(hash, form, wanted))
    ensures Safe(cfg, After(cfg, st, Add(hash, form, wanted)))
  {
    hide Distinct, OneEach, AllLive, Names, Uids, Taken, Authorised;
    if Step(cfg, st, Add(hash, form, wanted)).Some? {
      var a := Made(form, NewUid(cfg, st.accts, Signed32(wanted)));
      hide NewUid;
      FieldsAppend(st.accts, a);
      DistinctAppend<CString>(Names(st.accts), a.name);
      DistinctAppend<dword>(Uids(st.accts), a.uid);
      LiveAmongMore(cfg, st.hashes, Uids(st.accts), a.uid);
    }
  }

  lemma SetIsSafe(cfg: Config, st: State, hash: Hash, uid: nat, patch: Patch)
    requires Safe(cfg, st) && NamesApart(cfg, st, Set(hash, uid, patch))
    ensures Safe(cfg, After(cfg, st, Set(hash, uid, patch)))
  {
    hide Distinct, OneEach, AllLive, Names, Uids, Patched, Authorised, Place;
    var accts := st.accts;
    if Step(cfg, st, Set(hash, uid, patch)).Some? {
      var i := Place(cfg, accts, uid).value;
      var a := Made(Patched(accts[i], patch), uid);
      FieldsAt(accts, i);
      FieldsUpdate(accts, i, a);
      assert Uids(accts)[i := a.uid] == Uids(accts);
      forall j | 0 <= j < |accts| && j != i
        ensures Names(accts)[j] != a.name
      {
        FieldsAt(accts, j);
      }
      DistinctUpdate<CString>(Names(accts), i, a.name);
    }
  }

  // ---------------------------------------------------------------------------
  // Runs
  // ---------------------------------------------------------------------------

  function Run(cfg: Config, st: State, ops: seq<Op>): State {
    if ops == [] then st else After(cfg, Run(cfg, st, ops[..|ops| - 1]), ops[|ops| - 1])
  }

  /** The state before step i of a run. */
  function Before(cfg: Config, st: State, ops: seq<Op>, i: nat): State
    requires i <= |ops|
  {
    Run(cfg, st, ops[..i])
  }

  ghost predicate AllApart(cfg: Config, st: State, ops: seq<Op>) {
    forall i | 0 <= i < |ops| :: NamesApart(cfg, Before(cfg, st, ops, i), ops[i])
  }

  lemma BeforeInPrefix(cfg: Config, st: State, ops: seq<Op>, i: nat)
    requires 0 < |ops| && i < |ops|
    ensures Before(cfg, st, ops[..|ops| - 1], i) == Before(cfg, st, ops, i)
  {
    assert ops[..|ops| - 1][..i] == ops[..i];
  }

  /** Every state of every run is safe. */
  lemma {:induction false} RunIsSafe(cfg: Config, st: State, ops: seq<Op>)
    requires Safe(cfg, st) && AllApart(cfg, st, ops)
    ensures Safe(cfg, Run(cfg, st, ops))
    decreases |ops|
  {
    if ops != [] {
      var n := |ops| - 1;
      forall i | 0 <= i < n
        ensures NamesApart(cfg, Before(cfg, st, ops[..n], i), ops[..n][i])
      {
        BeforeInPrefix(cfg, st, ops, i);
      }
      RunIsSafe(cfg, st, ops[..n]);
      assert NamesApart(cfg, Before(cfg, st, ops, n), ops[n]);
      StepIsSafe(cfg, Run(cfg, st, ops[..n]), ops[n]);
    }
  }

  /** The step logs uid in under token h. */
  predicate Grants(cfg: Config, st: State, op: Op, h: Hash, uid: dword) {
    op.Login? && op.token == h && LogsIn(cfg, st.accts, op.name, op.pwd) == Some(uid)
  }

  /** The step ends the session h of uid: the uid logs in anew or is deleted, or the token goes to someone else. */
  predicate Ends(cfg: Config, st: State, op: Op, h: Hash, uid: dword) {
    match op
    case Login(name, pwd, token) =>
      var who := LogsIn(cfg, st.accts, name, pwd);
      who.Some? && (who.value == uid || token == h)
    case Delete(hash, victim) => Step(cfg, st, op).Some? && victim == uid
    case _ => false
  }

  predicate IsLive(st: State, h: Hash, uid: dword) {
    h in st.hashes && st.hashes[h] == uid
  }

  /** A step grants a session, ends it, or leaves it as it is. */
  lemma StepAndSession(cfg: Config, st: State, op: Op, h: Hash, uid: dword)
    ensures IsLive(After(cfg, st, op), h, uid) <==>
            Grants(cfg, st, op, h, uid) || (IsLive(st, h, uid) && !Ends(cfg, st, op, h, uid))
  {
  }

  ghost predicate GrantedAt(cfg: Config, st: State, ops: seq<Op>, h: Hash, uid: dword, j: nat)
    requires j < |ops|
  {
    && Grants(cfg, Before(cfg, st, ops, j), ops[j], h, uid)
    && forall k | j < k < |ops| :: !Ends(cfg, Before(cfg, st, ops, k), ops[k], h, uid)
  }

  /** An earlier grant still stands when the last step does not end it. */
  lemma GrantOutlasts(cfg: Config, st: State, ops: seq<Op>, h: Hash, uid: dword, j: nat)
    requires j < |ops| - 1
    ensures GrantedAt(cfg, st, ops, h, uid, j) <==>
            && GrantedAt(cfg, st, ops[..|ops| - 1], h, uid, j)
            && !Ends(cfg, Before(cfg, st, ops, |ops| - 1), ops[|ops| - 1], h, uid)
  {
    hide Before, Grants, Ends;
    forall i | 0 <= i < |ops| - 1
      ensures Before(cfg, st, ops[..|ops| - 1], i) == Before(cfg, st, ops, i)
    {
      BeforeInPrefix(cfg, st, ops, i);
    }
  }

  /** A session is live after a run exactly when some step granted it and no later step ended it. */
  lemma {:induction false} LiveIffGranted(cfg: Config, st: State, ops: seq<Op>, h: Hash, uid: dword)
    requires st.hashes == map[]
    ensures IsLive(Run(cfg, st, ops), h, uid) <==>
            exists j :: 0 <= j < |ops| && GrantedAt(cfg, st, ops, h, uid, j)
    decreases |ops|
  {
    hide After, Grants, Ends;
    if ops != [] {
      var n := |ops| - 1;
      LiveIffGranted(cfg, st, ops[..n], h, uid);
      StepAndSession(cfg, Before(cfg, st, ops, n), ops[n], h, uid);
      assert Grants(cfg, Before(cfg, st, ops, n), ops[n], h, uid) <==> GrantedAt(cfg, st, ops, h, uid, n);
      forall j | 0 <= j < n
        ensures GrantedAt(cfg, st, ops, h, uid, j) <==>
                GrantedAt(cfg, st, ops[..n], h, uid, j) && !Ends(cfg, Before(cfg, st, ops, n), ops[n], h, uid)
      {
        GrantOutlasts(cfg, st, ops, h, uid, j);
      }
    }
  }

  /** A safe database without accounts is frozen: nothing can be authorised there any more. */
  lemma EmptyIsFrozen(cfg: Config, st: State, op: Op)
    requires Safe(cfg, st) && st.accts == []
    ensures Step(cfg, st, op).None?
  {
  }
}
