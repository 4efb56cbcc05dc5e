/** Account records as the password database stores them: strings with a NUL behind, numbers in network order. */
module AccountRecord {
  import opened Bytes

  datatype Account = Account(name: CString, pwd: CString, uid: dword, gid: dword, change: int32, loginClass: CString,
                             desc: CString, dir: CString, shell: CString, expire: int32)

  /** The low n bytes of a number, the most significant one first. */
  function BigEndian(v: nat, n: nat): (b: seq<byte>)
    ensures |b| == n
  {
    if n == 0 then [] else BigEndian(v / 0x100, n - 1) + [v % 0x100]
  }

  function FromBigEndian(b: seq<byte>): nat {
    if b == [] then 0 else 0x100 * FromBigEndian(b[..|b| - 1]) + b[|b| - 1]
  }

  /** A 32-bit number in network order. */
  function Be32(v: dword): (b: seq<byte>)
    ensures |b| == 4
  {
    BigEndian(v, 4)
  }

  /** How many numbers have n bytes. */
  function NumbersOf(n: nat): nat {
    if n == 0 then 1 else 0x100 * NumbersOf(n - 1)
  }

  lemma {:induction false} BigEndianBack(v: nat, n: nat)
    requires v < NumbersOf(n)
    ensures FromBigEndian(BigEndian(v, n)) == v
  {
    if n > 0 {
      BigEndianBack(v / 0x100, n - 1);
      assert BigEndian(v, n)[..n - 1] == BigEndian(v / 0x100, n - 1);
    }
  }

  lemma Be32RoundTrip(v: dword)
    ensures FromBigEndian(Be32(v)) == v
  {
    assert NumbersOf(1) == 0x100 && NumbersOf(2) == 0x1_0000 && NumbersOf(3) == 0x100_0000;
    BigEndianBack(v, 4);
  }

  /** The pw_fields bits: which fields of a passwd structure are set. */
  function FieldBits(a: Account): dword {
    0x21F
    + (if a.loginClass != [] then 0x20 else 0) + (if a.desc != [] then 0x40 else 0)
    + (if a.dir != [] then 0x80 else 0) + (if a.shell != [] then 0x100 else 0)
  }

  /** The fields of an account in the order in which they are stored. */
  const FIELDS: nat := 11

  /** One field in its stored form. */
  function Field(a: Account, i: nat): seq<byte>
    requires i < FIELDS
  {
    match i
    case 0 => a.name + [0]
    case 1 => a.pwd + [0]
    case 2 => Be32(a.uid)
    case 3 => Be32(a.gid)
    case 4 => Be32(Unsigned32(a.change))
    case 5 => a.loginClass + [0]
    case 6 => a.desc + [0]
    case 7 => a.dir + [0]
    case 8 => a.shell + [0]
    case 9 => Be32(Unsigned32(a.expire))
    case _ => Be32(FieldBits(a))
  }

  /** The fields from the i-th on. */
  function EncodeFrom(a: Account, i: nat): seq<byte>
    requires i <= FIELDS
    decreases FIELDS - i, a
  {
    if i == FIELDS then [] else Field(a, i) + EncodeFrom(a, i + 1)
  }

  /** The stored form of an account. */
  function Encode(a: Account): seq<byte> {
    EncodeFrom(a, 0)
  }

  /** A string cut off a stored form at its NUL, and the rest. */
  function TakeString(b: seq<byte>): (r: Option<(CString, seq<byte>)>)
    ensures r.Some? ==> r.value.0 + [0] + r.value.1 == b
  {
    if b == [] then None
    else if b[0] == 0 then Some(([], b[1..]))
    else
      match TakeString(b[1..])
      case None => None
      case Some((s, rest)) => Some(([b[0]] + s, rest))
  }

  /** A number cut off a stored form, and the rest. */
  function TakeNumber(b: seq<byte>): Option<(dword, seq<byte>)> {
    if |b| < 4 then None else Some((Unsigned32(FromBigEndian(b[..4])), b[4..]))
  }

  lemma {:induction false} TakeStringBack(s: CString, rest: seq<byte>)
    ensures TakeString(s + [0] + rest) == Some((s, rest))
  {
    if s != [] {
      assert (s + [0] + rest)[1..] == s[1..] + [0] + rest;
      TakeStringBack(s[1..], rest);
      assert [s[0]] + s[1..] == s;
    }
  }

  lemma TakeNumberBack(v: dword, rest: seq<byte>)
    ensures TakeNumber(Be32(v) + rest) == Some((v, rest))
  {
    Be32RoundTrip(v);
    var b := Be32(v) + rest;
    assert b[..4] == Be32(v) && b[4..] == rest;
  }

  /** Reading a stored form, field by field. */
  function Decode(b: seq<byte>): Option<Account> {
    var (name, b1) :- TakeString(b);
    var (pwd, b2) :- TakeString(b1);
    var (uid, b3) :- TakeNumber(b2);
    var (gid, b4) :- TakeNumber(b3);
    var (change, b5) :- TakeNumber(b4);
    var (loginClass, b6) :- TakeString(b5);
    var (desc, b7) :- TakeString(b6);
    var (dir, b8) :- TakeString(b7);
    var (shell, b9) :- TakeString(b8);
    var (expire, b10) :- TakeNumber(b9);
    if |b10| < 4 then None
    else Some(Account(name, pwd, uid, gid, Signed32(change), loginClass, desc, dir, shell, Signed32(expire)))
  }

  /** Reading what was written gives the account back. */
  lemma RecordRoundTrip(a: Account)
    ensures Decode(Encode(a)) == Some(a)
  {
    TakeStringBack(a.name, EncodeFrom(a, 1));
    TakeStringBack(a.pwd, EncodeFrom(a, 2));
    TakeNumberBack(a.uid, EncodeFrom(a, 3));
    TakeNumberBack(a.gid, EncodeFrom(a, 4));
    TakeNumberBack(Unsigned32(a.change), EncodeFrom(a, 5));
    TakeStringBack(a.loginClass, EncodeFrom(a, 6));
    TakeStringBack(a.desc, EncodeFrom(a, 7));
    TakeStringBack(a.dir, EncodeFrom(a, 8));
    TakeStringBack(a.shell, EncodeFrom(a, 9));
    TakeNumberBack(Unsigned32(a.expire), EncodeFrom(a, 10));
    SignedRoundTrip(a.change);
    SignedRoundTrip(a.expire);
    assert EncodeFrom(a, 10) == Be32(FieldBits(a)) + EncodeFrom(a, 11);
  }
}
