/** Writing and reading an account record through a moving pointer. */
module RecordBuffer {
  import opened Bytes
  import opened AccountRecord

  /** The room that write has for a record, and for a key. */
  const RECORD_ROOM: nat := 4096
  const KEY_ROOM: nat := 1024

  /** Copying a string and its NUL into the buffer. */
  method WriteString(buf: array<byte>, dp: nat, s: CString) returns (next: nat)
    requires dp + |s| + 1 <= buf.Length
    modifies buf
    ensures next == dp + |s| + 1
    ensures buf[..next] == old(buf[..dp]) + (s + [0])
  {
    var i := 0;
    while i < |s|
      invariant 0 <= i <= |s|
      invariant buf[..dp] == old(buf[..dp])
      invariant buf[dp..dp + i] == s[..i]
    {
      buf[dp + i] := s[i];
      i := i + 1;
    }
    buf[dp + i] := 0;
    next := dp + i + 1;
    assert buf[..next] == buf[..dp] + buf[dp..dp + i] + [0];
  }

  /** Copying a number into the buffer in network order. */
  method WriteNumber(buf: array<byte>, dp: nat, v: dword) returns (next: nat)
    requires dp + 4 <= buf.Length
    modifies buf
    ensures next == dp + 4
    ensures buf[..next] == old(buf[..dp]) + Be32(v)
  {
    var store := Be32(v);
    var i := 0;
    while i < 4
      invariant 0 <= i <= 4
      invariant buf[..dp] == old(buf[..dp])
      invariant buf[dp..dp + i] == store[..i]
    {
      buf[dp + i] := store[i];
      i := i + 1;
    }
    next := dp + 4;
    assert buf[..next] == buf[..dp] + buf[dp..dp + 4];
  }

  /** The length of a stored form. */
  function Room(a: Account): nat {
    |a.name| + |a.pwd| + |a.loginClass| + |a.desc| + |a.dir| + |a.shell| + 26
  }

  lemma EncodedLength(a: Account)
    ensures |Encode(a)| == Room(a)
  {
    assert |EncodeFrom(a, 10)| == 4;
    assert |EncodeFrom(a, 8)| == |a.shell| + 9;
    assert |EncodeFrom(a, 6)| == |a.desc| + |a.dir| + |a.shell| + 11;
    assert |EncodeFrom(a, 4)| == |a.loginClass| + |a.desc| + |a.dir| + |a.shell| + 16;
    assert |EncodeFrom(a, 2)| == |a.loginClass| + |a.desc| + |a.dir| + |a.shell| + 24;
    assert |EncodeFrom(a, 1)| == |a.pwd| + 1 + |EncodeFrom(a, 2)|;
  }

  /** What is still to be written once the buffer holds the fields below i. */
  ghost predicate WrittenTo(a: Account, i: nat, done: seq<byte>) {
    i <= FIELDS && done + EncodeFrom(a, i) == Encode(a)
  }

  lemma NextField(a: Account, i: nat, done: seq<byte>)
    requires i < FIELDS && WrittenTo(a, i, done)
    ensures WrittenTo(a, i + 1, done + Field(a, i))
    ensures |done| + |Field(a, i)| <= |Encode(a)|
  {
    assert EncodeFrom(a, i) == Field(a, i) + EncodeFrom(a, i + 1);
    assert done + (Field(a, i) + EncodeFrom(a, i + 1)) == done + Field(a, i) + EncodeFrom(a, i + 1);
  }

  /** The fields up to the numbers in the middle. */
  method WriteFront(a: Account, buf: array<byte>) returns (dp: nat)
    requires buf.Length == RECORD_ROOM && |Encode(a)| <= RECORD_ROOM
    modifies buf
    ensures dp <= buf.Length && WrittenTo(a, 5, buf[..dp])
  {
    hide WrittenTo, Encode, Be32, FieldBits;
    dp := 0;
    WriteStart(a, buf[..dp]);
    NextField(a, 0, buf[..dp]);
    dp := WriteString(buf, dp, a.name);
    NextField(a, 1, buf[..dp]);
    dp := WriteString(buf, dp, a.pwd);
    NextField(a, 2, buf[..dp]);
    dp := WriteNumber(buf, dp, a.uid);
    NextField(a, 3, buf[..dp]);
    dp := WriteNumber(buf, dp, a.gid);
    NextField(a, 4, buf[..dp]);
    dp := WriteNumber(buf, dp, Unsigned32(a.change));
  }

  /** The texts from the login class to the shell. */
  method WriteTexts(a: Account, buf: array<byte>, from: nat) returns (dp: nat)
    requires buf.Length == RECORD_ROOM && |Encode(a)| <= RECORD_ROOM
    requires from <= buf.Length && WrittenTo(a, 5, buf[..from])
    modifies buf
    ensures dp <= buf.Length && WrittenTo(a, 9, buf[..dp])
  {
    hide WrittenTo, Encode, Be32, FieldBits;
    dp := from;
    NextField(a, 5, buf[..dp]);
    dp := WriteString(buf, dp, a.loginClass);
    NextField(a, 6, buf[..dp]);
    dp := WriteString(buf, dp, a.desc);
    NextField(a, 7, buf[..dp]);
    dp := WriteString(buf, dp, a.dir);
    NextField(a, 8, buf[..dp]);
    dp := WriteString(buf, dp, a.shell);
  }

  lemma WriteStart(a: Account, done: seq<byte>)
    requires done == []
    ensures WrittenTo(a, 0, done)
  {
  }

  /** The stored form of an account, put together in a buffer of fixed size. */
  method WriteRecord(a: Account) returns (data: seq<byte>)
    requires |Encode(a)| <= RECORD_ROOM
    ensures data == Encode(a)
  {
    hide WrittenTo, Encode, Be32, FieldBits;
    var buf := new byte[RECORD_ROOM];
    var dp := WriteFront(a, buf);
    dp := WriteTexts(a, buf, dp);
    NextField(a, 9, buf[..dp]);
    dp := WriteNumber(buf, dp, Unsigned32(a.expire));
    NextField(a, 10, buf[..dp]);
    dp := WriteNumber(buf, dp, FieldBits(a));
    data := buf[..dp];
    assert data == Encode(a) by {
      WriteEnd(a, data);
    }
  }

  lemma WriteEnd(a: Account, done: seq<byte>)
    requires WrittenTo(a, FIELDS, done)
    ensures done == Encode(a)
  {
  }

  /** Copying a string out of a record: None when its NUL lies past the end. */
  method ReadString(data: seq<byte>, dp: nat) returns (r: Option<(CString, nat)>)
    requires dp <= |data|
    ensures match r
            case None => TakeString(data[dp..]).None?
            case Some((s, next)) => next <= |data| && TakeString(data[dp..]) == Some((s, data[next..]))
  {
    var s: CString, at := [], dp;
    while at < |data| && data[at] != 0
      invariant dp <= at <= |data|
      invariant s == data[dp..at]
    {
      s, at := s + [data[at]], at + 1;
    }
    if at == |data| {
      NoString(data[dp..]);
      return None;
    }
    assert data[dp..] == s + [0] + data[at + 1..];
    TakeStringBack(s, data[at + 1..]);
    return Some((s, at + 1));
  }

  lemma {:induction false} NoString(b: seq<byte>)
    requires 0 !in b
    ensures TakeString(b).None?
  {
    if b != [] {
      NoString(b[1..]);
    }
  }

  /** Copying a number out of a record: None when it reaches past the end. */
  method ReadNumber(data: seq<byte>, dp: nat) returns (r: Option<(dword, nat)>)
    requires dp <= |data|
    ensures match r
            case None => TakeNumber(data[dp..]).None?
            case Some((v, next)) => next <= |data| && TakeNumber(data[dp..]) == Some((v, data[next..]))
  {
    if dp + 4 > |data| {
      return None;
    }
    assert data[dp..][..4] == data[dp..dp + 4] && data[dp..][4..] == data[dp + 4..];
    return Some((Unsigned32(FromBigEndian(data[dp..dp + 4])), dp + 4));
  }

  /** The name and uid in front of a stored form, and the rest. */
  function TakeHead(b: seq<byte>): Option<(CString, CString, dword, seq<byte>)> {
    var (name, b1) :- TakeString(b);
    var (pwd, b2) :- TakeString(b1);
    var (uid, b3) :- TakeNumber(b2);
    Some((name, pwd, uid, b3))
  }

  /** What a record shows: nothing of an account whose uid is outside first..last; None when it is cut short. */
  function Peek(b: seq<byte>, first: nat, last: nat): Option<Option<Account>> {
    var (name, pwd, uid, rest) :- TakeHead(b);
    if first <= uid <= last then
      var a :- Decode(b);
      Some(Some(a))
    else Some(None)
  }

  /** What was written shows exactly the account, if its uid is within the bounds. */
  lemma PeekBack(a: Account, first: nat, last: nat)
    ensures Peek(Encode(a), first, last) == Some(if first <= a.uid <= last then Some(a) else None)
  {
    RecordRoundTrip(a);
    HeadBack(a);
  }

  lemma HeadBack(a: Account)
    ensures TakeHead(Encode(a)) == Some((a.name, a.pwd, a.uid, EncodeFrom(a, 3)))
  {
    TakeStringBack(a.name, EncodeFrom(a, 1));
    TakeStringBack(a.pwd, EncodeFrom(a, 2));
    TakeNumberBack(a.uid, EncodeFrom(a, 3));
  }

  /** Reading a record through a pointer; the fields behind an invisible uid are not looked at. */
  method ReadRecord(data: seq<byte>, first: nat, last: nat) returns (r: Option<Option<Account>>)
    ensures r == Peek(data, first, last)
  {
    hide TakeString, TakeNumber;
    assert data[0..] == data;
    var name :- ReadString(data, 0);
    var pwd :- ReadString(data, name.1);
    var uid :- ReadNumber(data, pwd.1);
    if uid.0 < first || uid.0 > last {
      return Some(None);
    }
    var gid :- ReadNumber(data, uid.1);
    var change :- ReadNumber(data, gid.1);
    var loginClass :- ReadString(data, change.1);
    var desc :- ReadString(data, loginClass.1);
    var dir :- ReadString(data, desc.1);
    var shell :- ReadString(data, dir.1);
    var expire :- ReadNumber(data, shell.1);
    if expire.1 + 4 > |data| {
      return None;
    }
    return Some(Some(Account(name.0, pwd.0, uid.0, gid.0, Signed32(change.0), loginClass.0, desc.0, dir.0, shell.0,
                             Signed32(expire.0))));
  }
}
