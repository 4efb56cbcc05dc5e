/** Ancillary data: control messages as bytes, and the walk over their headers. */
module ControlMessages {
  import opened Bytes

  // ---------------------------------------------------------------------------
  // Sizes, as in the ancillary-data macros of section 5 of RFC 3542
  // ---------------------------------------------------------------------------

  /** A header of three 32-bit fields, and its size when aligned. */
  const HEADER_SIZE: nat := 12
  const HEADER: nat := 16

  function Align(n: nat): (a: nat)
    ensures a % 8 == 0 && n <= a < n + 8
  {
    (n + 7) / 8 * 8
  }

  /** CMSG_SPACE and CMSG_LEN. */
  function Space(n: nat): nat {
    HEADER + Align(n)
  }

  function Len(n: nat): nat {
    HEADER + n
  }

  // ---------------------------------------------------------------------------
  // Messages
  // ---------------------------------------------------------------------------

  datatype Kind = PktInfo | Number | Credentials

  datatype Data =
    | Info(addr: seq<byte>, ifindex: int)
    | Value(value: int)
    | Cred(pid: int, uid: int, gid: int)

  datatype Message = Message(level: int, kind: int, data: Data)

  /** The kinds of message known: the key is the level and the low three bytes of the type. */
  type Registry = map<(int, int), Kind>

  predicate IsInt(x: int) {
    -0x8000_0000 <= x < 0x8000_0000
  }

  predicate IsUnsigned(x: int) {
    0 <= x < 0x1_0000_0000
  }

  /** Looking up seven of the eight key bytes: the top byte of the type is not compared. */
  function Lookup(reg: Registry, level: int, kind: int): Option<Kind> {
    var key := (level, kind % 0x100_0000);
    if key in reg then Some(reg[key]) else None
  }

  /** So types that differ in their top byte only are the same to the registry, and others are told apart. */
  lemma TopByteIgnored(reg: Registry, level: int, kind: int, other: int)
    ensures kind % 0x100_0000 == other % 0x100_0000 ==> Lookup(reg, level, kind) == Lookup(reg, level, other)
    ensures Lookup(map[(level, kind % 0x100_0000) := Number], level, other).Some? <==>
            kind % 0x100_0000 == other % 0x100_0000
  {
  }

  function SizeOf(k: Kind): (n: nat)
    ensures 4 <= n <= 20
  {
    match k
    case PktInfo => 20
    case Number => 4
    case Credentials => 12
  }

  /** The value has the form of the kind, and its numbers fit their fields. */
  predicate Fits(k: Kind, d: Data) {
    match k
    case PktInfo => d.Info? && |d.addr| == 16 && IsUnsigned(d.ifindex)
    case Number => d.Value? && IsInt(d.value)
    case Credentials => d.Cred? && 0 <= d.pid < 0x8000_0000 && IsUnsigned(d.uid) && IsUnsigned(d.gid)
  }

  predicate Writable(reg: Registry, m: Message) {
    && IsInt(m.level) && IsInt(m.kind)
    && var k := Lookup(reg, m.level, m.kind);
       k.Some? && Fits(k.value, m.data)
  }

  predicate AllWritable(reg: Registry, ms: seq<Message>) {
    forall i | 0 <= i < |ms| :: Writable(reg, ms[i])
  }

  // ---------------------------------------------------------------------------
  // Bytes
  // ---------------------------------------------------------------------------

  function Le32(v: dword): (b: seq<byte>)
    ensures |b| == 4
  {
    var a := v / 0x100;
    var b := a / 0x100;
    [v % 0x100, a % 0x100, b % 0x100, b / 0x100]
  }

  lemma LowByte(v: nat)
    ensures v == v % 0x100 + 0x100 * (v / 0x100)
  {
  }

  lemma Le32Back(v: dword)
    ensures LeDword(Le32(v), 0) == v
  {
    var a := v / 0x100;
    var b := a / 0x100;
    var s := Le32(v);
    LowByte(v);
    LowByte(a);
    LowByte(b);
    assert s[0] == v % 0x100 && s[1] == a % 0x100 && s[2] == b % 0x100 && s[3] == b / 0x100;
  }

  function Zeros(n: nat): (z: seq<byte>)
    ensures |z| == n
    ensures forall i | 0 <= i < n :: z[i] == 0
  {
    if n == 0 then [] else Zeros(n - 1) + [0]
  }

  function Body(k: Kind, d: Data): (b: seq<byte>)
    requires Fits(k, d)
    ensures |b| == SizeOf(k)
  {
    match k
    case PktInfo => d.addr + Le32(d.ifindex)
    case Number => Le32(Unsigned32(d.value))
    case Credentials => Le32(d.pid) + Le32(d.uid) + Le32(d.gid)
  }

  function Header(n: nat, level: int, kind: int): (b: seq<byte>)
    ensures |b| == HEADER_SIZE
  {
    Le32(Unsigned32(Len(n))) + Le32(Unsigned32(level)) + Le32(Unsigned32(kind))
  }

  /** A message: header and value, each filled up with zeros to the alignment. */
  function Encode(reg: Registry, m: Message): (b: seq<byte>)
    requires Writable(reg, m)
    ensures |b| == Space(SizeOf(Lookup(reg, m.level, m.kind).value))
  {
    var k := Lookup(reg, m.level, m.kind).value;
    var n := SizeOf(k);
    Header(n, m.level, m.kind) + Zeros(HEADER - HEADER_SIZE) + Body(k, m.data) + Zeros(Align(n) - n)
  }

  function EncodeAll(reg: Registry, ms: seq<Message>): seq<byte>
    requires AllWritable(reg, ms)
  {
    if ms == [] then []
    else
      assert Writable(reg, ms[0]);
      Encode(reg, ms[0]) + EncodeAll(reg, ms[1..])
  }

  /** The space the messages take: the control length. */
  function SpaceOfAll(reg: Registry, ms: seq<Message>): nat
    requires AllWritable(reg, ms)
  {
    if ms == [] then 0
    else
      assert Writable(reg, ms[0]);
      Space(SizeOf(Lookup(reg, ms[0].level, ms[0].kind).value)) + SpaceOfAll(reg, ms[1..])
  }

  lemma {:induction false} ControlLength(reg: Registry, ms: seq<Message>)
    requires AllWritable(reg, ms)
    ensures |EncodeAll(reg, ms)| == SpaceOfAll(reg, ms)
  {
    if ms != [] {
      ControlLength(reg, ms[1..]);
    }
  }

  // ---------------------------------------------------------------------------
  // Reading
  // ---------------------------------------------------------------------------

  /** What reading gives: messages, an error, or memory behind the control buffer. */
  datatype Outcome = Read(messages: seq<Message>) | Unsupported | TooSmall | PastEnd

  function SignedAt(b: seq<byte>, at: nat): int32
    requires at + 4 <= |b|
  {
    Signed32(LeDword(b, at))
  }

  /** The value of a kind from its bytes. */
  function ReadBody(k: Kind, b: seq<byte>): Data
    requires |b| == SizeOf(k)
  {
    match k
    case PktInfo => Info(b[..16], LeDword(b, 16))
    case Number => Value(SignedAt(b, 0))
    case Credentials => Cred(SignedAt(b, 0), LeDword(b, 4), LeDword(b, 8))
  }

  /** One message at pos, and its length field. */
  function ReadOne(reg: Registry, b: seq<byte>, pos: nat): Outcome
    requires pos + HEADER_SIZE <= |b|
    ensures ReadOne(reg, b, pos).Read? ==> |ReadOne(reg, b, pos).messages| == 1 && LeDword(b, pos) > HEADER
  {
    var level, kind := SignedAt(b, pos + 4), SignedAt(b, pos + 8);
    var k := Lookup(reg, level, kind);
    if k.None? then Unsupported
    else
      var n := SizeOf(k.value);
      if Len(n) > LeDword(b, pos) then TooSmall
      else if pos + Len(n) > |b| then PastEnd
      else Read([Message(level, kind, ReadBody(k.value, b[pos + HEADER..pos + Len(n)]))])
  }

  /** Where the header after the one at pos is; None when there is no room for one. */
  function Next(b: seq<byte>, pos: nat): (next: Option<nat>)
    requires pos + HEADER_SIZE <= |b|
    ensures next.Some? ==> next.value + HEADER <= |b|
  {
    var to := pos + Align(LeDword(b, pos));
    if to + HEADER > |b| then None else Some(to)
  }

  /** The walk from the header at pos on. */
  function Walk(reg: Registry, b: seq<byte>, pos: nat): Outcome
    requires pos + HEADER_SIZE <= |b|
    decreases |b| - pos
  {
    var first := ReadOne(reg, b, pos);
    if !first.Read? then first
    else
      match Next(b, pos)
      case None => first
      case Some(to) =>
        var rest := Walk(reg, b, to);
        if rest.Read? then Read(first.messages + rest.messages) else rest
  }

  function ReadAll(reg: Registry, b: seq<byte>): Outcome {
    if |b| < HEADER_SIZE then Read([]) else Walk(reg, b, 0)
  }

  // ---------------------------------------------------------------------------
  // Reading back what was written
  // ---------------------------------------------------------------------------

  /** A number inside a longer text. */
  lemma Le32At(b: seq<byte>, at: nat, v: dword)
    requires at + 4 <= |b| && b[at..at + 4] == Le32(v)
    ensures LeDword(b, at) == v
  {
    Le32Back(v);
    var s := b[at..at + 4];
    assert s[0] == b[at] && s[1] == b[at + 1] && s[2] == b[at + 2] && s[3] == b[at + 3];
  }

  lemma SignedAtBack(b: seq<byte>, at: nat, x: int)
    requires at + 4 <= |b| && b[at..at + 4] == Le32(Unsigned32(x)) && IsInt(x)
    ensures SignedAt(b, at) == x
  {
    Le32At(b, at, Unsigned32(x));
    SignedRoundTrip(x);
  }

  lemma BodyBack(k: Kind, d: Data)
    requires Fits(k, d)
    ensures ReadBody(k, Body(k, d)) == d
  {
    hide Le32, Unsigned32, SignedAt;
    var b := Body(k, d);
    match k
    case PktInfo =>
      assert b[16..20] == Le32(d.ifindex) && b[..16] == d.addr;
      Le32At(b, 16, d.ifindex);
    case Number =>
      assert b[0..4] == b;
      SignedAtBack(b, 0, d.value);
    case Credentials =>
      CredBack(d, b);
  }

  lemma CredBack(d: Data, b: seq<byte>)
    requires d.Cred? && Fits(Credentials, d) && b == Body(Credentials, d)
    ensures SignedAt(b, 0) == d.pid && LeDword(b, 4) == d.uid && LeDword(b, 8) == d.gid
  {
    SignedRoundTrip(d.pid);
    hide Le32, Unsigned32, SignedAt;
    assert b[0..4] == Le32(d.pid) && b[4..8] == Le32(d.uid) && b[8..12] == Le32(d.gid);
    SignedAtBack(b, 0, d.pid);
    Le32At(b, 4, d.uid);
    Le32At(b, 8, d.gid);
  }

  /** The parts of an encoded message. */
  lemma PartsOf(reg: Registry, m: Message)
    requires Writable(reg, m)
    ensures var e, k := Encode(reg, m), Lookup(reg, m.level, m.kind).value;
            && e[0..4] == Le32(Unsigned32(Len(SizeOf(k))))
            && e[4..8] == Le32(Unsigned32(m.level)) && e[8..12] == Le32(Unsigned32(m.kind))
            && e[HEADER..Len(SizeOf(k))] == Body(k, m.data)
  {
    hide Le32, Unsigned32, Body, Zeros, Lookup, SizeOf;
    var e, k := Encode(reg, m), Lookup(reg, m.level, m.kind).value;
    var h := Header(SizeOf(k), m.level, m.kind);
    assert e[..12] == h;
    assert e[0..4] == h[0..4] && e[4..8] == h[4..8] && e[8..12] == h[8..12];
  }

  lemma Shifted(b: seq<byte>, pos: nat, e: seq<byte>, i: nat, j: nat)
    requires pos + |e| <= |b| && b[pos..pos + |e|] == e && i <= j <= |e|
    ensures b[pos + i..pos + j] == e[i..j]
  {
    forall k | 0 <= k < j - i
      ensures b[pos + i..pos + j][k] == e[i..j][k]
    {
      assert b[pos..pos + |e|][i + k] == b[pos + (i + k)];
    }
  }

  /** A message that stands at pos is read back, and the next header is looked for right behind it. */
  lemma OneBack(reg: Registry, m: Message, b: seq<byte>, pos: nat)
    requires Writable(reg, m)
    requires var e := Encode(reg, m); pos + |e| <= |b| && b[pos..pos + |e|] == e
    ensures ReadOne(reg, b, pos) == Read([m])
    ensures Next(b, pos) == if pos + |Encode(reg, m)| + HEADER > |b| then None else Some(pos + |Encode(reg, m)|)
  {
    var e, k := Encode(reg, m), Lookup(reg, m.level, m.kind).value;
    PartsOf(reg, m);
    BodyBack(k, m.data);
    Sizes(SizeOf(k));
    hide Encode, Le32, Unsigned32, Body, SizeOf, ReadBody, SignedAt, Lookup, Fits;
    Shifted(b, pos, e, 0, 4);
    Shifted(b, pos, e, 4, 8);
    Shifted(b, pos, e, 8, 12);
    Shifted(b, pos, e, HEADER, Len(SizeOf(k)));
    Le32At(b, pos, Unsigned32(Len(SizeOf(k))));
    SignedAtBack(b, pos + 4, m.level);
    SignedAtBack(b, pos + 8, m.kind);
  }

  lemma Sizes(n: nat)
    requires n <= 20
    ensures Unsigned32(Len(n)) == Len(n) && Align(Len(n)) == Space(n) && Len(n) <= Space(n)
  {
  }

  lemma FirstEncoded(reg: Registry, ms: seq<Message>)
    requires AllWritable(reg, ms) && ms != []
    ensures Writable(reg, ms[0]) && AllWritable(reg, ms[1..])
    ensures EncodeAll(reg, ms) == Encode(reg, ms[0]) + EncodeAll(reg, ms[1..])
    ensures |Encode(reg, ms[0])| >= HEADER
  {
    hide Writable, Encode;
    assert Writable(reg, ms[0]);
  }

  lemma NothingEncoded(reg: Registry)
    ensures AllWritable(reg, []) && EncodeAll(reg, []) == []
  {
  }

  /** What stands at pos is split into its first message and the rest. */
  lemma SplitAt(b: seq<byte>, pos: nat, e: seq<byte>, rest: seq<byte>)
    requires pos <= |b| && b[pos..] == e + rest
    ensures pos + |e| <= |b| && b[pos..pos + |e|] == e && b[pos + |e|..] == rest
  {
    var to := pos + |e|;
    assert b[pos..to] == b[pos..][..|e|];
    assert b[to..] == b[pos..][|e|..];
  }

  /** A list of messages that stands at pos is read back. */
  lemma {:induction false} WalkBack(reg: Registry, ms: seq<Message>, b: seq<byte>, pos: nat)
    requires AllWritable(reg, ms) && ms != []
    requires pos <= |b| && b[pos..] == EncodeAll(reg, ms)
    ensures pos + HEADER_SIZE <= |b| && Walk(reg, b, pos) == Read(ms)
    decreases |ms|
  {
    hide Encode, EncodeAll, Writable, AllWritable, ReadOne, Next;
    FirstEncoded(reg, ms);
    var e, rest := Encode(reg, ms[0]), ms[1..];
    var to := pos + |e|;
    SplitAt(b, pos, e, EncodeAll(reg, rest));
    OneBack(reg, ms[0], b, pos);
    if rest == [] {
      NothingEncoded(reg);
      assert ms == [ms[0]];
    } else {
      FirstEncoded(reg, rest);
      WalkBack(reg, rest, b, to);
      assert [ms[0]] + rest == ms;
    }
  }

  /** Every list of messages that can be written is read back as it was. */
  lemma ControlRoundTrip(reg: Registry, ms: seq<Message>)
    requires AllWritable(reg, ms)
    ensures ReadAll(reg, EncodeAll(reg, ms)) == Read(ms)
  {
    if ms != [] {
      WalkBack(reg, ms, EncodeAll(reg, ms), 0);
    }
  }

  predicate PidsWritable(ms: seq<Message>) {
    forall i | 0 <= i < |ms| :: ms[i].data.Cred? ==> ms[i].data.pid >= 0
  }

  lemma FirstAndRest(reg: Registry, m: Message, rest: seq<Message>)
    ensures AllWritable(reg, [m] + rest) <==> Writable(reg, m) && AllWritable(reg, rest)
    ensures PidsWritable([m] + rest) <==> (m.data.Cred? ==> m.data.pid >= 0) && PidsWritable(rest)
  {
    hide Writable;
    var ms := [m] + rest;
    assert ms[0] == m;
    assert forall i | 0 <= i < |rest| :: ms[i + 1] == rest[i];
  }

  /** The messages that are read can be written again exactly when there is no negative process id among them. */
  lemma {:induction false} ReadIsWritable(reg: Registry, b: seq<byte>, pos: nat)
    requires pos + HEADER_SIZE <= |b|
    ensures match Walk(reg, b, pos)
            case Read(ms) => AllWritable(reg, ms) <==> PidsWritable(ms)
            case _ => true
    decreases |b| - pos
  {
    var first := ReadOne(reg, b, pos);
    if first.Read? {
      OneIsWritable(reg, b, pos);
      hide ReadOne, Writable, AllWritable, PidsWritable, Align;
      FirstAndRest(reg, first.messages[0], []);
      assert first.messages == [first.messages[0]] + [];
      NoneToWrite(reg);
      match Next(b, pos) {
        case None =>
        case Some(to) =>
          ReadIsWritable(reg, b, to);
          if Walk(reg, b, to).Read? {
            FirstAndRest(reg, first.messages[0], Walk(reg, b, to).messages);
          }
      }
    }
  }

  /** A registry that knows one kind of credentials message, and a message of that kind with process id -1. */
  function CredentialsOnly(): Registry {
    map[(1, 2) := Credentials]
  }

  function NegativePid(): (b: seq<byte>)
    ensures |b| == 32
  {
    Header(12, 1, 2) + Zeros(4) + (Le32(0xFFFF_FFFF) + Le32(0) + Le32(0)) + Zeros(4)
  }

  lemma NegativePidExample()
    ensures var m := Message(1, 2, Cred(-1, 0, 0));
            ReadAll(CredentialsOnly(), NegativePid()) == Read([m]) && !Writable(CredentialsOnly(), m)
  {
    var b := NegativePid();
    assert b[0..4] == Le32(28) && b[4..8] == Le32(1) && b[8..12] == Le32(2);
    assert b[16..20] == Le32(0xFFFF_FFFF) && b[20..24] == Le32(0) && b[24..28] == Le32(0);
    hide Le32;
    Le32At(b, 0, 28);
    Le32At(b, 4, 1);
    Le32At(b, 8, 2);
    var body := b[16..28];
    assert body[0..4] == b[16..20] && body[4..8] == b[20..24] && body[8..12] == b[24..28];
    Le32At(body, 0, 0xFFFF_FFFF);
    Le32At(body, 4, 0);
    Le32At(body, 8, 0);
  }

  lemma NoneToWrite(reg: Registry)
    ensures AllWritable(reg, []) && PidsWritable([])
  {
  }

  lemma OneIsWritable(reg: Registry, b: seq<byte>, pos: nat)
    requires pos + HEADER_SIZE <= |b| && ReadOne(reg, b, pos).Read?
    ensures var m := ReadOne(reg, b, pos).messages[0];
            Writable(reg, m) <==> (m.data.Cred? ==> m.data.pid >= 0)
  {
  }
}
