/** Writing control messages into a buffer that grows, and reading them with a loop over their headers. */
module ControlBuffers {
  import opened Bytes
  import opened ControlMessages

  /** Estimated size of a message when the buffer is first allocated. */
  const ESTIMATE: nat := 20

  /** The i-th byte of an encoded message. */
  function EncodedByte(n: nat, level: int, kind: int, body: seq<byte>, i: nat): byte
    requires |body| == n && i < Space(n)
  {
    if i < 4 then Le32(Unsigned32(Len(n)))[i]
    else if i < 8 then Le32(Unsigned32(level))[i - 4]
    else if i < 12 then Le32(Unsigned32(kind))[i - 8]
    else if HEADER <= i < HEADER + n then body[i - HEADER]
    else 0
  }

  lemma EncodedByteIs(reg: Registry, m: Message, i: nat)
    requires Writable(reg, m) && i < |Encode(reg, m)|
    ensures var k := Lookup(reg, m.level, m.kind).value;
            Encode(reg, m)[i] == EncodedByte(SizeOf(k), m.level, m.kind, Body(k, m.data), i)
  {
    hide Le32, Unsigned32, Body, Lookup;
  }

  class ControlBuffer {
    var buf: array<byte>
    var offset: nat

    /** Behind the messages written so far the buffer is zero. */
    ghost predicate Valid()
      reads this, buf
    {
      offset <= buf.Length && forall i | offset <= i < buf.Length :: buf[i] == 0
    }

    ghost function Written(): seq<byte>
      requires offset <= buf.Length
      reads this, buf
    {
      buf[..offset]
    }

    constructor (num: nat)
      ensures Valid() && fresh(buf) && buf.Length == num * Space(ESTIMATE) && Written() == []
    {
      buf := new byte[num * Space(ESTIMATE)](i => 0);
      offset := 0;
    }

    /** Making room: twice what is required is added, and everything behind the messages is cleared. */
    method Reserve(required: nat)
      requires Valid()
      modifies this`buf
      ensures Valid() && Written() == old(Written()) && offset + required <= buf.Length
      ensures buf == old(buf) || fresh(buf)
    {
      if buf.Length - offset < required {
        var from := buf;
        var grown := new byte[from.Length + 2 * required](i requires 0 <= i < from.Length + 2 * required reads from =>
          if i < from.Length then from[i] else 0);
        var i := offset;
        while i < grown.Length
          invariant offset <= i <= grown.Length
          invariant forall j | 0 <= j < offset :: grown[j] == from[j]
          invariant forall j | offset <= j < i :: grown[j] == 0
        {
          grown[i] := 0;
          i := i + 1;
        }
        buf := grown;
      }
    }

    /** Copying bytes into the buffer. */
    method Put(at: nat, s: seq<byte>)
      requires at + |s| <= buf.Length
      modifies buf
      ensures forall i | 0 <= i < buf.Length :: buf[i] == if at <= i < at + |s| then s[i - at] else old(buf[i])
    {
      var n := 0;
      while n < |s|
        invariant 0 <= n <= |s|
        invariant forall i | 0 <= i < buf.Length :: buf[i] == if at <= i < at + n then s[i - at] else old(buf[i])
      {
        buf[at + n] := s[n];
        n := n + 1;
      }
    }

    /** The integer converters: a number that does not fit its field is an error. */
    method PutInt(at: nat, value: int) returns (ok: bool)
      requires at + 4 <= buf.Length
      modifies buf
      ensures ok == IsInt(value)
      ensures ok ==> forall i | 0 <= i < buf.Length ::
                buf[i] == if at <= i < at + 4 then Le32(Unsigned32(value))[i - at] else old(buf[i])
    {
      hide Le32, Unsigned32;
      if !IsInt(value) {
        return false;
      }
      Put(at, Le32(Unsigned32(value)));
      ok := true;
    }

    method PutUnsigned(at: nat, value: int, limit: int) returns (ok: bool)
      requires at + 4 <= buf.Length && limit <= 0x1_0000_0000
      modifies buf
      ensures ok == (0 <= value < limit)
      ensures ok ==> forall i | 0 <= i < buf.Length ::
                buf[i] == if at <= i < at + 4 then Le32(value)[i - at] else old(buf[i])
    {
      hide Le32;
      if value < 0 || value >= limit {
        return false;
      }
      Put(at, Le32(value));
      ok := true;
    }

    /** The value of a message, field by field. */
    method PutBody(k: Kind, d: Data, at: nat) returns (ok: bool)
      requires at + SizeOf(k) <= buf.Length
      modifies buf
      ensures ok == Fits(k, d)
      ensures ok ==> forall i | 0 <= i < buf.Length ::
                buf[i] == if at <= i < at + SizeOf(k) then Body(k, d)[i - at] else old(buf[i])
    {
      hide Le32, Unsigned32;
      match k
      case PktInfo =>
        if !d.Info? || |d.addr| != 16 {
          return false;
        }
        Put(at, d.addr);
        ok := PutUnsigned(at + 16, d.ifindex, 0x1_0000_0000);
      case Number =>
        if !d.Value? {
          return false;
        }
        ok := PutInt(at, d.value);
      case Credentials =>
        if !d.Cred? {
          return false;
        }
        ok := PutUnsigned(at, d.pid, 0x8000_0000);
        if ok {
          ok := PutUnsigned(at + 4, d.uid, 0x1_0000_0000);
        }
        if ok {
          ok := PutUnsigned(at + 8, d.gid, 0x1_0000_0000);
        }
    }

    /** One message behind those written so far; they stay as they are, whether or not the buffer grows. */
    method WriteControl(reg: Registry, m: Message) returns (ok: bool)
      requires Valid()
      modifies this, buf
      ensures ok == Writable(reg, m)
      ensures ok ==> Valid() && Written() == old(Written()) + Encode(reg, m)
      ensures buf == old(buf) || fresh(buf)
    {
      hide Le32, Unsigned32, Body, Encode, Fits;
      if !IsInt(m.level) || !IsInt(m.kind) {
        return false;
      }
      var entry := Lookup(reg, m.level, m.kind);
      if entry.None? {
        return false;
      }
      var n := SizeOf(entry.value);
      Reserve(Space(n));
      ghost var done, b := Written(), buf[..];
      var _ := PutInt(offset + 4, m.level);
      var _ := PutInt(offset + 8, m.kind);
      Put(offset, Le32(Unsigned32(Len(n))));
      ok := PutBody(entry.value, m.data, offset + HEADER);
      if ok {
        forall i | 0 <= i < Space(n)
          ensures buf[offset + i] == Encode(reg, m)[i]
        {
          EncodedByteIs(reg, m, i);
        }
        assert buf[..offset + Space(n)] == done + Encode(reg, m);
      }
      offset := offset + Space(n);
    }
  }

  /** A list of messages as control data; None as soon as one of them cannot be written. */
  method WriteControlArray(reg: Registry, ms: seq<Message>) returns (r: Option<seq<byte>>)
    ensures r == if AllWritable(reg, ms) then Some(EncodeAll(reg, ms)) else None
    ensures r.Some? ==> |r.value| == SpaceOfAll(reg, ms)
  {
    hide Writable, Encode;
    if |ms| == 0 {
      return Some([]);
    }
    var control := new ControlBuffer(|ms|);
    var i := 0;
    while i < |ms|
      invariant 0 <= i <= |ms| && fresh(control) && fresh(control.buf) && control.Valid()
      invariant AllWritable(reg, ms[..i]) && control.Written() == EncodeAll(reg, ms[..i])
    {
      var ok := control.WriteControl(reg, ms[i]);
      if !ok {
        return None;
      }
      assert ms[..i + 1] == ms[..i] + [ms[i]];
      EncodeAppend(reg, ms[..i], ms[i]);
      i := i + 1;
    }
    assert ms[..i] == ms;
    ControlLength(reg, ms);
    r := Some(control.buf[..control.offset]);
  }

  /** Reading control data header by header, up to the first error. */
  method ReadControlArray(reg: Registry, b: seq<byte>) returns (r: Outcome)
    ensures r == ReadAll(reg, b)
  {
    if |b| < HEADER_SIZE {
      return Read([]);
    }
    hide Walk, Behind, Next, ReadOne;
    var list, at := [], Some(0);
    NothingRead(Walk(reg, b, 0));
    while at.Some?
      invariant at.Some? ==> at.value + HEADER_SIZE <= |b|
      invariant Walk(reg, b, 0) == Behind(list, WalkFrom(reg, b, at))
      decreases if at.Some? then |b| - at.value else -1
    {
      WalkStep(reg, b, at.value, list);
      var one := ReadOne(reg, b, at.value);
      if !one.Read? {
        return one;
      }
      list := list + one.messages;
      at := Next(b, at.value);
    }
    NothingLeft(list);
    r := Read(list);
  }

  /** An outcome behind messages that were read before. */
  function Behind(list: seq<Message>, rest: Outcome): Outcome {
    if rest.Read? then Read(list + rest.messages) else rest
  }

  function WalkFrom(reg: Registry, b: seq<byte>, at: Option<nat>): Outcome
    requires at.Some? ==> at.value + HEADER_SIZE <= |b|
  {
    if at.Some? then Walk(reg, b, at.value) else Read([])
  }

  lemma NothingRead(rest: Outcome)
    ensures Behind([], rest) == rest
  {
    if rest.Read? {
      assert [] + rest.messages == rest.messages;
    }
  }

  lemma NothingLeft(list: seq<Message>)
    ensures Behind(list, Read([])) == Read(list)
  {
    assert list + [] == list;
  }

  /** One header further on: what is left to read starts strictly behind. */
  lemma WalkStep(reg: Registry, b: seq<byte>, pos: nat, list: seq<Message>)
    requires pos + HEADER_SIZE <= |b|
    ensures var one := ReadOne(reg, b, pos);
            if !one.Read? then Behind(list, Walk(reg, b, pos)) == one
            else
              && Behind(list, Walk(reg, b, pos)) == Behind(list + one.messages, WalkFrom(reg, b, Next(b, pos)))
              && (Next(b, pos).Some? ==> Next(b, pos).value > pos)
  {
    hide Lookup, ReadBody, SizeOf, SignedAt;
    var one := ReadOne(reg, b, pos);
    if one.Read? {
      hide ReadOne;
      assert one.messages + [] == one.messages;
      var rest := WalkFrom(reg, b, Next(b, pos));
      if rest.Read? {
        assert list + (one.messages + rest.messages) == list + one.messages + rest.messages;
      }
    }
  }

  lemma {:induction false} EncodeAppend(reg: Registry, ms: seq<Message>, m: Message)
    requires AllWritable(reg, ms) && Writable(reg, m)
    ensures AllWritable(reg, ms + [m])
    ensures EncodeAll(reg, ms + [m]) == EncodeAll(reg, ms) + Encode(reg, m)
  {
    hide Encode, Writable;
    if ms == [] {
      assert [] + [m] == [m];
    } else {
      EncodeAppend(reg, ms[1..], m);
      assert (ms + [m])[1..] == ms[1..] + [m];
      assert Writable(reg, ms[0]);
    }
  }
}
