/** Machine integers and byte order, as the C sources see them. */
module Bytes {

  /** An 8-bit unsigned char. */
  type byte = x: int | 0 <= x < 0x100

  /** A 32-bit unsigned integer (DWORD, uint32_t). */
  type dword = x: int | 0 <= x < 0x1_0000_0000

  /** A C string, without its NUL. */
  type CString = s: seq<byte> | 0 !in s

  /** A 32-bit signed integer. */
  type int32 = x: int | -0x8000_0000 <= x < 0x8000_0000

  /** The modulus of a 64-bit size_t. */
  const SIZE_T: int := 0x1_0000_0000_0000_0000

  type size_t = x: int | 0 <= x < SIZE_T

  /** A value that may be missing; usable with :- in functions that give up on the first missing one. */
  datatype Option<+T> = None | Some(value: T) {
    predicate IsFailure() {
      None?
    }

    function PropagateFailure<U>(): Option<U>
      requires None?
    {
      None
    }

    function Extract(): T
      requires Some?
    {
      value
    }
  }

  /** The 16-bit little-endian integer stored at offset at. */
  function LeWord(s: seq<byte>, at: nat): (w: nat)
    requires at + 2 <= |s|
  {
    (s[at] as int) + 0x100 * (s[at + 1] as int)
  }

  /** The 32-bit little-endian integer stored at offset at. */
  function LeDword(s: seq<byte>, at: nat): (w: dword)
    requires at + 4 <= |s|
  {
    (s[at] as int) + 0x100 * (s[at + 1] as int) + 0x1_0000 * (s[at + 2] as int) + 0x100_0000 * (s[at + 3] as int)
  }

  /** The n little-endian 32-bit integers that start at offset at. */
  function LeDwords(s: seq<byte>, at: nat, n: nat): (w: seq<dword>)
    requires at + 4 * n <= |s|
    ensures |w| == n
    ensures forall i | 0 <= i < n :: w[i] == LeDword(s, at + 4 * i)
  {
    seq(n, i requires 0 <= i < n => LeDword(s, at + 4 * i))
  }

  function Min(a: int, b: int): (m: int)
    ensures m <= a && m <= b && (m == a || m == b)
  {
    if a <= b then a else b
  }

  /** The low 32 bits of a number, as an unsigned and as a signed integer. */
  function Unsigned32(x: int): dword {
    x % 0x1_0000_0000
  }

  function Signed32(x: int): int32 {
    var u := x % 0x1_0000_0000;
    if u < 0x8000_0000 then u else u - 0x1_0000_0000
  }

  lemma SignedRoundTrip(x: int)
    ensures Signed32(Unsigned32(x)) == Signed32(x)
    ensures -0x8000_0000 <= x < 0x8000_0000 ==> Signed32(x) == x
    ensures 0 <= x < 0x1_0000_0000 ==> Unsigned32(x) == x
  {
  }
}
