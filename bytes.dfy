/** Fixed-width unsigned integers and their big-endian byte layout. */
module Bytes {

  type byte = b: int | 0 <= b < 0x100
  type uint16 = x: int | 0 <= x < 0x1_0000
  type uint32 = x: int | 0 <= x < 0x1_0000_0000
  type uint64 = x: int | 0 <= x < 0x1_0000_0000_0000_0000
  type int32 = x: int | -0x8000_0000 <= x < 0x8000_0000

  const TWO_POW_32: int := 0x1_0000_0000

  /** `n` zero bytes. */
  function Zeros(n: nat): (r: seq<byte>)
    ensures |r| == n
    ensures forall k | 0 <= k < n :: r[k] == 0
  {
    seq(n, _ => 0)
  }

  /** Most significant byte first, two bytes. */
  function Be16(x: uint16): (r: seq<byte>)
    ensures |r| == 2
  {
    [x / 0x100, x % 0x100]
  }

  function ReadBe16(s: seq<byte>): (r: uint16)
    requires |s| >= 2
  {
    ReadBeBound(s[..2]);
    ReadBe(s[..2])
  }

  /** Most significant byte first, four bytes. */
  function Be32(x: uint32): (r: seq<byte>)
    ensures |r| == 4
  {
    [x / 0x100_0000, (x / 0x1_0000) % 0x100, (x / 0x100) % 0x100, x % 0x100]
  }

  /** 256 to the power `n`: one more than the largest value `n` bytes can hold. */
  function Pow256(n: nat): (r: nat)
    ensures r >= 1
  {
    if n == 0 then 1 else 0x100 * Pow256(n - 1)
  }

  /** The unsigned number whose big-endian bytes are `s`. */
  function ReadBe(s: seq<byte>): nat
  {
    if s == [] then 0 else ReadBe(s[..|s| - 1]) * 0x100 + s[|s| - 1] as int
  }

  lemma {:induction false} ReadBeBound(s: seq<byte>)
    ensures ReadBe(s) < Pow256(|s|)
  {
    if s != [] {
      ReadBeBound(s[..|s| - 1]);
    }
  }

  /** Appending a byte shifts the value up by one byte. */
  lemma ReadBeSnoc(s: seq<byte>, b: byte)
    ensures ReadBe(s + [b]) == ReadBe(s) * 0x100 + b as int
  {
    assert (s + [b])[..|s|] == s;
  }

  /** Four bytes read as a weighted sum of their digits. */
  lemma ReadBeDigits(s: seq<byte>)
    requires |s| >= 4
    ensures ReadBe(s[..2]) == s[0] as int * 0x100 + s[1] as int
    ensures ReadBe(s[..4]) == s[0] as int * 0x100_0000 + s[1] as int * 0x1_0000 + s[2] as int * 0x100 + s[3] as int
  {
    assert s[..1] == [] + [s[0]];
    ReadBeSnoc([], s[0]);
    assert s[..2] == s[..1] + [s[1]];
    ReadBeSnoc(s[..1], s[1]);
    assert s[..3] == s[..2] + [s[2]];
    ReadBeSnoc(s[..2], s[2]);
    assert s[..4] == s[..3] + [s[3]];
    ReadBeSnoc(s[..3], s[3]);
  }

  function ReadBe32(s: seq<byte>): (r: uint32)
    requires |s| >= 4
  {
    ReadBeBound(s[..4]);
    ReadBe(s[..4])
  }

  function ReadBe64(s: seq<byte>): (r: uint64)
    requires |s| >= 8
  {
    ReadBeBound(s[..8]);
    ReadBe(s[..8])
  }

  lemma Be16RoundTrip(x: uint16)
    ensures ReadBe16(Be16(x)) == x
  {
    ReadBeDigits(Be16(x) + [0, 0]);
    assert (Be16(x) + [0, 0])[..2] == Be16(x)[..2];
  }

  /** Reading back the four bytes written for `x` gives `x`. */
  lemma Be32RoundTrip(x: uint32)
    ensures ReadBe32(Be32(x)) == x
  {
    var q1, b3 := x / 0x100, x % 0x100;
    var q2, b2 := q1 / 0x100, q1 % 0x100;
    var b0, b1 := q2 / 0x100, q2 % 0x100;
    assert q2 == x / 0x1_0000;
    assert b0 == x / 0x100_0000;
    assert x == ((b0 * 0x100 + b1) * 0x100 + b2) * 0x100 + b3;
    ReadBeDigits(Be32(x));
  }

  /** Writing the value read from four bytes reproduces those bytes. */
  lemma ReadBe32RoundTrip(s: seq<byte>)
    requires |s| >= 4
    ensures Be32(ReadBe32(s)) == s[..4]
  {
    ReadBeDigits(s);
    var x := ReadBe32(s);
    var a, b, c, d := s[0] as int, s[1] as int, s[2] as int, s[3] as int;
    DivModUnique(x, a * 0x1_0000 + b * 0x100 + c, d);
    DivModUnique(x / 0x100, a * 0x100 + b, c);
    DivModUnique(x / 0x1_0000, a, b);
    assert x / 0x1_0000 == (x / 0x100) / 0x100;
    assert x / 0x100_0000 == (x / 0x1_0000) / 0x100;
  }

  /** Euclidean division is determined by a quotient and a remainder in range. */
  lemma DivModUnique(x: int, q: int, r: int)
    requires 0 <= r < 0x100 && x == q * 0x100 + r
    ensures x / 0x100 == q && x % 0x100 == r
  {
  }

  /** Reading ignores whatever follows the first four bytes. */
  lemma ReadBe32Prefix(s: seq<byte>, t: seq<byte>)
    requires |s| >= 4
    ensures ReadBe32(s + t) == ReadBe32(s)
  {
    assert (s + t)[..4] == s[..4];
  }
}
