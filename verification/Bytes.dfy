/** Machine words and their network (big-endian) byte order. */
module Bytes {
  type byte = x: int | 0 <= x < 0x100
  type u16 = x: int | 0 <= x < 0x1_0000
  type u32 = x: int | 0 <= x < 0x1_0000_0000
  type i32 = x: int | -0x8000_0000 <= x < 0x8000_0000

  function U16ToBe(n: u16): (s: seq<byte>)
    ensures |s| == 2
  {
    [n / 0x100, n % 0x100]
  }

  function U16FromBe(s: seq<byte>): u16
    requires |s| == 2
  {
    s[0] as int * 0x100 + s[1] as int
  }

  function U32ToBe(n: u32): (s: seq<byte>)
    ensures |s| == 4
  {
    U16ToBe(n / 0x1_0000) + U16ToBe(n % 0x1_0000)
  }

  function U32FromBe(s: seq<byte>): u32
    requires |s| == 4
  {
    U16FromBe(s[..2]) as int * 0x1_0000 + U16FromBe(s[2..]) as int
  }

  /** Two's complement: the upper half of the unsigned range is negative. */
  function I32ToBe(n: i32): (s: seq<byte>)
    ensures |s| == 4
  {
    U32ToBe(if n < 0 then n + 0x1_0000_0000 else n)
  }

  function I32FromBe(s: seq<byte>): i32
    requires |s| == 4
  {
    var n := U32FromBe(s);
    if n < 0x8000_0000 then n else n - 0x1_0000_0000
  }

  lemma U16RoundTrip(n: u16)
    ensures U16FromBe(U16ToBe(n)) == n
  {
  }

  lemma U32RoundTrip(n: u32)
    ensures U32FromBe(U32ToBe(n)) == n
  {
    var s := U32ToBe(n);
    assert s[..2] == U16ToBe(n / 0x1_0000) && s[2..] == U16ToBe(n % 0x1_0000);
  }

  lemma I32RoundTrip(n: i32)
    ensures I32FromBe(I32ToBe(n)) == n
  {
    U32RoundTrip(if n < 0 then n + 0x1_0000_0000 else n);
  }

  /** The 16-bit number whose bytes start at `i`, most significant first. */
  function HalfAt(s: seq<byte>, i: nat): int
    requires i + 2 <= |s|
  {
    s[i] as int * 256 + s[i + 1] as int
  }

  /** The 32-bit number whose bytes start at `i`, most significant first. */
  function WordAt(s: seq<byte>, i: nat): int
    requires i + 4 <= |s|
  {
    s[i] as int * 16777216 + s[i + 1] as int * 65536 + s[i + 2] as int * 256 + s[i + 3] as int
  }

  /** Network order, in numbers: the most significant byte comes first. */
  lemma NetworkOrder(n: u16, w: u32, i: i32)
    ensures HalfAt(U16ToBe(n), 0) == n && WordAt(U32ToBe(w), 0) == w
    ensures WordAt(I32ToBe(i), 0) == if i < 0 then i + 4294967296 else i
  {
    U32Bytes(w);
    U32Bytes(if i < 0 then i + 4294967296 else i);
  }

  lemma U32Bytes(w: u32)
    ensures WordAt(U32ToBe(w), 0) == w
  {
    var high, low := w / 65536, w % 65536;
    var b := U32ToBe(w);
    assert b[0] == high / 256 && b[1] == high % 256 && b[2] == low / 256 && b[3] == low % 256;
    assert high / 256 * 256 + high % 256 == high && low / 256 * 256 + low % 256 == low;
  }

  lemma NetworkOrderRead(s: seq<byte>)
    ensures |s| == 2 ==> U16FromBe(s) == HalfAt(s, 0)
    ensures |s| == 4 ==> U32FromBe(s) == WordAt(s, 0)
    ensures |s| == 4 ==> I32FromBe(s) == if s[0] < 128 then WordAt(s, 0) else WordAt(s, 0) - 4294967296
  {
  }

  function Zeros(n: nat): (s: seq<byte>)
    ensures |s| == n && forall i :: 0 <= i < n ==> s[i] == 0
  {
    seq(n, i => 0)
  }
}
