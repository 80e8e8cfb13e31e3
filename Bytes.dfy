/**
 * Fixed-width integers and the little-endian byte codec that the gateway protocol uses,
 * in the terms of .NET's `BitConverter` on a little-endian machine.
 */
module Bytes {

  type Byte = b: int | 0 <= b < 0x100
  type UInt16 = x: int | 0 <= x < 0x1_0000
  type UInt32 = x: int | 0 <= x < 0x1_0000_0000
  type UInt64 = x: int | 0 <= x < 0x1_0000_0000_0000_0000
  type Int16 = x: int | -0x8000 <= x < 0x8000
  type Int32 = x: int | -0x8000_0000 <= x < 0x8000_0000

  /** 256 to the power n: one more than the largest value n bytes can hold. */
  function Pow256(n: nat): (r: nat)
    ensures r > 0
  {
    if n == 0 then 1 else 256 * Pow256(n - 1)
  }

  lemma Pow256Widths()
    ensures Pow256(2) == 0x1_0000
    ensures Pow256(4) == 0x1_0000_0000
    ensures Pow256(7) == 0x100_0000_0000_0000
    ensures Pow256(8) == 0x1_0000_0000_0000_0000
  {
  }

  /** Little-endian value of a byte string: s[0] is the least significant byte. */
  function LeValue(s: seq<Byte>): (v: nat)
    ensures v < Pow256(|s|)
  {
    if s == [] then 0 else s[0] + 256 * LeValue(s[1..])
  }

  /** The n low-order bytes of x, least significant first (BitConverter.GetBytes). */
  function LeBytes(x: nat, n: nat): (s: seq<Byte>)
    ensures |s| == n
  {
    if n == 0 then [] else [x % 256] + LeBytes(x / 256, n - 1)
  }

  /** Encoding a value that fits in n bytes and reading it back gives the value. */
  lemma {:induction false} LeValueOfLeBytes(x: nat, n: nat)
    requires x < Pow256(n)
    ensures LeValue(LeBytes(x, n)) == x
  {
    if n > 0 {
      assert x / 256 < Pow256(n - 1);
      LeValueOfLeBytes(x / 256, n - 1);
      assert LeBytes(x, n)[1..] == LeBytes(x / 256, n - 1);
    }
  }

  /** Reading a byte string and encoding the value at the same width gives the bytes back. */
  lemma {:induction false} LeBytesOfLeValue(s: seq<Byte>)
    ensures LeBytes(LeValue(s), |s|) == s
  {
    if s != [] {
      var v := LeValue(s);
      assert v % 256 == s[0] && v / 256 == LeValue(s[1..]);
      LeBytesOfLeValue(s[1..]);
    }
  }

  /** A little-endian value is zero exactly when every byte is zero. */
  lemma {:induction false} LeValueZero(s: seq<Byte>)
    ensures LeValue(s) == 0 <==> forall i :: 0 <= i < |s| ==> s[i] == 0
  {
    if s != [] {
      LeValueZero(s[1..]);
      assert forall i :: 1 <= i < |s| ==> s[i] == s[1..][i - 1];
    }
  }

  /** Appending a byte adds it at the next power of 256. */
  lemma {:induction false} LeValueAppend(s: seq<Byte>, b: Byte)
    ensures LeValue(s + [b]) == LeValue(s) + Pow256(|s|) * b
  {
    if s != [] {
      assert (s + [b])[1..] == s[1..] + [b];
      LeValueAppend(s[1..], b);
      ShiftByte(Pow256(|s| - 1), b);
    }
  }

  lemma ShiftByte(p: int, x: int)
    ensures 256 * (p * x) == (256 * p) * x
  {
  }

  /** A little-endian value splits into its low k bytes and the bytes above them. */
  lemma {:induction false} LeValueSplit(s: seq<Byte>, k: nat)
    requires k <= |s|
    ensures LeValue(s) == LeValue(s[..k]) + Pow256(k) * LeValue(s[k..])
  {
    if k > 0 {
      var rest, low := s[1..], s[..k];
      LeValueSplit(rest, k - 1);
      assert low[1..] == rest[..k - 1];
      assert rest[k - 1..] == s[k..];
      var p, x, y := Pow256(k - 1), LeValue(s[k..]), LeValue(rest[..k - 1]);
      var px := p * x;
      assert LeValue(rest) == y + px;
      assert LeValue(low) == s[0] + 256 * y;
      ShiftByte(p, x);
      assert Pow256(k) * x == 256 * px;
    } else {
      assert s[..0] == [] && s[0..] == s;
    }
  }

  /** The last of eight little-endian bytes is the value shifted right by 56 bits. */
  lemma TopByteOfU64(s: seq<Byte>)
    requires |s| == 8
    ensures LeValue(s) / 0x100_0000_0000_0000 == s[7]
  {
    assert s == s[..7] + [s[7]];
    LeValueAppend(s[..7], s[7]);
    Pow256Widths();
  }

  /** Two's-complement reinterpretation of 16 bits as a signed value (BitConverter.ToInt16). */
  function ToInt16(u: UInt16): (t: Int16)
    ensures t % 0x1_0000 == u
  {
    if u < 0x8000 then u else u - 0x1_0000
  }

  /** The 16-bit two's-complement pattern of a signed value. */
  function FromInt16(t: Int16): (u: UInt16)
    ensures ToInt16(u) == t
  {
    t % 0x1_0000
  }

  /** The 32-bit two's-complement pattern of a C# `int` (what BitConverter.GetBytes(int) writes). */
  function Wire32(x: Int32): (u: UInt32)
    ensures (x >= 0 ==> u == x) && (x < 0 ==> u == x + 0x1_0000_0000)
  {
    x % 0x1_0000_0000
  }

  const MaxInt32: Int32 := 0x7FFF_FFFF
  const MinInt32: Int32 := -0x8000_0000

  /** C#'s unchecked `++` on an `int`: wraps from int.MaxValue to int.MinValue. */
  function Inc32(x: Int32): (r: Int32)
    ensures x < MaxInt32 ==> r == x + 1
    ensures Wire32(r) == (Wire32(x) + 1) % 0x1_0000_0000
  {
    if x == MaxInt32 then MinInt32 else x + 1
  }

  /** The four bytes of a session id as they go on the wire. */
  function Int32Bytes(x: Int32): (s: seq<Byte>)
    ensures |s| == 4
  {
    LeBytes(Wire32(x), 4)
  }

  /** The session id can be recovered from its four wire bytes. */
  lemma Int32BytesRoundTrip(x: Int32)
    ensures LeValue(Int32Bytes(x)) == Wire32(x)
    ensures ToInt32(LeValue(Int32Bytes(x))) == x
  {
    Pow256Widths();
    LeValueOfLeBytes(Wire32(x), 4);
  }

  /** Reinterpretation of 32 bits as a C# `int` (BitConverter.ToInt32). */
  function ToInt32(u: UInt32): (x: Int32)
    ensures Wire32(x) == u
  {
    if u < 0x8000_0000 then u else u - 0x1_0000_0000
  }
}
