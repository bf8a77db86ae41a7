/** Bytes and the fixed-width integers of the C code. */
module Bytes {
  type Byte = b: int | 0 <= b < 0x100
  type Int32 = i: int | -0x8000_0000 <= i < 0x8000_0000

  const TWO32: nat := 0x1_0000_0000

  /** The two's complement bit pattern of a C `int`, read as an unsigned number. */
  function Unsigned(i: Int32): (u: nat)
    ensures u < TWO32
    ensures u == i || u == i + TWO32
  {
    if i < 0 then i + TWO32 else i
  }

  function Signed(u: nat): (i: Int32)
    requires u < TWO32
    ensures Unsigned(i) == u
  {
    if u < 0x8000_0000 then u else u - TWO32
  }

  /** u as n bytes, least significant first. */
  function EncodeNat(u: nat, n: nat): (b: seq<Byte>)
    ensures |b| == n
  {
    if n == 0 then [] else [u % 0x100] + EncodeNat(u / 0x100, n - 1)
  }

  function DecodeNat(b: seq<Byte>): nat {
    if b == [] then 0 else b[0] as int + 0x100 * DecodeNat(b[1..])
  }

  function PowerOf256(n: nat): nat {
    if n == 0 then 1 else 0x100 * PowerOf256(n - 1)
  }

  lemma {:induction false} NatRoundTrip(u: nat, n: nat)
    requires u < PowerOf256(n)
    ensures DecodeNat(EncodeNat(u, n)) == u
  {
    if n > 0 {
      NatRoundTrip(u / 0x100, n - 1);
      assert EncodeNat(u, n)[1..] == EncodeNat(u / 0x100, n - 1);
    }
  }

  lemma {:induction false} DecodeNatBound(b: seq<Byte>)
    ensures DecodeNat(b) < PowerOf256(|b|)
  {
    if b != [] {
      DecodeNatBound(b[1..]);
    }
  }

  /** The four bytes of an `int` in memory, least significant first. */
  function EncodeInt(i: Int32): (b: seq<Byte>)
    ensures |b| == 4
  {
    EncodeNat(Unsigned(i), 4)
  }

  function DecodeInt(b: seq<Byte>): Int32
    requires |b| == 4
  {
    DecodeNatBound(b);
    PowerOf256Of4();
    Signed(DecodeNat(b))
  }

  lemma {:induction false} PowerOf256Of4()
    ensures PowerOf256(4) == TWO32
  {
    assert PowerOf256(2) == 0x1_0000;
  }

  lemma {:induction false} IntRoundTrip(i: Int32)
    ensures DecodeInt(EncodeInt(i)) == i
  {
    PowerOf256Of4();
    NatRoundTrip(Unsigned(i), 4);
  }

  lemma {:induction false} SliceConcat<T>(s: seq<T>, i: nat, j: nat, k: nat)
    requires i <= j <= k <= |s|
    ensures s[i..j] + s[j..k] == s[i..k]
  {
  }
}
