/**
 IPv6 addresses as 16 bytes, changed in place with carries (base/openvas_hosts.c), and the
 128-bit numbers they stand for.
 */
module Ipv6 {
  import opened Bytes
  import opened Addresses

  /** The number a byte string stands for, most significant byte first. */
  function Val(s: seq<Byte>): nat {
    if s == [] then 0 else 256 * Val(s[..|s| - 1]) + s[|s| - 1] as int
  }

  lemma {:induction false} ValSplit(s: seq<Byte>, b: Byte)
    ensures Val(s + [b]) == 256 * Val(s) + b as int
  {
    assert (s + [b])[..|s|] == s;
  }

  lemma {:induction false} Pow2Byte(n: nat)
    requires n >= 8
    ensures Pow2(n) == 256 * Pow2(n - 8)
  {
    Pow2Sum(8, n - 8);
    assert Pow2(8) == 256;
  }

  lemma {:induction false} ValBound(s: seq<Byte>)
    ensures Val(s) < Pow2(8 * |s|)
  {
    if s != [] {
      ValBound(s[..|s| - 1]);
      Pow2Byte(8 * |s|);
    }
  }

  /** Equal numbers have equal bytes. */
  lemma {:induction false} ValInjective(a: seq<Byte>, b: seq<Byte>)
    requires |a| == |b| && Val(a) == Val(b)
    ensures a == b
  {
    if a != [] {
      ValInjective(a[..|a| - 1], b[..|b| - 1]);
      assert a == a[..|a| - 1] + [a[|a| - 1]] && b == b[..|b| - 1] + [b[|b| - 1]];
    }
  }

  // ----- comparison

  function Sign(n: int): int {
    if n < 0 then -1 else if n > 0 then 1 else 0
  }

  /** memcmp on strings of the same length. */
  function Memcmp(a: seq<Byte>, b: seq<Byte>): int
    requires |a| == |b|
  {
    if a == [] then 0
    else if a[0] != b[0] then Sign(a[0] as int - b[0] as int)
    else Memcmp(a[1..], b[1..])
  }

  lemma {:induction false} MemcmpLast(a: seq<Byte>, x: Byte, b: seq<Byte>, y: Byte)
    requires |a| == |b|
    ensures Memcmp(a + [x], b + [y]) == if Memcmp(a, b) != 0 then Memcmp(a, b) else Sign(x as int - y as int)
  {
    if a != [] && a[0] == b[0] {
      MemcmpLast(a[1..], x, b[1..], y);
      assert (a + [x])[1..] == a[1..] + [x] && (b + [y])[1..] == b[1..] + [y];
    }
  }

  /** memcmp orders addresses as numbers. */
  lemma {:induction false} MemcmpVal(a: seq<Byte>, b: seq<Byte>)
    requires |a| == |b|
    ensures Memcmp(a, b) == Sign(Val(a) - Val(b))
  {
    if a != [] {
      var a', b' := a[..|a| - 1], b[..|b| - 1];
      MemcmpVal(a', b');
      MemcmpLast(a', a[|a| - 1], b', b[|b| - 1]);
      assert a == a' + [a[|a| - 1]] && b == b' + [b[|b| - 1]];
    }
  }

  // ----- the carry loops

  function Inc(s: seq<Byte>): (r: seq<Byte>)
    ensures |r| == |s|
  {
    if s == [] then []
    else if s[|s| - 1] < 255 then s[..|s| - 1] + [s[|s| - 1] + 1]
    else Inc(s[..|s| - 1]) + [0]
  }

  function Dec(s: seq<Byte>): (r: seq<Byte>)
    ensures |r| == |s|
  {
    if s == [] then []
    else if s[|s| - 1] > 0 then s[..|s| - 1] + [s[|s| - 1] - 1]
    else Dec(s[..|s| - 1]) + [255]
  }

  /** The carry loop adds one, and wraps at the all-ones address only. */
  lemma {:induction false} IncVal(s: seq<Byte>)
    ensures Val(Inc(s)) == if Val(s) + 1 < Pow2(8 * |s|) then Val(s) + 1 else 0
  {
    ValBound(s);
    if s != [] {
      var q, b := s[..|s| - 1], s[|s| - 1];
      Pow2Byte(8 * |s|);
      if b < 255 {
        ValSplit(q, b + 1);
      } else {
        IncVal(q);
        ValBound(q);
        ValSplit(Inc(q), 0);
      }
    }
  }

  lemma {:induction false} DecVal(s: seq<Byte>)
    requires Val(s) > 0
    ensures Val(Dec(s)) == Val(s) - 1
  {
    var q, b := s[..|s| - 1], s[|s| - 1];
    if b > 0 {
      ValSplit(q, b - 1);
    } else {
      DecVal(q);
      ValSplit(Dec(q), 255);
    }
  }

  /** i is the place of the last byte that can absorb the carry, or -1. */
  lemma {:induction false} IncAt(s: seq<Byte>, i: int)
    requires -1 <= i < |s| && (i >= 0 ==> s[i] < 255)
    requires forall k :: i < k < |s| ==> s[k] == 255
    ensures forall k :: 0 <= k < |s| ==> Inc(s)[k] == if k < i then s[k] else if k == i then s[i] + 1 else 0
  {
    if i < |s| - 1 {
      IncAt(s[..|s| - 1], i);
    }
  }

  lemma {:induction false} DecAt(s: seq<Byte>, i: int)
    requires -1 <= i < |s| && (i >= 0 ==> s[i] > 0)
    requires forall k :: i < k < |s| ==> s[k] == 0
    ensures forall k :: 0 <= k < |s| ==> Dec(s)[k] == if k < i then s[k] else if k == i then s[i] - 1 else 255
  {
    if i < |s| - 1 {
      DecAt(s[..|s| - 1], i);
    }
  }

  /** The increment loop of cidr6_block_ips and of the enumeration. */
  method Increment(a: array<Byte>)
    modifies a
    ensures a[..] == Inc(old(a[..]))
  {
    ghost var s := a[..];
    var i := a.Length - 1;
    while i >= 0 && a[i] == 255
      invariant -1 <= i < a.Length
      invariant forall k :: 0 <= k <= i ==> a[k] == s[k]
      invariant forall k :: i < k < a.Length ==> a[k] == 0 && s[k] == 255
    {
      a[i] := 0;
      i := i - 1;
    }
    IncAt(s, i);
    if i >= 0 {
      a[i] := a[i] + 1;
    }
  }

  /** The decrement loop of cidr6_block_ips. */
  method Decrement(a: array<Byte>)
    modifies a
    ensures a[..] == Dec(old(a[..]))
  {
    ghost var s := a[..];
    var i := a.Length - 1;
    while i >= 0 && a[i] == 0
      invariant -1 <= i < a.Length
      invariant forall k :: 0 <= k <= i ==> a[k] == s[k]
      invariant forall k :: i < k < a.Length ==> a[k] == 255 && s[k] == 0
    {
      a[i] := 255;
      i := i - 1;
    }
    DecAt(s, i);
    if i >= 0 {
      a[i] := a[i] - 1;
    }
  }

  // ----- blocks

  /** The low `bits` bits of an address cleared, byte by byte. */
  function ClearTail(s: seq<Byte>, bits: nat): (r: seq<Byte>)
    requires bits < 8 * |s|
    ensures |r| == |s|
  {
    if bits >= 8 then ClearTail(s[..|s| - 1], bits - 8) + [0]
    else ClearLast(s, bits)
  }

  function ClearLast(s: seq<Byte>, bits: nat): (r: seq<Byte>)
    requires s != [] && bits < 8
    ensures |r| == |s|
  {
    AndOfByte(s[|s| - 1], bits);
    s[|s| - 1 := BitAnd(s[|s| - 1], BitXor(0xff, Pow2(bits) - 1))]
  }

  /** The low `bits` bits of an address set. */
  function FillTail(s: seq<Byte>, bits: nat): (r: seq<Byte>)
    requires bits < 8 * |s|
    ensures |r| == |s|
  {
    if bits >= 8 then FillTail(s[..|s| - 1], bits - 8) + [255]
    else FillLast(s, bits)
  }

  function FillLast(s: seq<Byte>, bits: nat): (r: seq<Byte>)
    requires s != [] && bits < 8
    ensures |r| == |s|
  {
    OrOfByte(s[|s| - 1], bits);
    s[|s| - 1 := BitOr(s[|s| - 1], Pow2(bits) - 1)]
  }

  lemma {:induction false} AndOfByte(b: Byte, bits: nat)
    requires bits < 8
    ensures BitAnd(b, BitXor(0xff, Pow2(bits) - 1)) == Cleared(b, bits) < 256
  {
    assert Pow2(8) == 256;
    AndMask(b, 8, bits);
    ClearedMeaning(b, bits);
  }

  lemma {:induction false} OrOfByte(b: Byte, bits: nat)
    requires bits < 8
    ensures BitOr(b, Pow2(bits) - 1) == Cleared(b, bits) + Pow2(bits) - 1 < 256
  {
    assert Pow2(8) == 256;
    OrOnes(b, bits);
    ClearedInWord(b, 8, bits);
  }

  function ShiftLeft(q: nat, t: nat): nat {
    if t == 0 then q else 2 * ShiftLeft(q, t - 1)
  }

  lemma {:induction false} ShiftLeftMul(q: nat, t: nat)
    ensures ShiftLeft(q, t) == q * Pow2(t)
  {
    if t > 0 {
      ShiftLeftMul(q, t - 1);
    }
  }

  lemma {:induction false} ShiftLeftByte(q: nat)
    ensures ShiftLeft(q, 8) == 256 * q
  {
    ShiftLeftMul(q, 8);
    assert Pow2(8) == 256;
  }

  lemma {:induction false} ClearedBelow(q: nat, t: nat, b: nat, k: nat)
    requires k <= t && b < Pow2(t)
    ensures Cleared(ShiftLeft(q, t) + b, k) == ShiftLeft(q, t) + Cleared(b, k)
  {
    if k > 0 {
      ClearedBelow(q, t - 1, b / 2, k - 1);
    }
  }

  lemma {:induction false} ClearedAbove(q: nat, t: nat, b: nat, k: nat)
    requires b < Pow2(t)
    ensures Cleared(ShiftLeft(q, t) + b, t + k) == ShiftLeft(Cleared(q, k), t)
  {
    if t > 0 {
      ClearedAbove(q, t - 1, b / 2, k);
    }
  }

  lemma {:induction false} ClearedByte(q: nat, b: Byte, bits: nat)
    ensures Cleared(256 * q + b as int, bits)
            == if bits >= 8 then 256 * Cleared(q, bits - 8) else 256 * q + Cleared(b, bits)
  {
    assert Pow2(8) == 256;
    ShiftLeftByte(q);
    if bits >= 8 {
      ClearedAbove(q, 8, b, bits - 8);
      ShiftLeftByte(Cleared(q, bits - 8));
    } else {
      ClearedBelow(q, 8, b, bits);
    }
  }

  lemma {:induction false} ClearTailVal(s: seq<Byte>, bits: nat)
    requires bits < 8 * |s|
    ensures Val(ClearTail(s, bits)) == Cleared(Val(s), bits)
  {
    var q, b := s[..|s| - 1], s[|s| - 1];
    ClearedByte(Val(q), b, bits);
    if bits >= 8 {
      ClearTailVal(q, bits - 8);
      ValSplit(ClearTail(q, bits - 8), 0);
    } else {
      ClearLastVal(s, bits);
    }
  }

  lemma {:induction false} ClearLastVal(s: seq<Byte>, bits: nat)
    requires s != [] && bits < 8
    ensures Val(ClearLast(s, bits)) == 256 * Val(s[..|s| - 1]) + Cleared(s[|s| - 1], bits)
  {
    var q, b := s[..|s| - 1], s[|s| - 1];
    AndOfByte(b, bits);
    ValSplit(q, Cleared(b, bits));
    assert ClearLast(s, bits) == q + [Cleared(b, bits)];
  }

  lemma {:induction false} FillTailVal(s: seq<Byte>, bits: nat)
    requires bits < 8 * |s|
    ensures Val(FillTail(s, bits)) == Cleared(Val(s), bits) + Pow2(bits) - 1
  {
    var q, b := s[..|s| - 1], s[|s| - 1];
    ClearedByte(Val(q), b, bits);
    if bits >= 8 {
      FillTailVal(q, bits - 8);
      FillTailHigh(s, bits, Cleared(Val(q), bits - 8), Pow2(bits - 8));
      Pow2Byte(bits);
    } else {
      FillLastVal(s, bits);
    }
  }

  lemma {:induction false} FillTailHigh(s: seq<Byte>, bits: nat, cleared: nat, power: nat)
    requires 8 <= bits < 8 * |s| && Val(FillTail(s[..|s| - 1], bits - 8)) == cleared + power - 1
    ensures Val(FillTail(s, bits)) == 256 * cleared + 256 * power - 1
  {
    ValSplit(FillTail(s[..|s| - 1], bits - 8), 255);
  }

  lemma {:induction false} FillLastVal(s: seq<Byte>, bits: nat)
    requires s != [] && bits < 8
    ensures Val(FillLast(s, bits)) == 256 * Val(s[..|s| - 1]) + Cleared(s[|s| - 1], bits) + Pow2(bits) - 1
  {
    var q, b := s[..|s| - 1], s[|s| - 1];
    OrOfByte(b, bits);
    ValSplit(q, Cleared(b, bits) + Pow2(bits) - 1);
    assert FillLast(s, bits) == q + [Cleared(b, bits) + Pow2(bits) - 1];
  }

  /** What cidr6_block_ips computes from an address and a prefix length. */
  function Cidr6Ips(addr: seq<Byte>, block: nat): (seq<Byte>, seq<Byte>)
    requires |addr| == 16 && 1 <= block <= 128
  {
    if block == 128 then (addr, addr)
    else
      var net, cast := ClearTail(addr, 128 - block), FillTail(addr, 128 - block);
      if block == 127 then (net, cast) else (Inc(net), Dec(cast))
  }

  /** The network and broadcast addresses of a block, by bytes and by numbers. */
  lemma {:induction false} EndsOfBlock(addr: seq<Byte>, block: nat) returns (net: seq<Byte>, cast: seq<Byte>)
    requires |addr| == 16 && 1 <= block < 128
    ensures Cidr6Ips(addr, block) == if block == 127 then (net, cast) else (Inc(net), Dec(cast))
    ensures |net| == |cast| == 16
    ensures Val(net) == Network(Val(addr), 128, block) && Val(cast) == Broadcast(Val(addr), 128, block)
    ensures Val(cast) == Val(net) + Pow2(128 - block) - 1
  {
    net, cast := ClearTail(addr, 128 - block), FillTail(addr, 128 - block);
    ClearTailVal(addr, 128 - block);
    FillTailVal(addr, 128 - block);
  }

  /** The block of a full prefix is the address itself. */
  lemma {:induction false} FullPrefix(a: nat, n: nat)
    requires a < Pow2(n)
    ensures Network(a, n, n) == a == Broadcast(a, n, n)
  {
    BlockInRange(a, n, n);
    assert Pow2(0) == 1;
  }

  /** As numbers: the block without network and broadcast address, unless it has at most two addresses. */
  lemma {:induction false} Cidr6Meaning(addr: seq<Byte>, block: nat)
    requires |addr| == 16 && 1 <= block <= 128
    ensures var (first, last) := Cidr6Ips(addr, block);
      var net, cast := Network(Val(addr), 128, block), Broadcast(Val(addr), 128, block);
      && |first| == |last| == 16
      && Val(first) == (if block <= 126 then net + 1 else net)
      && Val(last) == (if block <= 126 then cast - 1 else cast)
      && Val(first) <= Val(last)
  {
    if block == 128 {
      ValBound(addr);
      FullPrefix(Val(addr), 8 * |addr|);
    } else {
      var net, cast := EndsOfBlock(addr, block);
      Pow2Grows(1, 128 - block);
      if block < 127 {
        Pow2Grows(2, 128 - block);
        Inside(net, cast);
      }
    }
  }

  lemma {:induction false} Inside(net: seq<Byte>, cast: seq<Byte>)
    requires |net| == |cast| && Val(net) < Val(cast)
    ensures Val(Inc(net)) == Val(net) + 1 && Val(Dec(cast)) == Val(cast) - 1
  {
    ValBound(cast);
    IncVal(net);
    DecVal(cast);
  }

  /** The byte loops of cidr6_block_ips, once the text is parsed. */
  method Cidr6BlockIps(addr: seq<Byte>, block: nat) returns (first: array<Byte>, last: array<Byte>)
    requires |addr| == 16 && 1 <= block <= 128
    ensures fresh(first) && fresh(last) && first != last
    ensures (first[..], last[..]) == Cidr6Ips(addr, block)
  {
    first, last := new Byte[16](i requires 0 <= i < 16 => addr[i]), new Byte[16](i requires 0 <= i < 16 => addr[i]);
    assert first[..] == addr && last[..] == addr;
    if block == 128 {
      return;
    }
    ClearLow(first, 128 - block);
    FillLow(last, 128 - block);
    if block == 127 {
      return;
    }
    Increment(first);
    Decrement(last);
  }

  lemma {:induction false} ClearTailAt(s: seq<Byte>, bits: nat, j: int)
    requires bits < 8 * |s| && j == |s| - 1 - bits / 8
    ensures 0 <= j < |s|
    ensures forall k :: 0 <= k < |s| ==>
      ClearTail(s, bits)[k] == if k < j then s[k] else if k == j then BitAnd(s[j], BitXor(0xff, Pow2(bits % 8) - 1)) else 0
  {
    if bits >= 8 {
      ClearTailAt(s[..|s| - 1], bits - 8, j);
    }
  }

  lemma {:induction false} FillTailAt(s: seq<Byte>, bits: nat, j: int)
    requires bits < 8 * |s| && j == |s| - 1 - bits / 8
    ensures 0 <= j < |s|
    ensures forall k :: 0 <= k < |s| ==>
      FillTail(s, bits)[k] == if k < j then s[k] else if k == j then BitOr(s[j], Pow2(bits % 8) - 1) else 255
  {
    if bits >= 8 {
      FillTailAt(s[..|s| - 1], bits - 8, j);
    }
  }

  /** The first end of the block: whole bytes are cleared from the end, then the low bits of the byte the prefix ends in. */
  method ClearLow(a: array<Byte>, bits: nat)
    requires bits < 8 * a.Length
    modifies a
    ensures a[..] == ClearTail(old(a[..]), bits)
  {
    ghost var s := a[..];
    var i, j := bits / 8, a.Length - 1;
    while i > 0
      invariant 0 <= i && j == a.Length - 1 - bits / 8 + i && j < a.Length
      invariant forall k :: 0 <= k < a.Length ==> a[k] == if k <= j then s[k] else 0
    {
      a[j] := 0;
      i, j := i - 1, j - 1;
    }
    ClearTailAt(s, bits, j);
    AndOfByte(a[j], bits % 8);
    a[j] := BitAnd(a[j], BitXor(0xff, Pow2(bits % 8) - 1));
  }

  /** The last end of the block: the same bytes and bits are set. */
  method FillLow(a: array<Byte>, bits: nat)
    requires bits < 8 * a.Length
    modifies a
    ensures a[..] == FillTail(old(a[..]), bits)
  {
    ghost var s := a[..];
    var i, j := bits / 8, a.Length - 1;
    while i > 0
      invariant 0 <= i && j == a.Length - 1 - bits / 8 + i && j < a.Length
      invariant forall k :: 0 <= k < a.Length ==> a[k] == if k <= j then s[k] else 255
    {
      a[j] := 255;
      i, j := i - 1, j - 1;
    }
    FillTailAt(s, bits, j);
    OrOfByte(a[j], bits % 8);
    a[j] := BitOr(a[j], Pow2(bits % 8) - 1);
  }
}
