/**
 Address arithmetic of base/openvas_hosts.c: bitwise operators as C computes them, and the
 numbers that IPv4 and IPv6 addresses stand for.
 */
module Addresses {
  import opened Bytes

  function Pow2(n: nat): (p: nat)
    ensures p > 0
  {
    if n == 0 then 1 else 2 * Pow2(n - 1)
  }

  lemma {:induction false} Pow2Sum(m: nat, n: nat)
    ensures Pow2(m + n) == Pow2(m) * Pow2(n)
  {
    if m > 0 {
      Pow2Sum(m - 1, n);
      assert Pow2(m) * Pow2(n) == 2 * (Pow2(m - 1) * Pow2(n));
    }
  }

  // ----- &, | and ^ bit by bit

  function BitAnd(a: nat, b: nat): nat
    decreases a
  {
    if a == 0 || b == 0 then 0 else 2 * BitAnd(a / 2, b / 2) + (a % 2) * (b % 2)
  }

  function BitOr(a: nat, b: nat): nat
    decreases a + b
  {
    if a == 0 then b else if b == 0 then a
    else 2 * BitOr(a / 2, b / 2) + (if a % 2 == 1 || b % 2 == 1 then 1 else 0)
  }

  function BitXor(a: nat, b: nat): nat
    decreases a + b
  {
    if a == 0 then b else if b == 0 then a
    else 2 * BitXor(a / 2, b / 2) + (if a % 2 != b % 2 then 1 else 0)
  }

  /** The mask the code builds for n-bit words: all ones, except for the k low bits. */
  function Mask(n: nat, k: nat): nat
    requires k <= n
  {
    BitXor(Pow2(n) - 1, Pow2(k) - 1)
  }

  lemma {:induction false} XorOnes(n: nat, k: nat)
    requires k <= n
    ensures Mask(n, k) == Pow2(n) - Pow2(k)
  {
    if k > 0 {
      var a, b := Pow2(n) - 1, Pow2(k) - 1;
      assert a / 2 == Pow2(n - 1) - 1 && b / 2 == Pow2(k - 1) - 1 && a % 2 == 1 == b % 2;
      XorOnes(n - 1, k - 1);
      if n == k {
        assert a == b;
      }
    }
  }

  /** x with its low k bits cleared. */
  function Cleared(x: nat, k: nat): nat
    decreases k
  {
    if k == 0 then x else 2 * Cleared(x / 2, k - 1)
  }

  function ShiftRight(x: nat, k: nat): nat
    decreases k
  {
    if k == 0 then x else ShiftRight(x / 2, k - 1)
  }

  /** Clearing k bits gives the largest multiple of 2^k that is not above x. */
  lemma {:induction false} ClearedMeaning(x: nat, k: nat)
    ensures Cleared(x, k) == ShiftRight(x, k) * Pow2(k)
    ensures Cleared(x, k) <= x < Cleared(x, k) + Pow2(k)
  {
    if k > 0 {
      ClearedMeaning(x / 2, k - 1);
      TwiceProduct(ShiftRight(x / 2, k - 1), Pow2(k - 1), Pow2(k));
      HalfBetween(x, Cleared(x / 2, k - 1), Pow2(k - 1));
    }
  }

  lemma {:induction false} TwiceProduct(a: nat, b: nat, c: nat)
    requires c == 2 * b
    ensures a * c == 2 * (a * b)
  {
  }

  lemma {:induction false} HalfBetween(x: nat, a: nat, b: nat)
    requires a <= x / 2 < a + b
    ensures 2 * a <= x < 2 * a + 2 * b
  {
  }

  lemma {:induction false} ClearedInWord(x: nat, n: nat, k: nat)
    requires k <= n && x < Pow2(n)
    ensures Cleared(x, k) + Pow2(k) <= Pow2(n)
  {
    if k > 0 {
      ClearedInWord(x / 2, n - 1, k - 1);
    }
  }

  /** x & Mask(n, k) clears the low k bits of an n-bit x. */
  lemma {:induction false} AndMask(x: nat, n: nat, k: nat)
    requires k <= n && x < Pow2(n)
    ensures BitAnd(x, Mask(n, k)) == Cleared(x, k)
  {
    XorOnes(n, k);
    AndHigh(x, n, k, Mask(n, k));
  }

  lemma {:induction false} Pow2Grows(k: nat, n: nat)
    requires k <= n
    ensures Pow2(k) <= Pow2(n)
  {
    if k < n {
      Pow2Grows(k, n - 1);
    }
  }

  lemma {:induction false} AndHigh(x: nat, n: nat, k: nat, m: nat)
    requires k <= n && x < Pow2(n) && m == Pow2(n) - Pow2(k)
    ensures BitAnd(x, m) == Cleared(x, k)
  {
    if n == k {
      ClearedInWord(x, n, k);
    } else if k == 0 {
      assert m / 2 == Pow2(n - 1) - Pow2(0) && m % 2 == 1;
      AndHigh(x / 2, n - 1, 0, m / 2);
    } else {
      assert m / 2 == Pow2(n - 1) - Pow2(k - 1) && m % 2 == 0;
      AndHigh(x / 2, n - 1, k - 1, m / 2);
      if x == 0 {
        ClearedMeaning(0, k);
      }
    }
  }

  /** x | (2^k - 1) sets the low k bits. */
  lemma {:induction false} OrOnes(x: nat, k: nat)
    ensures BitOr(x, Pow2(k) - 1) == Cleared(x, k) + Pow2(k) - 1
  {
    if k > 0 {
      var b := Pow2(k) - 1;
      assert b / 2 == Pow2(k - 1) - 1 && b % 2 == 1;
      OrOnes(x / 2, k - 1);
      if x == 0 {
        ClearedMeaning(0, k);
      }
    }
  }

  // ----- IPv4 blocks

  const MAX4: nat := TWO32 - 1

  /** The network address of the block of prefix length b that holds the n-bit address a. */
  function Network(a: nat, n: nat, b: nat): nat
    requires b <= n
  {
    Cleared(a, n - b)
  }

  function Broadcast(a: nat, n: nat, b: nat): nat
    requires b <= n
  {
    Network(a, n, b) + Pow2(n - b) - 1
  }

  /** The block of a is the aligned run of 2^(n-b) addresses around a. */
  lemma {:induction false} BlockInRange(a: nat, n: nat, b: nat)
    requires b <= n && a < Pow2(n)
    ensures Network(a, n, b) <= a <= Broadcast(a, n, b) < Pow2(n)
    ensures Network(a, n, b) == ShiftRight(a, n - b) * Pow2(n - b)
  {
    ClearedMeaning(a, n - b);
    ClearedInWord(a, n, n - b);
  }

  lemma {:induction false} Pow2Of32()
    ensures Pow2(32) == TWO32
  {
    Pow2Sum(16, 16);
    Pow2Sum(8, 8);
    assert Pow2(8) == 256;
  }

  /** Unsigned addition in n-bit words. */
  function WrapAdd(a: nat, b: nat, n: nat): nat {
    if a + b < Pow2(n) then a + b else a + b - Pow2(n)
  }

  /** cidr_block_ips on host-order numbers of n bits; 0xffffffff is 2^n - 1 for the n = 32 of the code. */
  function BlockIps(addr: nat, n: nat, block: nat): (nat, nat)
    requires block + 2 <= n
  {
    Pow2Grows(2, n - block);
    assert Pow2(2) == 4;
    var size := Pow2(n - block);
    var first := WrapAdd(BitAnd(addr, Mask(n, n - block)), 1, n);
    (first, WrapAdd(first, size - 3, n))
  }

  /** The usable addresses of a block: all but its network and its broadcast address. */
  lemma {:induction false} BlockMeaning(addr: nat, n: nat, block: nat)
    requires addr < Pow2(n) && block + 2 <= n
    ensures BlockIps(addr, n, block) == (Network(addr, n, block) + 1, Broadcast(addr, n, block) - 1)
    ensures BlockIps(addr, n, block).0 <= BlockIps(addr, n, block).1 < Pow2(n) - 1
  {
    Pow2Grows(2, n - block);
    assert Pow2(2) == 4;
    AndMask(addr, n, n - block);
    BlockInRange(addr, n, block);
  }

  /** short_range_network_ips: the low k bits replaced by end; the code clears the last byte with 0xffffff00. */
  function ShortRangeIps(addr: nat, n: nat, k: nat, end: nat): (nat, nat)
    requires k <= n
  {
    (addr, BitAnd(addr, Mask(n, k)) + end)
  }

  lemma {:induction false} ShortRangeMeaning(addr: nat, n: nat, k: nat, end: nat)
    requires k <= n && addr < Pow2(n) && end < Pow2(k)
    ensures ShortRangeIps(addr, n, k, end) == (addr, Network(addr, n, n - k) + end)
    ensures ShortRangeIps(addr, n, k, end).1 <= Broadcast(addr, n, n - k) < Pow2(n)
  {
    AndMask(addr, n, k);
    BlockInRange(addr, n, n - k);
  }
}
