/** The Internet checksum (in_cksum of misc/ids_send.c), section 1 of RFC 1071. */
module Checksum {
  import opened Bytes

  type Word = w: int | 0 <= w < 0x1_0000

  /** The longest buffer whose sum two folds always bring down to 16 bits. */
  const LONGEST: nat := 131076

  /** Two bytes in memory as a number of the machine; bigEndian is the machine's byte order. */
  function WordOf(first: Byte, second: Byte, bigEndian: bool): Word {
    if bigEndian then 0x100 * first + second else first + 0x100 * second
  }

  /** The 16-bit words of a buffer, an odd last byte padded with a zero byte. */
  function Words(b: seq<Byte>, bigEndian: bool): (ws: seq<Word>)
    ensures |ws| == (|b| + 1) / 2
  {
    if b == [] then []
    else if |b| == 1 then [WordOf(b[0], 0, bigEndian)]
    else [WordOf(b[0], b[1], bigEndian)] + Words(b[2..], bigEndian)
  }

  function Sum(ws: seq<Word>): nat {
    if ws == [] then 0 else ws[0] + Sum(ws[1..])
  }

  /** Addition with end-around carry. */
  function OnesAdd(x: Word, y: Word): Word {
    if x + y <= 0xFFFF then x + y else x + y - 0xFFFF
  }

  /** The one's-complement sum, word after word: the definition of the standard. */
  function OnesSum(ws: seq<Word>): Word {
    if ws == [] then 0 else OnesAdd(ws[0], OnesSum(ws[1..]))
  }

  /** The two folds of in_cksum and the cut to 16 bits. */
  function Folded(sum: nat): Word {
    var s := sum / 0x1_0000 + sum % 0x1_0000;
    (s + s / 0x1_0000) % 0x1_0000
  }

  /** in_cksum */
  method InCksum(p: array<Byte>, n: int, bigEndian: bool) returns (answer: Word)
    requires n <= p.Length
    ensures var b := p[..if n < 0 then 0 else n];
      answer == 0xFFFF - Folded(Sum(Words(b, bigEndian)))
      && (n <= LONGEST ==> answer == 0xFFFF - OnesSum(Words(b, bigEndian)))
  {
    ghost var b := p[..if n < 0 then 0 else n];
    var sum := AddWords(p, n, bigEndian);
    sum := sum / 0x1_0000 + sum % 0x1_0000;
    sum := sum + sum / 0x1_0000;
    answer := 0xFFFF - sum % 0x1_0000;
    if n <= LONGEST {
      TwoFoldsSuffice(b, bigEndian);
    }
  }

  /** The loop of in_cksum, and the odd byte after it. */
  method AddWords(p: array<Byte>, n: int, bigEndian: bool) returns (sum: nat)
    requires n <= p.Length
    ensures sum == Sum(Words(p[..if n < 0 then 0 else n], bigEndian))
  {
    ghost var b := p[..if n < 0 then 0 else n];
    var left, at: nat := n, 0;
    sum := 0;
    assert b[0..] == b;
    while left > 1
      invariant at + left == n && (at == 0 || left >= 0)
      invariant sum + Sum(Words(b[at..], bigEndian)) == Sum(Words(b, bigEndian))
    {
      WordsStep(b, at, bigEndian);
      sum := sum + WordOf(p[at], p[at + 1], bigEndian);
      at, left := at + 2, left - 2;
    }
    if left == 1 {
      sum := sum + WordOf(p[at], 0, bigEndian);
    }
  }

  lemma {:induction false} WordsStep(b: seq<Byte>, at: nat, bigEndian: bool)
    requires at + 1 < |b|
    ensures Sum(Words(b[at..], bigEndian)) == WordOf(b[at], b[at + 1], bigEndian) + Sum(Words(b[at + 2..], bigEndian))
  {
    assert b[at..][2..] == b[at + 2..];
  }

  // ----- what the folds compute

  /** r is the one's-complement residue of sum: congruent modulo 0xFFFF, and 0 only for 0. */
  ghost predicate Residue(r: Word, sum: nat) {
    (exists k: int :: sum == r + 0xFFFF * k) && (r == 0 <==> sum == 0)
  }

  lemma {:induction false} ResidueUnique(r: Word, r': Word, sum: nat)
    requires Residue(r, sum) && Residue(r', sum)
    ensures r == r'
  {
  }

  lemma {:induction false} OnesSumResidue(ws: seq<Word>)
    ensures Residue(OnesSum(ws), Sum(ws))
  {
    if ws == [] {
      assert Sum(ws) == 0 + 0xFFFF * 0;
    } else {
      OnesSumResidue(ws[1..]);
      var k: int :| Sum(ws[1..]) == OnesSum(ws[1..]) + 0xFFFF * k;
      var c := if ws[0] + OnesSum(ws[1..]) <= 0xFFFF then k else k + 1;
      assert Sum(ws) == OnesSum(ws) + 0xFFFF * c;
    }
  }

  /**
   Two folds give the residue exactly when the second one needs no carry. The sum of a buffer
   whose length is a C int stays below the bound.
   */
  lemma {:induction false} FoldedRightIff(sum: nat)
    requires sum < 0x4000_0000_0000
    ensures var s := sum / 0x1_0000 + sum % 0x1_0000;
      Residue(Folded(sum), sum) <==> s / 0x1_0000 + s % 0x1_0000 <= 0xFFFF
  {
    var s := sum / 0x1_0000 + sum % 0x1_0000;
    SecondFold(sum, s, s / 0x1_0000, s % 0x1_0000);
  }

  lemma {:induction false} SecondFold(sum: nat, s: nat, h: nat, l: Word)
    requires s == sum / 0x1_0000 + sum % 0x1_0000 && s == h * 0x1_0000 + l && h < 0x1_0000
    ensures Residue(Folded(sum), sum) <==> h + l <= 0xFFFF
  {
    var hi := sum / 0x1_0000;
    assert s / 0x1_0000 == h;
    assert sum == h + l + 0xFFFF * (hi + h);
    LowBits(s + h, h * 0x1_0000, l + h);
    if h + l <= 0xFFFF {
      assert Residue(h + l, sum);
    } else {
      var r: Word := h + l - 0x1_0000;
      assert Folded(sum) == r;
      OtherResidue(r, sum, hi + h + 1);
    }
  }

  lemma {:induction false} LowBits(x: nat, high: nat, low: nat)
    requires x == high + low && high % 0x1_0000 == 0
    ensures x % 0x1_0000 == low % 0x1_0000
  {
  }

  lemma {:induction false} OtherResidue(r: Word, sum: nat, k: nat)
    requires sum == r + 1 + 0xFFFF * k
    ensures !Residue(r, sum)
  {
  }

  lemma {:induction false} SumBound(ws: seq<Word>)
    ensures Sum(ws) <= |ws| * 0xFFFF
  {
    if ws != [] {
      SumBound(ws[1..]);
    }
  }

  lemma {:induction false} TwoFoldsSuffice(b: seq<Byte>, bigEndian: bool)
    requires |b| <= LONGEST
    ensures Folded(Sum(Words(b, bigEndian))) == OnesSum(Words(b, bigEndian))
  {
    var ws := Words(b, bigEndian);
    SumBound(ws);
    assert |ws| <= 65538;
    FoldedRightIff(Sum(ws));
    OnesSumResidue(ws);
    ResidueUnique(Folded(Sum(ws)), OnesSum(ws), Sum(ws));
  }

  lemma {:induction false} SumOfOnes(b: seq<Byte>, last: seq<Byte>)
    requires |b| % 2 == 0 && forall i :: 0 <= i < |b| ==> b[i] == 0xFF
    ensures Sum(Words(b + last, false)) == |b| / 2 * 0xFFFF + Sum(Words(last, false))
  {
    if b == [] {
      assert b + last == last;
    } else {
      SumOfOnes(b[2..], last);
      assert (b + last)[2..] == b[2..] + last;
      assert Words(b + last, false)[1..] == Words((b + last)[2..], false);
    }
  }

  /** One byte more than that, and a carry can be lost. */
  lemma {:induction false} OneByteLonger(b: seq<Byte>)
    requires |b| == LONGEST && forall i :: 0 <= i < |b| ==> b[i] == 0xFF
    ensures Folded(Sum(Words(b + [1], false))) != OnesSum(Words(b + [1], false))
  {
    var ws := Words(b + [1], false);
    SumOfOnes(b, [1]);
    assert Words([1], false) == [1] && Sum([1]) == 1 + Sum([]);
    OnesSumResidue(ws);
    FoldedRightIff(Sum(ws));
  }

  // ----- order of the words

  ghost function Count(ws: seq<Word>, w: Word): nat {
    if ws == [] then 0 else (if ws[0] == w then 1 else 0) + Count(ws[1..], w)
  }

  lemma {:induction false} TakeOut(ws: seq<Word>, i: nat)
    requires i < |ws|
    ensures Sum(ws) == ws[i] + Sum(ws[..i] + ws[i + 1..])
    ensures forall w :: Count(ws, w) == Count(ws[..i] + ws[i + 1..], w) + if w == ws[i] then 1 else 0
  {
    var rest := ws[..i] + ws[i + 1..];
    if i == 0 {
      assert rest == ws[1..];
    } else {
      TakeOut(ws[1..], i - 1);
      assert rest[1..] == ws[1..][..i - 1] + ws[1..][i..];
    }
  }

  lemma {:induction false} Occurs(ws: seq<Word>, w: Word) returns (i: nat)
    requires Count(ws, w) > 0
    ensures i < |ws| && ws[i] == w
  {
    if ws[0] == w {
      i := 0;
    } else {
      i := Occurs(ws[1..], w);
      i := i + 1;
    }
  }

  lemma {:induction false} SomeWord(ws: seq<Word>)
    ensures ws == [] || exists w :: Count(ws, w) > 0
  {
    if ws != [] {
      assert Count(ws, ws[0]) > 0;
    }
  }

  lemma {:induction false} SumIgnoresOrder(ws: seq<Word>, vs: seq<Word>)
    requires forall w :: Count(ws, w) == Count(vs, w)
    ensures Sum(ws) == Sum(vs)
  {
    if ws == [] {
      SomeWord(vs);
    } else {
      assert Count(ws, ws[0]) > 0;
      var i := Occurs(vs, ws[0]);
      TakeOut(vs, i);
      var rest := vs[..i] + vs[i + 1..];
      forall w ensures Count(ws[1..], w) == Count(rest, w) {
        assert Count(ws, w) == Count(vs, w);
      }
      SumIgnoresOrder(ws[1..], rest);
    }
  }

  /** The checksum does not depend on the order of the words. */
  lemma {:induction false} OrderDoesNotMatter(ws: seq<Word>, vs: seq<Word>)
    requires forall w :: Count(ws, w) == Count(vs, w)
    ensures OnesSum(ws) == OnesSum(vs)
  {
    SumIgnoresOrder(ws, vs);
    OnesSumResidue(ws);
    OnesSumResidue(vs);
    ResidueUnique(OnesSum(ws), OnesSum(vs), Sum(ws));
  }

  // ----- storing the checksum

  /** The two bytes of a word in memory. */
  function BytesOf(w: Word, bigEndian: bool): (b: seq<Byte>)
    ensures |b| == 2 && WordOf(b[0], b[1], bigEndian) == w
  {
    if bigEndian then [w / 0x100, w % 0x100] else [w % 0x100, w / 0x100]
  }

  /** Two bytes at an even place are one word. */
  lemma {:induction false} WordAt(b: seq<Byte>, k: nat, bigEndian: bool)
    requires k % 2 == 0 && k + 2 <= |b|
    ensures Words(b, bigEndian)[k / 2] == WordOf(b[k], b[k + 1], bigEndian)
  {
    if k > 0 {
      WordAt(b[2..], k - 2, bigEndian);
    }
  }

  /** Changing these two bytes changes that word only. */
  lemma {:induction false} StoreWord(b: seq<Byte>, k: nat, v: seq<Byte>, bigEndian: bool)
    requires k % 2 == 0 && k + 2 <= |b| && |v| == 2
    ensures Words(b[..k] + v + b[k + 2..], bigEndian) == Words(b, bigEndian)[k / 2 := WordOf(v[0], v[1], bigEndian)]
  {
    var c := b[..k] + v + b[k + 2..];
    if k == 0 {
      assert c[2..] == b[2..];
    } else {
      StoreWord(b[2..], k - 2, v, bigEndian);
      assert c[2..] == b[2..][..k - 2] + v + b[2..][k..];
    }
  }

  lemma {:induction false} SumStore(ws: seq<Word>, i: nat, w: Word)
    requires i < |ws|
    ensures Sum(ws[i := w]) == Sum(ws) - ws[i] + w
  {
    if i > 0 {
      SumStore(ws[1..], i - 1, w);
      assert ws[i := w][1..] == ws[1..][i - 1 := w];
    }
  }

  /** Storing the checksum of a buffer in a zero field of it at an even place brings its checksum to 0. */
  lemma {:induction false} StoredChecksumVerifies(b: seq<Byte>, k: nat, bigEndian: bool)
    requires k % 2 == 0 && k + 2 <= |b| && b[k] == 0 && b[k + 1] == 0
    ensures var cksum := 0xFFFF - OnesSum(Words(b, bigEndian));
      0xFFFF - OnesSum(Words(b[..k] + BytesOf(cksum, bigEndian) + b[k + 2..], bigEndian)) == 0
  {
    var ws := Words(b, bigEndian);
    var cksum: Word := 0xFFFF - OnesSum(ws);
    var vs := Words(b[..k] + BytesOf(cksum, bigEndian) + b[k + 2..], bigEndian);
    WordAt(b, k, bigEndian);
    StoreWord(b, k, BytesOf(cksum, bigEndian), bigEndian);
    SumStore(ws, k / 2, cksum);
    OnesSumResidue(ws);
    OnesSumResidue(vs);
    var m: int :| Sum(ws) == OnesSum(ws) + 0xFFFF * m;
    assert Sum(vs) == 0xFFFF + 0xFFFF * m;
    ResidueUnique(OnesSum(vs), 0xFFFF, Sum(vs));
  }

  // ----- what the checksum notices

  /** Changing one word goes unnoticed exactly when 0 and 0xFFFF are exchanged and not every word is 0. */
  lemma {:induction false} UnnoticedIff(ws: seq<Word>, i: nat, w: Word)
    requires i < |ws| && w != ws[i]
    ensures OnesSum(ws[i := w]) == OnesSum(ws) <==>
            {w, ws[i]} == {0, 0xFFFF} && Sum(ws) > 0 && Sum(ws[i := w]) > 0
  {
    var vs := ws[i := w];
    SumStore(ws, i, w);
    OnesSumResidue(ws);
    OnesSumResidue(vs);
    var m: int :| Sum(ws) == OnesSum(ws) + 0xFFFF * m;
    var n: int :| Sum(vs) == OnesSum(vs) + 0xFFFF * n;
    if OnesSum(vs) == OnesSum(ws) {
      assert w - ws[i] == 0xFFFF * (n - m);
      assert n - m == 1 || n - m == -1;
    }
    if {w, ws[i]} == {0, 0xFFFF} && Sum(ws) > 0 && Sum(vs) > 0 {
      assert w in {0, 0xFFFF} && ws[i] in {0, 0xFFFF};
      var d := if w == 0 then -1 else 1;
      assert Sum(vs) == OnesSum(ws) + 0xFFFF * (m + d);
      ResidueUnique(OnesSum(vs), OnesSum(ws), Sum(vs));
    }
  }

  // ----- byte order

  function Swapped(w: Word): Word {
    w % 0x100 * 0x100 + w / 0x100
  }

  lemma {:induction false} SwappedSums(b: seq<Byte>)
    ensures exists k: int :: Sum(Words(b, true)) == 0x100 * Sum(Words(b, false)) - 0xFFFF * k
    ensures Sum(Words(b, true)) == 0 <==> Sum(Words(b, false)) == 0
  {
    if b == [] {
      assert Sum(Words(b, true)) == 0x100 * Sum(Words(b, false)) - 0xFFFF * 0;
    } else if |b| == 1 {
      assert Words(b, true)[1..] == [] && Words(b, false)[1..] == [];
      assert Sum(Words(b, true)) == 0x100 * Sum(Words(b, false)) - 0xFFFF * 0;
    } else {
      SwappedSums(b[2..]);
      var k: int :| Sum(Words(b[2..], true)) == 0x100 * Sum(Words(b[2..], false)) - 0xFFFF * k;
      assert Words(b, true)[1..] == Words(b[2..], true) && Words(b, false)[1..] == Words(b[2..], false);
      assert Sum(Words(b, true)) == 0x100 * Sum(Words(b, false)) - 0xFFFF * (k + b[1]);
    }
  }

  /** The sum computed on a machine of the other byte order has its two bytes exchanged. */
  lemma {:induction false} ByteOrderIndependent(b: seq<Byte>)
    ensures OnesSum(Words(b, true)) == Swapped(OnesSum(Words(b, false)))
  {
    var little, big := Words(b, false), Words(b, true);
    SwappedSums(b);
    OnesSumResidue(little);
    OnesSumResidue(big);
    var r := OnesSum(little);
    var m: int :| Sum(little) == r + 0xFFFF * m;
    var k: int :| Sum(big) == 0x100 * Sum(little) - 0xFFFF * k;
    assert 0x100 * r == Swapped(r) + 0xFFFF * (r / 0x100);
    assert Sum(big) == Swapped(r) + 0xFFFF * (r / 0x100 + 0x100 * m - k);
    ResidueUnique(OnesSum(big), Swapped(r), Sum(big));
  }
}
