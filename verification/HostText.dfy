/**
 Host specifications (base/openvas_hosts.c, determine_host_type and the *_ips functions):
 which text means which hosts.
 */
module HostText {
  import opened Options
  import opened Bytes
  import opened Addresses
  import opened Ipv6
  import opened Text

  // ----- IPv4 text

  /** One part of a dotted quad, as inet_pton reads it: no leading zero, at most 255. */
  predicate IsOctet(s: string) {
    s != "" && AllDigits(s) && (s[0] == '0' ==> |s| == 1) && Number(s) <= 255
  }

  /** inet_pton (AF_INET, ...), as a host-order number. */
  function Pton4(s: string): (r: Option<nat>)
    ensures r.Some? ==> r.value < TWO32
  {
    var p := Split(s, '.');
    if |p| == 4 && IsOctet(p[0]) && IsOctet(p[1]) && IsOctet(p[2]) && IsOctet(p[3]) then
      Some(0x100_0000 * Number(p[0]) + 0x1_0000 * Number(p[1]) + 0x100 * Number(p[2]) + Number(p[3]))
    else None
  }

  /** inet_ntop (AF_INET, ...) */
  function Ntop4(n: nat): string {
    Join(Quad(n), '.')
  }

  function Quad(n: nat): (r: seq<string>)
    ensures |r| == 4 && forall i :: 0 <= i < |r| ==> AllDigits(r[i])
  {
    [Decimal(n / 0x100_0000), Decimal(n / 0x1_0000 % 0x100), Decimal(n / 0x100 % 0x100), Decimal(n % 0x100)]
  }

  lemma {:induction false} OctetOfDecimal(n: nat)
    requires n <= 255
    ensures IsOctet(Decimal(n)) && Number(Decimal(n)) == n
  {
    NumberOfDecimal(n);
  }

  lemma {:induction false} QuadSplits(n: nat)
    requires n < TWO32
    ensures 0x100_0000 * (n / 0x100_0000) + 0x1_0000 * (n / 0x1_0000 % 0x100) + 0x100 * (n / 0x100 % 0x100) + n % 0x100 == n
    ensures n / 0x100_0000 <= 255
  {
    var a := n / 0x100;
    var b := a / 0x100;
    assert n / 0x1_0000 == b && n / 0x100_0000 == b / 0x100;
  }

  /** Printing an address and reading it back gives the address. */
  lemma {:induction false} Pton4Ntop4(n: nat)
    requires n < TWO32
    ensures Pton4(Ntop4(n)) == Some(n)
  {
    QuadSplit(n);
    var a, b, c, d := QuadOctets(n);
    Pton4Of(Ntop4(n), Quad(n), a, b, c, d);
  }

  lemma {:induction false} QuadOctets(n: nat) returns (a: nat, b: nat, c: nat, d: nat)
    requires n < TWO32
    ensures OctetTexts(Quad(n), a, b, c, d) && 0x100_0000 * a + 0x1_0000 * b + 0x100 * c + d == n
  {
    a, b, c, d := n / 0x100_0000, n / 0x1_0000 % 0x100, n / 0x100 % 0x100, n % 0x100;
    QuadSplits(n);
    Octets(a, b, c, d, Quad(n));
  }

  /** The four parts of an address in text. */
  ghost predicate OctetTexts(q: seq<string>, a: nat, b: nat, c: nat, d: nat) {
    && |q| == 4 && IsOctet(q[0]) && IsOctet(q[1]) && IsOctet(q[2]) && IsOctet(q[3])
    && Number(q[0]) == a && Number(q[1]) == b && Number(q[2]) == c && Number(q[3]) == d
  }

  lemma {:induction false} QuadSplit(n: nat)
    ensures Split(Ntop4(n), '.') == Quad(n)
  {
    SplitJoin(Quad(n), '.');
  }

  lemma {:induction false} Octets(a: nat, b: nat, c: nat, d: nat, q: seq<string>)
    requires a <= 255 && b <= 255 && c <= 255 && d <= 255 && q == [Decimal(a), Decimal(b), Decimal(c), Decimal(d)]
    ensures OctetTexts(q, a, b, c, d)
  {
    OctetOfDecimal(a);
    OctetOfDecimal(b);
    OctetOfDecimal(c);
    OctetOfDecimal(d);
  }

  lemma {:induction false} Pton4Of(s: string, p: seq<string>, a: nat, b: nat, c: nat, d: nat)
    requires Split(s, '.') == p && OctetTexts(p, a, b, c, d)
    ensures Pton4(s) == Some(0x100_0000 * a + 0x1_0000 * b + 0x100 * c + d)
  {
  }

  lemma {:induction false} Ntop4HasOnly(n: nat, x: char)
    requires !IsDigit(x) && x != '.'
    ensures x !in Ntop4(n)
  {
    JoinHasOnly(Quad(n), '.', x);
  }

  // ----- IPv6 text

  /** inet_pton and inet_ntop for AF_INET6. */
  datatype Inet6 = Inet6(pton: string -> Option<seq<Byte>>, ntop: seq<Byte> -> string)

  /** What is used of them: addresses have 16 bytes and a colon in their text, and survive printing. */
  ghost predicate Sane(net: Inet6) {
    && (forall s :: net.pton(s).Some? ==> |net.pton(s).value| == 16 && ':' in s)
    && (forall a :: |a| == 16 ==> net.pton(net.ntop(a)) == Some(a))
  }

  // ----- hosts

  datatype Host = Name(name: string) | V4(addr: nat) | V6(addr6: seq<Byte>)

  /** openvas_host_value_str */
  function ValueStr(net: Inet6, h: Host): string {
    match h
    case Name(s) => s
    case V4(a) => Ntop4(a)
    case V6(a) => net.ntop(a)
  }

  /** The hosts the parser makes: a name is never the text of an address. */
  ghost predicate Proper(net: Inet6, h: Host) {
    match h
    case Name(s) => Pton4(s).None? && net.pton(s).None?
    case V4(a) => a < TWO32
    case V6(a) => |a| == 16
  }

  /** Printed values tell proper hosts apart, so comparing texts compares hosts. */
  lemma {:induction false} ValueStrInjective(net: Inet6, g: Host, h: Host)
    requires Sane(net) && Proper(net, g) && Proper(net, h)
    ensures ValueStr(net, g) == ValueStr(net, h) <==> g == h
  {
    if g.V4? { Pton4Ntop4(g.addr); Ntop4HasOnly(g.addr, ':'); }
    if h.V4? { Pton4Ntop4(h.addr); Ntop4HasOnly(h.addr, ':'); }
    if g.V6? { assert net.pton(net.ntop(g.addr6)) == Some(g.addr6); }
    if h.V6? { assert net.pton(net.ntop(h.addr6)) == Some(h.addr6); }
  }

  // ----- specifications

  /**
   What one element of the list asks for. Undefined: the code shifts by 32 or writes before
   the address, because the prefix length it reads differs from the one it checked.
   */
  datatype Spec = One(host: Host) | Range4(first: nat, last: nat) | Range6(first6: seq<Byte>, last6: seq<Byte>)
                | Bad | Undefined

  /** A prefix text as is_cidr_block checks it with strtol ... */
  predicate PrefixChecks(s: string, max: nat) {
    s != "" && AllDigits(s) && 0 < Number(s) <= max
  }

  /** ... and as cidr_get_block reads it with "%2u", or "%3u" for IPv6. */
  function PrefixRead(s: string, width: nat): nat
    requires AllDigits(s)
  {
    Number(if |s| <= width then s else s[..width])
  }

  lemma {:induction false} LeadingDigit(s: string, k: nat)
    requires AllDigits(s) && k <= |s|
    ensures Number(s) >= Number(s[..k])
    ensures k < |s| && Number(s[..k]) > 0 ==> Number(s) >= 10 * Number(s[..k])
  {
    if k < |s| {
      LeadingDigit(s[..|s| - 1], k);
      assert s[..|s| - 1][..k] == s[..k];
    } else {
      assert s[..k] == s;
    }
  }

  /** The two readings of a checked prefix agree exactly when the text is no wider than the format. */
  lemma {:induction false} PrefixAgreesIff(s: string, max: nat, width: nat)
    requires PrefixChecks(s, max)
    ensures PrefixRead(s, width) == Number(s) <==> |s| <= width
  {
    if |s| > width {
      LeadingDigit(s, width);
    }
  }

  function Cidr4(s: string): Option<Spec> {
    match CutAt(s, '/')
    case None => None
    case Some((a, p)) =>
      if Pton4(a).None? || !PrefixChecks(p, 30) then None
      else
        var block := PrefixRead(p, 2);
        if block == 0 then Some(Undefined)
        else if block > 30 then Some(Undefined)
        else Some(Block4(Pton4(a).value, block))
  }

  /** cidr_block_ips */
  function Block4(a: nat, block: nat): Spec
    requires block <= 30
  {
    var (first, last) := BlockIps(a, 32, block); Range4(first, last)
  }

  /** short_range_network_ips */
  function LastByteTo(a: nat, e: nat): Spec {
    var (first, last) := ShortRangeIps(a, 32, 8, e); Range4(first, last)
  }

  function Short4(s: string): Option<Spec> {
    match CutAt(s, '-')
    case None => None
    case Some((a, e)) =>
      if Pton4(a).None? || e == "" || !AllDigits(e) || Number(e) > 255 then None
      else Some(LastByteTo(Pton4(a).value, Number(e)))
  }

  function Long4(s: string): Option<Spec> {
    match CutAt(s, '-')
    case None => None
    case Some((a, b)) =>
      if Pton4(a).None? || Pton4(b).None? then None else Some(Range4(Pton4(a).value, Pton4(b).value))
  }

  function Cidr6(net: Inet6, s: string): Option<Spec> {
    match CutAt(s, '/')
    case None => None
    case Some((a, p)) =>
      if net.pton(a).None? || |net.pton(a).value| != 16 || !PrefixChecks(p, 128) then None
      else
        var block := PrefixRead(p, 3);
        if block == 0 || block > 128 then Some(Undefined)
        else var (first, last) := Cidr6Ips(net.pton(a).value, block); Some(Range6(first, last))
  }

  function Short6(net: Inet6, s: string): Option<Spec> {
    match CutAt(s, '-')
    case None => None
    case Some((a, e)) =>
      if net.pton(a).None? || |net.pton(a).value| != 16 || e == "" || !AllXDigits(e) || |e| > 4 then None
      else
        var end := XNumber(e);
        XNumberBound(e);
        Some(Range6(net.pton(a).value, net.pton(a).value[14 := end / 0x100][15 := end % 0x100]))
  }

  function Long6(net: Inet6, s: string): Option<Spec> {
    match CutAt(s, '-')
    case None => None
    case Some((a, b)) =>
      if net.pton(a).None? || |net.pton(a).value| != 16 || net.pton(b).None? || |net.pton(b).value| != 16 then None
      else Some(Range6(net.pton(a).value, net.pton(b).value))
  }

  predicate IsHostname(s: string) {
    |s| < 256 && forall i :: 0 <= i < |s| ==> IsAlnum(s[i]) || s[i] in "-_."
  }

  /** determine_host_type and, for ranges, the function that computes their ends; s is not blank. */
  function Meaning(net: Inet6, s: string): Spec {
    if Pton4(s).Some? then One(V4(Pton4(s).value))
    else if net.pton(s).Some? then One(V6(net.pton(s).value))
    else if RangeMeant(net, s).Some? then RangeMeant(net, s).value
    else if IsHostname(s) then One(Name(s))
    else Bad
  }

  /** The blocks and ranges among them, in the order in which they are tried. */
  function RangeMeant(net: Inet6, s: string): Option<Spec> {
    if Cidr4(s).Some? then Cidr4(s)
    else if Short4(s).Some? then Short4(s)
    else if Long4(s).Some? then Long4(s)
    else if Cidr6(net, s).Some? then Cidr6(net, s)
    else if Short6(net, s).Some? then Short6(net, s)
    else Long6(net, s)
  }

  /** The ends of a range are addresses, and its text is neither. */
  ghost predicate ProperSpec(net: Inet6, m: Spec) {
    match m
    case One(h) => Proper(net, h)
    case Range4(first, last) => first < TWO32 && last < TWO32
    case Range6(first, last) => |first| == 16 == |last|
    case _ => true
  }

  lemma {:induction false} MeaningProper(net: Inet6, s: string)
    requires Sane(net)
    ensures ProperSpec(net, Meaning(net, s))
  {
    RangeProper(net, s);
  }

  lemma {:induction false} RangeProper(net: Inet6, s: string)
    ensures RangeMeant(net, s).Some? ==> ProperSpec(net, RangeMeant(net, s).value)
  {
    Ranges4Proper(net, s);
    Cidr6Proper(net, s);
    Ranges6Proper(net, s);
  }

  lemma {:induction false} Ranges4Proper(net: Inet6, s: string)
    ensures Cidr4(s).Some? ==> ProperSpec(net, Cidr4(s).value)
    ensures Short4(s).Some? ==> ProperSpec(net, Short4(s).value)
    ensures Long4(s).Some? ==> ProperSpec(net, Long4(s).value)
  {
    if Cidr4(s).Some? && Cidr4(s).value.Range4? {
      var (a, p) := CutAt(s, '/').value;
      Block4Is(Pton4(a).value, PrefixRead(p, 2));
    }
    if Short4(s).Some? {
      var (a, e) := CutAt(s, '-').value;
      LastByteToIs(Pton4(a).value, Number(e));
    }
  }

  lemma {:induction false} Cidr6Proper(net: Inet6, s: string)
    ensures Cidr6(net, s).Some? ==> ProperSpec(net, Cidr6(net, s).value)
  {
    if Cidr6(net, s).Some? && Cidr6(net, s).value.Range6? {
      var (a, p) := CutAt(s, '/').value;
      Cidr6Meaning(net.pton(a).value, PrefixRead(p, 3));
    }
  }

  lemma {:induction false} Ranges6Proper(net: Inet6, s: string)
    ensures Short6(net, s).Some? ==> ProperSpec(net, Short6(net, s).value)
    ensures Long6(net, s).Some? ==> ProperSpec(net, Long6(net, s).value)
  {
  }

  /** The block of an address without its network and broadcast address. */
  lemma {:induction false} Block4Is(a: nat, block: nat)
    requires a < TWO32 && block <= 30
    ensures Block4(a, block) == Range4(Network(a, 32, block) + 1, Broadcast(a, 32, block) - 1)
    ensures Broadcast(a, 32, block) < TWO32 && Network(a, 32, block) < TWO32 - 1
  {
    Pow2Of32();
    BlockMeaning(a, 32, block);
  }

  lemma {:induction false} Cidr4Of(x: string, a: nat, p: string, block: nat)
    requires Pton4(x) == Some(a) && '/' !in x && 1 <= block <= 30
    requires PrefixChecks(p, 30) && Number(p) == block && |p| <= 2
    ensures Cidr4(x + ['/'] + p) == Some(Block4(a, block))
  {
    CutAtIs(x, '/', p);
    Cidr4Unfolded(x + ['/'] + p, x, p, block);
  }

  lemma {:induction false} Cidr4Unfolded(s: string, x: string, p: string, block: nat)
    requires CutAt(s, '/') == Some((x, p)) && Pton4(x).Some? && PrefixChecks(p, 30) && |p| <= 2 && block == Number(p)
    ensures Cidr4(s) == Some(Block4(Pton4(x).value, block))
  {
  }

  lemma {:induction false} CidrTextOf(net: Inet6, x: string, p: string)
    requires Sane(net) && ':' !in x && AllDigits(p)
    requires Cidr4(x + ['/'] + p).Some?
    ensures Meaning(net, x + ['/'] + p) == Cidr4(x + ['/'] + p).value
  {
    var s := x + ['/'] + p;
    assert s[|x|] == '/';
    SlashIsNoAddress(s);
    NotInThree(x, '/', p, ':');
    ColonlessIsNoAddress(net, s);
    RangeChosen(net, s);
  }

  lemma {:induction false} NotInThree(x: string, c: char, y: string, d: char)
    requires d !in x && d != c && d !in y
    ensures d !in x + [c] + y
  {
  }

  lemma {:induction false} ColonlessIsNoAddress(net: Inet6, s: string)
    requires Sane(net) && ':' !in s
    ensures net.pton(s).None?
  {
  }

  lemma {:induction false} RangeChosen(net: Inet6, s: string)
    requires Pton4(s).None? && net.pton(s).None? && RangeMeant(net, s).Some?
    ensures Meaning(net, s) == RangeMeant(net, s).value
  {
  }

  /** "a.b.c.d/p" is the block of that address without its network and broadcast address. */
  lemma {:induction false} CidrText(net: Inet6, a: nat, block: nat)
    requires Sane(net) && a < TWO32 && 1 <= block <= 30
    ensures Meaning(net, Ntop4(a) + ['/'] + Decimal(block)) == Block4(a, block)
    ensures Block4(a, block) == Range4(Network(a, 32, block) + 1, Broadcast(a, 32, block) - 1)
  {
    Pton4Ntop4(a);
    NumberOfDecimal(block);
    DecimalWidth(block);
    Ntop4HasOnly(a, '/');
    Ntop4HasOnly(a, ':');
    Cidr4Of(Ntop4(a), a, Decimal(block), block);
    CidrTextOf(net, Ntop4(a), Decimal(block));
    Block4Is(a, block);
  }

  /** A block whose prefix text passed the check, as it is read. */
  lemma {:induction false} Cidr4Reads(x: string, a: nat, p: string, read: nat)
    requires Pton4(x) == Some(a) && '/' !in x && PrefixChecks(p, 30) && PrefixRead(p, 2) == read
    ensures Cidr4(x + ['/'] + p) == Some(if read == 0 || read > 30 then Undefined else Block4(a, read))
  {
    CutAtIs(x, '/', p);
  }

  /** Blocks of one address with different prefix lengths differ. */
  lemma {:induction false} BlocksDiffer(a: nat, b: nat, c: nat)
    requires a < TWO32 && b <= 30 && c <= 30 && b != c
    ensures Block4(a, b) != Block4(a, c)
  {
    Block4Is(a, b);
    Block4Is(a, c);
    SizesDiffer(a, 32, b, c);
  }

  lemma {:induction false} SizesDiffer(a: nat, n: nat, b: nat, c: nat)
    requires b <= n && c <= n && b != c
    ensures Broadcast(a, n, b) - Network(a, n, b) != Broadcast(a, n, c) - Network(a, n, c)
  {
    Pow2Differs(n - b, n - c);
  }

  lemma {:induction false} Pow2Differs(i: nat, j: nat)
    requires i != j
    ensures Pow2(i) != Pow2(j)
  {
    if i < j {
      Pow2Grows(i + 1, j);
    } else {
      Pow2Grows(j + 1, i);
    }
  }

  /** A block with a checked prefix means what the prefix says exactly when the text of the prefix fits the field. */
  lemma {:induction false} PrefixTextIff(net: Inet6, a: nat, p: string)
    requires Sane(net) && a < TWO32 && PrefixChecks(p, 30)
    ensures Meaning(net, Ntop4(a) + ['/'] + p) == Block4(a, Number(p)) <==> |p| <= 2
  {
    Pton4Ntop4(a);
    Ntop4HasOnly(a, '/');
    Ntop4HasOnly(a, ':');
    var read := PrefixRead(p, 2);
    Cidr4Reads(Ntop4(a), a, p, read);
    CidrTextOf(net, Ntop4(a), p);
    PrefixAgreesIff(p, 30, 2);
    if 0 < read <= 30 && read != Number(p) {
      BlocksDiffer(a, read, Number(p));
    }
  }

  /** "/024" is read as "/2". */
  lemma {:induction false} LeadingZeroText(net: Inet6, a: nat, p: string)
    requires Sane(net) && a < TWO32 && p == "024"
    ensures Number(p) == 24 && Meaning(net, Ntop4(a) + ['/'] + p) == Block4(a, 2)
  {
    Read024(p);
    Pton4Ntop4(a);
    Ntop4HasOnly(a, '/');
    Ntop4HasOnly(a, ':');
    Cidr4Reads(Ntop4(a), a, p, 2);
    CidrTextOf(net, Ntop4(a), p);
  }

  lemma {:induction false} Read024(p: string)
    requires p == "024"
    ensures AllDigits(p) && Number(p) == 24 && PrefixRead(p, 2) == 2
  {
    assert p[..2] == "02" && p[..2][..1] == "0";
    assert Number("0") == 0 && Number("02") == 2;
  }

  lemma {:induction false} DecimalHasOnly(n: nat, x: char)
    requires !IsDigit(x)
    ensures x !in Decimal(n)
  {
  }

  lemma {:induction false} DotIsNoNumber(b: nat)
    ensures !AllDigits(Ntop4(b))
  {
    var q := Quad(b);
    assert Join(q, '.') == q[0] + ['.'] + Join(q[1..], '.');
    assert Ntop4(b)[|q[0]|] == '.';
  }

  /** A hyphen or a slash is in no address. */
  lemma {:induction false} HyphenIsNoAddress(s: string)
    requires '-' in s
    ensures Pton4(s).None?
  {
    if Pton4(s).Some? {
      SplitKeeps(s, '.', '-');
    }
  }

  lemma {:induction false} HyphenText(net: Inet6, x: string, y: string)
    requires Sane(net) && ':' !in x && ':' !in y && '/' !in x && '/' !in y && '-' !in x
    requires Pton4(x).Some?
    ensures var s := x + ['-'] + y;
      && CutAt(s, '-') == Some((x, y)) && Pton4(s).None? && net.pton(s).None? && Cidr4(s).None?
  {
    var s := x + ['-'] + y;
    CutAtIs(x, '-', y);
    assert s[|x|] == '-';
    HyphenIsNoAddress(s);
    NotInThree(x, '-', y, ':');
    NotInThree(x, '-', y, '/');
    ColonlessIsNoAddress(net, s);
    NoSlashNoBlock(net, s);
  }

  /** The address with the last byte e. */
  function WithLastByte(a: nat, e: nat): nat {
    a / 256 * 256 + e
  }

  /** "a.b.c.d-e" runs from the address to the one with the last byte e. */
  lemma {:induction false} ShortRangeText(net: Inet6, a: nat, e: nat)
    requires Sane(net) && a < TWO32 && e <= 255
    ensures Meaning(net, Ntop4(a) + ['-'] + Decimal(e)) == LastByteTo(a, e)
    ensures LastByteTo(a, e) == Range4(a, WithLastByte(a, e))
  {
    Pton4Ntop4(a);
    NumberOfDecimal(e);
    Ntop4HasOnly(a, '-');
    Ntop4HasOnly(a, ':');
    Ntop4HasOnly(a, '/');
    DecimalHasOnly(e, ':');
    DecimalHasOnly(e, '/');
    HyphenText(net, Ntop4(a), Decimal(e));
    ShortMeaning(net, Ntop4(a) + ['-'] + Decimal(e), Ntop4(a), Decimal(e), a, e);
    LastByteToIs(a, e);
  }

  lemma {:induction false} LastByteToIs(a: nat, e: nat)
    requires a < TWO32 && e <= 255
    ensures LastByteTo(a, e) == Range4(a, WithLastByte(a, e)) && WithLastByte(a, e) < TWO32
  {
    Pow2Of32();
    ByteBits();
    ShortByte(a, 32, 8, e);
    LastByteFits(a, e);
  }

  lemma {:induction false} ByteBits()
    ensures Pow2(8) == 256
  {
  }

  lemma {:induction false} LastByteFits(a: nat, e: nat)
    requires a < TWO32 && e <= 255
    ensures WithLastByte(a, e) < TWO32
  {
  }

  lemma {:induction false} ShortByte(a: nat, n: nat, k: nat, e: nat)
    requires k <= n && a < Pow2(n) && Pow2(k) == 256 && e <= 255
    ensures ShortRangeIps(a, n, k, e) == (a, WithLastByte(a, e))
  {
    ShortRangeMeaning(a, n, k, e);
    assert n - (n - k) == k;
    LastByteOff(a, k);
  }

  lemma {:induction false} LastByteOff(a: nat, k: nat)
    requires Pow2(k) == 256
    ensures Cleared(a, k) == a / 256 * 256
  {
    ClearedMeaning(a, k);
    Multiple(a, ShiftRight(a, k));
  }

  lemma {:induction false} Multiple(a: nat, m: nat)
    requires m * 256 <= a < m * 256 + 256
    ensures a / 256 * 256 == m * 256
  {
  }

  lemma {:induction false} ShortMeaning(net: Inet6, s: string, x: string, y: string, a: nat, e: nat)
    requires CutAt(s, '-') == Some((x, y)) && Pton4(s).None? && net.pton(s).None? && Cidr4(s).None?
    requires Pton4(x) == Some(a) && y != "" && AllDigits(y) && Number(y) == e <= 255
    ensures Meaning(net, s) == LastByteTo(a, e)
  {
    assert Short4(s) == Some(LastByteTo(a, e));
    RangeChosen(net, s);
  }

  /** "a.b.c.d-e.f.g.h" runs from the one address to the other. */
  lemma {:induction false} LongRangeText(net: Inet6, a: nat, b: nat)
    requires Sane(net) && a < TWO32 && b < TWO32
    ensures Meaning(net, Ntop4(a) + ['-'] + Ntop4(b)) == Range4(a, b)
  {
    var x, y := Ntop4(a), Ntop4(b);
    Pton4Ntop4(a);
    Pton4Ntop4(b);
    Ntop4HasOnly(a, '-');
    Ntop4HasOnly(a, ':');
    Ntop4HasOnly(a, '/');
    Ntop4HasOnly(b, ':');
    Ntop4HasOnly(b, '/');
    DotIsNoNumber(b);
    HyphenText(net, x, y);
    LongMeaning(net, x + ['-'] + y, x, y);
  }

  lemma {:induction false} LongMeaning(net: Inet6, s: string, x: string, y: string)
    requires CutAt(s, '-') == Some((x, y)) && Pton4(s).None? && net.pton(s).None? && Cidr4(s).None?
    requires Pton4(x).Some? && Pton4(y).Some? && !AllDigits(y)
    ensures Meaning(net, s) == Range4(Pton4(x).value, Pton4(y).value)
  {
    assert Short4(s).None? && Long4(s) == Some(Range4(Pton4(x).value, Pton4(y).value));
    RangeChosen(net, s);
  }

  /** What else the range texts need of the IPv6 functions: no address has a hyphen or a slash. */
  ghost predicate Separable(net: Inet6) {
    Sane(net) && forall s :: net.pton(s).Some? ==> '-' !in s && '/' !in s
  }

  lemma {:induction false} ColonIsNoAddress(s: string)
    requires ':' in s
    ensures Pton4(s).None?
  {
    if Pton4(s).Some? {
      SplitKeeps(s, '.', ':');
    }
  }

  /** The same for two IPv6 addresses. */
  lemma {:induction false} LongRange6Text(net: Inet6, a: seq<Byte>, b: seq<Byte>)
    requires Separable(net) && |a| == 16 == |b|
    ensures Meaning(net, net.ntop(a) + ['-'] + net.ntop(b)) == Range6(a, b)
  {
    var x, y := net.ntop(a), net.ntop(b);
    assert net.pton(x) == Some(a) && net.pton(y) == Some(b);
    var s := x + ['-'] + y;
    CutAtIs(x, '-', y);
    assert s[|x|] == '-' && '/' !in s;
    HyphenIsNoAddress(s);
    ColonIsNoAddress(x);
    Long6Meaning(net, s, x, y);
  }

  lemma {:induction false} NoSlashNoBlock(net: Inet6, s: string)
    requires '/' !in s
    ensures Cidr4(s).None? && Cidr6(net, s).None?
  {
  }

  lemma {:induction false} NoShort6(net: Inet6, s: string, x: string, y: string)
    requires CutAt(s, '-') == Some((x, y)) && ':' in y
    ensures Short6(net, s).None?
  {
    assert !AllXDigits(y);
  }

  lemma {:induction false} NoRange4(s: string, x: string, y: string)
    requires CutAt(s, '-') == Some((x, y)) && Pton4(x).None?
    ensures Short4(s).None? && Long4(s).None?
  {
  }

  lemma {:induction false} IsLong6(net: Inet6, s: string, x: string, y: string)
    requires Sane(net) && CutAt(s, '-') == Some((x, y)) && net.pton(x).Some? && net.pton(y).Some?
    ensures Long6(net, s) == Some(Range6(net.pton(x).value, net.pton(y).value))
  {
  }

  lemma {:induction false} Long6Chosen(net: Inet6, s: string)
    requires Pton4(s).None? && net.pton(s).None? && Cidr4(s).None? && Short4(s).None? && Long4(s).None?
    requires Cidr6(net, s).None? && Short6(net, s).None? && Long6(net, s).Some?
    ensures Meaning(net, s) == Long6(net, s).value
  {
  }

  lemma {:induction false} Long6Meaning(net: Inet6, s: string, x: string, y: string)
    requires Sane(net) && CutAt(s, '-') == Some((x, y)) && '/' !in s && Pton4(s).None? && Pton4(x).None? && net.pton(s).None?
    requires net.pton(x).Some? && net.pton(y).Some?
    ensures Meaning(net, s) == Range6(net.pton(x).value, net.pton(y).value)
  {
    NoSlashNoBlock(net, s);
    NoRange4(s, x, y);
    NoShort6(net, s, x, y);
    IsLong6(net, s, x, y);
    Long6Chosen(net, s);
  }

  lemma {:induction false} DecimalWidth(n: nat)
    requires n <= 30
    ensures |Decimal(n)| <= 2
  {
    if n >= 10 {
      assert |Decimal(n / 10)| == 1;
    }
  }

  lemma {:induction false} SlashIsNoAddress(s: string)
    requires '/' in s
    ensures Pton4(s).None?
  {
    if Pton4(s).Some? {
      SplitKeeps(s, '.', '/');
    }
  }

  lemma {:induction false} SplitKeeps(s: string, c: char, x: char)
    requires x in s && x != c
    ensures exists i :: 0 <= i < |Split(s, c)| && x in Split(s, c)[i]
    decreases |s|
  {
    match CutAt(s, c)
    case None => assert x in Split(s, c)[0];
    case Some((a, b)) =>
      if x in a {
        assert x in Split(s, c)[0];
      } else {
        SplitKeeps(b, c, x);
        var i :| 0 <= i < |Split(b, c)| && x in Split(b, c)[i];
        assert x in Split(s, c)[i + 1];
      }
  }
}
