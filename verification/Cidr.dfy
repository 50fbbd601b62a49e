/**
 IPv4 blocks as services/networkService.ts and middleware/auth.ts compute them, with JavaScript's
 32-bit operators. An address is its four octets: reading them from text is not modelled, except that
 auth's reader returns null for parts that are not four numbers from 0 to 255.
 */
module Cidr {
  import opened Js32
  import opened Wrappers

  type Octet = n: int | 0 <= n < 256

  datatype Ip = Ip(a: Octet, b: Octet, c: Octet, d: Octet)

  datatype Block = Block(base: Ip, prefix: nat)

  datatype Parsed = Parsed(prefix: nat, networkAddr: Ip, broadcast: Ip, first: Ip, last: Ip)

  predicate Valid(b: Block) {
    b.prefix <= 32
  }

  // ----- The source's arithmetic

  function IpToNum(ip: Ip): int {
    Ushr(Or(Or(Or(Shl(ip.a, 24), Shl(ip.b, 16)), Shl(ip.c, 8)), ip.d), 0)
  }

  function NumToIp(n: int): Ip {
    OctetsInRange(n);
    Ip(And(Ushr(n, 24), 0xff), And(Ushr(n, 16), 0xff), And(Ushr(n, 8), 0xff), And(n, 0xff))
  }

  function Mask(prefix: nat): int {
    Ushr(if prefix == 0 then 0 else if prefix <= 32 then Not(Shl(1, 32 - prefix) - 1) else 0, 0)
  }

  function NetworkNum(b: Block): int {
    Ushr(And(IpToNum(b.base), Mask(b.prefix)), 0)
  }

  function BroadcastNum(b: Block): int {
    Ushr(Or(NetworkNum(b), Ushr(Not(Mask(b.prefix)), 0)), 0)
  }

  function ParseCidr(b: Block): Parsed {
    Parsed(b.prefix, NumToIp(NetworkNum(b)), NumToIp(BroadcastNum(b)),
           NumToIp(NetworkNum(b) + 1), NumToIp(BroadcastNum(b) - 1))
  }

  predicate CidrsOverlap(a: Block, b: Block) {
    var pa, pb := ParseCidr(a), ParseCidr(b);
    IpToNum(pa.networkAddr) <= IpToNum(pb.broadcast) && IpToNum(pb.networkAddr) <= IpToNum(pa.broadcast)
  }

  predicate IpInCidr(ip: Ip, b: Block) {
    var p := ParseCidr(b);
    IpToNum(ip) >= IpToNum(p.networkAddr) && IpToNum(ip) <= IpToNum(p.broadcast)
  }

  /** A dotted text split at its dots: the number Number makes of each part, 0.5 of "5e-1" say, None if it is none. */
  type Parts = seq<Option<real>>

  predicate AuthReadable(parts: Parts) {
    |parts| == 4 && forall i :: 0 <= i < 4 ==> parts[i].Some? && 0.0 <= parts[i].value <= 255.0
  }

  /** The operators truncate each part. */
  function AuthAddress(parts: Parts): Ip
    requires AuthReadable(parts)
  {
    Ip(parts[0].value.Floor, parts[1].value.Floor, parts[2].value.Floor, parts[3].value.Floor)
  }

  function AuthIpToNum(parts: Parts): Option<int> {
    if AuthReadable(parts) then Some(IpToNum(AuthAddress(parts))) else None
  }

  /** The allow-list's test. `bits` is None when the text after the slash is no number. */
  predicate AuthIpInCidr(ip: Parts, range: Parts, bits: Option<int>) {
    if bits == None || bits.value < 0 || bits.value > 32 then false
    else
      var ipNum, rangeNum := AuthIpToNum(ip), AuthIpToNum(range);
      if ipNum == None || rangeNum == None then false
      else And(ipNum.value, Mask(bits.value)) == And(rangeNum.value, Mask(bits.value))
  }

  // ----- What it means

  /** An address as a number, the independent definition. */
  function Value(ip: Ip): (n: nat)
    ensures n < TWO_32
  {
    ip.a * 0x100_0000 + ip.b * 0x1_0000 + ip.c * 0x100 + ip.d
  }

  function Size(prefix: nat): nat
    requires prefix <= 32
  {
    Pow2(32 - prefix)
  }

  function Lowest(b: Block): int
    requires Valid(b)
  {
    Value(b.base) - Value(b.base) % Size(b.prefix)
  }

  function Highest(b: Block): int
    requires Valid(b)
  {
    Lowest(b) + Size(b.prefix) - 1
  }

  predicate Contains(b: Block, n: int)
    requires Valid(b)
  {
    Lowest(b) <= n <= Highest(b)
  }

  // ----- Proofs

  lemma OctetsInRange(n: int)
    ensures forall s: nat :: 0 <= And(Ushr(n, s), 0xff) < 256
    ensures 0 <= And(n, 0xff) < 256
  {
    Pow2Values();
    forall s: nat ensures 0 <= And(Ushr(n, s), 0xff) < 256 {
      AndLowJs(Ushr(n, s), 8);
    }
    AndLowJs(n, 8);
  }

  lemma ShlOctet(x: Octet, s: nat)
    requires s == 24 || s == 16 || s == 8
    ensures ToUint32(Shl(x, s)) == x * Pow2(s) <= 255 * Pow2(s)
  {
    Pow2Values();
    MulMonotone(x, 255, Pow2(s));
    InRange(x);
    Unsigned(x * Pow2(s));
  }

  /** `(hi << s) | lo`, seen as a sum. */
  lemma OrOctet(hi: int, lo: int, s: nat, n: nat)
    requires ToUint32(hi) == n * Pow2(s) && ToUint32(lo) < Pow2(s) && ToUint32(hi) + ToUint32(lo) < TWO_32
    ensures ToUint32(Or(hi, lo)) == ToUint32(hi) + ToUint32(lo)
  {
    DivModUnique(ToUint32(hi), Pow2(s), n, 0);
    OrDisjointJs(hi, lo, s);
  }

  lemma IpToNumIsValue(ip: Ip)
    ensures IpToNum(ip) == Value(ip)
  {
    Pow2Values();
    ShlOctet(ip.a, 24);
    ShlOctet(ip.b, 16);
    ShlOctet(ip.c, 8);
    InRange(ip.d);
    OrOctet(Shl(ip.a, 24), Shl(ip.b, 16), 24, ip.a);
    var ab := Or(Shl(ip.a, 24), Shl(ip.b, 16));
    OrOctet(ab, Shl(ip.c, 8), 16, ip.a * 256 + ip.b);
    var abc := Or(ab, Shl(ip.c, 8));
    OrOctet(abc, ip.d, 8, ip.a * 0x1_0000 + ip.b * 256 + ip.c);
    UshrZero(Or(abc, ip.d));
  }

  lemma OctetAt(n: int, s: nat)
    requires s < 32
    ensures And(Ushr(n, s), 0xff) == ToUint32(n) / Pow2(s) % 256
  {
    assert s % 32 == s;
    assert Pow2(8) == 256;
    AndLowJs(Ushr(n, s), 8);
  }

  lemma OctetsOf(u: nat)
    requires u < TWO_32
    ensures u == (u / 0x100_0000 % 256) * 0x100_0000 + (u / 0x1_0000 % 256) * 0x1_0000 + (u / 0x100 % 256) * 0x100
            + u % 256
  {
    var u1 := u / 0x100;
    var u2 := u1 / 0x100;
    assert u2 == u / 0x1_0000 && u2 / 0x100 == u / 0x100_0000;
  }

  /** Writing a number as an address loses nothing but what is above 32 bits. */
  lemma NumToIpInverse(n: int)
    ensures Value(NumToIp(n)) == ToUint32(n)
  {
    Pow2Values();
    OctetAt(n, 24);
    OctetAt(n, 16);
    OctetAt(n, 8);
    LowOctet(n);
    OctetsOf(ToUint32(n));
  }

  lemma LowOctet(n: int)
    ensures And(n, 0xff) == ToUint32(n) % 256
  {
    Pow2Values();
    AndLowJs(n, 8);
    ModOfMod(n, 256, 0x100_0000);
  }

  lemma SizeRange(prefix: nat)
    requires prefix <= 32
    ensures 1 <= Size(prefix) <= TWO_32
    ensures prefix > 0 ==> Size(prefix) <= TWO_31
  {
    Pow2Values();
    Pow2Monotone(32 - prefix, 32);
    if prefix > 0 { Pow2Monotone(32 - prefix, 31); }
  }

  lemma ShlOne(s: nat)
    requires s < 32
    ensures Shl(1, s) == ToInt32(Pow2(s))
  {
    InRange(1);
    assert s % 32 == s;
  }

  lemma MaskValue(prefix: nat)
    requires prefix <= 32
    ensures Mask(prefix) == TWO_32 - Size(prefix)
    ensures Ushr(Not(Mask(prefix)), 0) == Size(prefix) - 1
  {
    hide ToInt32, ToUint32, Not, Ushr, Shl, Pow2;
    SizeRange(prefix);
    if prefix == 0 {
      Pow2Values();
      UshrZero(0);
      Unsigned(0);
    } else {
      var one := Shl(1, 32 - prefix);
      ShlOne(32 - prefix);
      SignedMinusOne(Size(prefix));
      NotUnsigned(one - 1);
      UshrZero(Not(one - 1));
    }
    Unsigned(TWO_32 - Size(prefix));
    NotUnsigned(Mask(prefix));
    UshrZero(Not(Mask(prefix)));
  }

  lemma NetworkIsLowest(b: Block)
    requires Valid(b)
    ensures NetworkNum(b) == Lowest(b)
  {
    hide And, Mask, IpToNum, Value, ToUint32, ToInt32, Ushr, Pow2;
    IpToNumIsValue(b.base);
    MaskValue(b.prefix);
    SizeRange(b.prefix);
    Unsigned(Mask(b.prefix));
    Unsigned(Value(b.base));
    AndHighJs(IpToNum(b.base), Mask(b.prefix), 32 - b.prefix);
    UshrZero(And(IpToNum(b.base), Mask(b.prefix)));
  }

  /** Below a multiple of s, a multiple of s leaves room for a whole block. */
  lemma BlockBelow(v: nat, s: int, t: int)
    requires s > 0 && v < t * s
    ensures (v - v % s) % s == 0 && 0 <= v - v % s && v - v % s + s <= t * s
  {
    var q := v / s;
    assert v - v % s == q * s;
    DivModUnique(q * s, s, q, 0);
    MulMonotone(0, q, s);
    if q >= t { MulMonotone(t, q, s); }
    MulMonotone(q + 1, t, s);
  }

  /** The block starts at a multiple of its size, so it ends within 32 bits. */
  lemma BlockFits(b: Block)
    requires Valid(b)
    ensures 0 <= Lowest(b) && Highest(b) < TWO_32 && Lowest(b) % Size(b.prefix) == 0
  {
    Pow2Values();
    Pow2Add(b.prefix, 32 - b.prefix);
    BlockBelow(Value(b.base), Size(b.prefix), Pow2(b.prefix));
  }

  /** Setting the bits below a block's start gives its last number. */
  lemma Filled(n: nat, prefix: nat)
    requires prefix <= 32 && n % Size(prefix) == 0 && n + Size(prefix) <= TWO_32
    ensures Ushr(Or(n, Ushr(Not(Mask(prefix)), 0)), 0) == n + Size(prefix) - 1
  {
    hide Or, Not, Mask, ToUint32, ToInt32, Ushr, Pow2;
    MaskValue(prefix);
    SizeRange(prefix);
    Unsigned(n);
    Unsigned(Size(prefix) - 1);
    OrDisjointJs(n, Size(prefix) - 1, 32 - prefix);
    UshrZero(Or(n, Size(prefix) - 1));
  }

  /** Every block, /0 and /32 included, is the aligned run of 2^(32 - prefix) addresses around its base. */
  lemma ParseCidrIsBlock(b: Block)
    requires Valid(b)
    ensures Value(ParseCidr(b).networkAddr) == Lowest(b)
    ensures Value(ParseCidr(b).broadcast) == Highest(b)
    ensures Contains(b, Value(b.base))
    ensures Value(ParseCidr(b).first) == ToUint32(Lowest(b) + 1)
    ensures Value(ParseCidr(b).last) == ToUint32(Highest(b) - 1)
  {
    hide NumToIp, NetworkNum, ToUint32, Value, Pow2, Or, Not, Mask, Ushr;
    NetworkIsLowest(b);
    BlockFits(b);
    Filled(NetworkNum(b), b.prefix);
    hide BroadcastNum;
    SizeRange(b.prefix);
    Unsigned(NetworkNum(b));
    Unsigned(BroadcastNum(b));
    NumToIpInverse(NetworkNum(b));
    NumToIpInverse(BroadcastNum(b));
    NumToIpInverse(NetworkNum(b) + 1);
    NumToIpInverse(BroadcastNum(b) - 1);
  }

  /** The interval test is membership of the block. */
  lemma IpInCidrIsMembership(ip: Ip, b: Block)
    requires Valid(b)
    ensures IpInCidr(ip, b) <==> Contains(b, Value(ip))
  {
    ParseCidrIsBlock(b);
    IpToNumIsValue(ip);
    IpToNumIsValue(ParseCidr(b).networkAddr);
    IpToNumIsValue(ParseCidr(b).broadcast);
  }

  /** Two numbers have the same multiple of s below them exactly when one is in the other's block. */
  lemma SameBlock(x: nat, y: nat, s: int)
    requires s > 0
    ensures x - x % s == y - y % s <==> y - y % s <= x < y - y % s + s
  {
    if y - y % s <= x < y - y % s + s {
      DivModUnique(x, s, y / s, x - (y / s) * s);
    }
  }

  lemma MaskTest(x: Ip, b: Block)
    requires Valid(b)
    ensures And(IpToNum(x), Mask(b.prefix)) == And(IpToNum(b.base), Mask(b.prefix)) <==> IpInCidr(x, b)
  {
    hide AndBits, ToInt32, ToUint32, IpToNum, Mask, Pow2, IpInCidr, Value;
    IpInCidrIsMembership(x, b);
    var mask, v, base := Mask(b.prefix), Value(x), Value(b.base);
    IpToNumIsValue(x);
    IpToNumIsValue(b.base);
    MaskValue(b.prefix);
    SizeRange(b.prefix);
    Unsigned(mask);
    Unsigned(v);
    Unsigned(base);
    AndHighJs(v, mask, 32 - b.prefix);
    AndHighJs(base, mask, 32 - b.prefix);
    SameSigned(AndBits(ToUint32(v), ToUint32(mask)), AndBits(ToUint32(base), ToUint32(mask)));
    assert And(v, mask) == And(base, mask) <==> v - v % Size(b.prefix) == base - base % Size(b.prefix);
    SameBlock(v, base, Size(b.prefix));
  }

  /**
   The allow-list's mask test says yes exactly when both texts can be read, the prefix is one, and networkService's
   interval test says the one address is in the other's block.
   */
  lemma TwoMembershipTestsAgree(ip: Parts, range: Parts, bits: Option<int>)
    ensures AuthIpInCidr(ip, range, bits)
       <==> && AuthReadable(ip) && AuthReadable(range) && bits.Some? && 0 <= bits.value <= 32
            && IpInCidr(AuthAddress(ip), Block(AuthAddress(range), bits.value))
  {
    hide And, IpToNum, Mask, IpInCidr;
    if AuthReadable(ip) && AuthReadable(range) && bits.Some? && 0 <= bits.value <= 32 {
      MaskTest(AuthAddress(ip), Block(AuthAddress(range), bits.value));
    }
  }

  lemma SameSigned(u: int, v: int)
    ensures ToInt32(u) == ToInt32(v) <==> ToUint32(ToInt32(u)) == ToUint32(ToInt32(v))
  {
  }

  /** An aligned block of s and one of k * s that share x: the first is inside the other. */
  lemma InsideAligned(va: nat, vb: nat, s: nat, k: nat, x: nat)
    requires s > 0 && k > 0
    ensures k * s > 0
    ensures va - va % s <= x < va - va % s + s && vb - vb % (k * s) <= x < vb - vb % (k * s) + k * s ==>
              vb - vb % (k * s) <= va - va % s && va - va % s + s <= vb - vb % (k * s) + k * s
  {
    ModOfMod(x, s, k);
    var t := k * s;
    SameBlock(x, va, s);
    SameBlock(x, vb, t);
    BlockBelow(x % t, s, k);
  }

  /** Aligned blocks of powers of two that share an address are one inside the other. */
  lemma Nested(a: Block, b: Block, x: nat)
    requires Valid(a) && Valid(b) && b.prefix <= a.prefix
    ensures Contains(a, x) && Contains(b, x) ==> Lowest(b) <= Lowest(a) && Highest(a) <= Highest(b)
  {
    hide Value;
    Pow2Add(a.prefix - b.prefix, 32 - a.prefix);
    InsideAligned(Value(a.base), Value(b.base), Size(a.prefix), Pow2(a.prefix - b.prefix), x);
  }

  /** The overlap test is right both ways, and blocks that overlap are one inside the other. */
  lemma OverlapIsSharing(a: Block, b: Block)
    requires Valid(a) && Valid(b)
    ensures CidrsOverlap(a, b) <==> exists x :: Contains(a, x) && Contains(b, x)
    ensures CidrsOverlap(a, b) ==>
              (forall x :: Contains(a, x) ==> Contains(b, x)) || (forall x :: Contains(b, x) ==> Contains(a, x))
  {
    hide ParseCidr, IpToNum, NetworkNum, BroadcastNum, Value, Lowest, Size;
    ParseCidrIsBlock(a);
    ParseCidrIsBlock(b);
    IpToNumIsValue(ParseCidr(a).networkAddr);
    IpToNumIsValue(ParseCidr(a).broadcast);
    IpToNumIsValue(ParseCidr(b).networkAddr);
    IpToNumIsValue(ParseCidr(b).broadcast);
    if CidrsOverlap(a, b) {
      var x := if Lowest(a) <= Lowest(b) then Lowest(b) else Lowest(a);
      BlockFits(a);
      BlockFits(b);
      assert Contains(a, x) && Contains(b, x) by { SizeRange(a.prefix); SizeRange(b.prefix); }
      if b.prefix <= a.prefix { Nested(a, b, x); } else { Nested(b, a, x); }
    }
  }

  /** Every address of the block but its lowest and highest, once each, in order. */
  method EnumerateUsableIps(b: Block) returns (ips: seq<Ip>)
    requires Valid(b)
    ensures |ips| == if Size(b.prefix) <= 2 then 0 else Size(b.prefix) - 2
    ensures forall i :: 0 <= i < |ips| ==> Value(ips[i]) == Lowest(b) + 1 + i
    ensures forall ip: Ip :: Lowest(b) < Value(ip) < Highest(b) <==> ip in ips
  {
    hide NumToIp, NetworkNum, Pow2, ToUint32, Value, Lowest, Or, Not, Mask, Ushr;
    var networkNum := NetworkNum(b);
    var broadcastNum := BroadcastNum(b);
    NetworkIsLowest(b);
    BlockFits(b);
    Filled(networkNum, b.prefix);
    hide BroadcastNum;
    ips := [];
    var i := networkNum + 1;
    while i < broadcastNum
      invariant networkNum + 1 <= i
      invariant |ips| > 0 ==> i <= broadcastNum
      invariant |ips| == i - networkNum - 1
      invariant forall j :: 0 <= j < |ips| ==> Value(ips[j]) == networkNum + 1 + j
    {
      Unsigned(i);
      NumToIpInverse(i);
      ips := ips + [NumToIp(i)];
      i := i + 1;
    }
    forall ip: Ip | Lowest(b) < Value(ip) < Highest(b)
      ensures ip in ips
    {
      SameValueSameIp(ip, ips[Value(ip) - networkNum - 1]);
    }
  }

  lemma SameValueSameIp(x: Ip, y: Ip)
    requires Value(x) == Value(y)
    ensures x == y
  {
    DivModUnique(x.a * 0x100_0000 + x.b * 0x1_0000 + x.c * 0x100 + x.d, 0x100, x.a * 0x1_0000 + x.b * 0x100 + x.c, x.d);
    DivModUnique(y.a * 0x100_0000 + y.b * 0x1_0000 + y.c * 0x100 + y.d, 0x100, y.a * 0x1_0000 + y.b * 0x100 + y.c, y.d);
    DivModUnique(x.a * 0x1_0000 + x.b * 0x100 + x.c, 0x100, x.a * 0x100 + x.b, x.c);
    DivModUnique(y.a * 0x1_0000 + y.b * 0x100 + y.c, 0x100, y.a * 0x100 + y.b, y.c);
    DivModUnique(x.a * 0x100 + x.b, 0x100, x.a, x.b);
    DivModUnique(y.a * 0x100 + y.b, 0x100, y.a, y.b);
  }
}
