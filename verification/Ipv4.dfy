/** JavaScript's 32-bit integer operators over integral numbers, dotted-quad text, and CIDR
    blocks as intervals. */
module Ipv4 {
  import opened Wrappers
  import opened Text
  import Decimal

  const TWO32: nat := 0x1_0000_0000

  function Pow2(k: nat): (p: nat)
    ensures p >= 1
  {
    if k == 0 then 1 else 2 * Pow2(k - 1)
  }

  // ---- bit patterns -------------------------------------------------------------

  /** Bitwise AND of two naturals, bit by bit. */
  function And(a: nat, b: nat): nat {
    if a == 0 || b == 0 then 0 else 2 * And(a / 2, b / 2) + (a % 2) * (b % 2)
  }

  /** Bitwise OR of two naturals, bit by bit. */
  function Or(a: nat, b: nat): nat {
    if a == 0 then b else if b == 0 then a
    else 2 * Or(a / 2, b / 2) + (if a % 2 + b % 2 > 0 then 1 else 0)
  }

  /** The low k bits of x, that is x modulo 2^k. */
  function Low(x: nat, k: nat): (r: nat)
    ensures r <= x && r < Pow2(k)
  {
    if k == 0 then 0 else 2 * Low(x / 2, k - 1) + x % 2
  }

  function ToUint32(x: int): (u: nat)
    ensures u < 0x1_0000_0000
  {
    x % 0x1_0000_0000
  }

  function ToInt32(x: int): int {
    var u := ToUint32(x); if u >= 0x8000_0000 then u - 0x1_0000_0000 else u
  }

  /** A bit pattern doubled, respectively halved, k times. */
  function Doubled(u: nat, k: nat): nat { if k == 0 then u else 2 * Doubled(u, k - 1) }
  function Halved(u: nat, k: nat): nat { if k == 0 then u else Halved(u / 2, k - 1) }

  /** `x << k` and `x >>> k` */
  function Shl(x: int, k: nat): int { ToInt32(Doubled(ToUint32(x), k % 32)) }
  function Shr(x: int, k: nat): nat { Halved(ToUint32(x), k % 32) }
  function BitAnd(x: int, y: int): int { ToInt32(And(ToUint32(x), ToUint32(y))) }
  function BitOr(x: int, y: int): int { ToInt32(Or(ToUint32(x), ToUint32(y))) }
  function BitNot(x: int): int { -ToInt32(x) - 1 }

  // ---- text ---------------------------------------------------------------------

  /** ipam.js: `(acc << 8) | parseInt(octet, 10)` folded over the parts, then `>>> 0`. A part
      without a number is NaN, which the bit operators read as 0. */
  function FoldShift(parts: seq<string>, acc: int): int {
    if parts == [] then acc
    else
      var octet := Decimal.ParseInt10(parts[0]);
      FoldShift(parts[1..], BitOr(Shl(acc, 8), if octet.Num? then octet.n else 0))
  }

  function IpToIntIpam(ip: string): nat {
    Shr(FoldShift(Split(ip, '.'), 0), 0)
  }

  /** policyCache.js: `((acc * 256) >>> 0) + parseInt(octet, 10)` folded over the parts. After a
      part without a number the sum is NaN, which the next `>>> 0` reads as 0. */
  function FoldTimes(parts: seq<string>, acc: int): int {
    if parts == [] then acc
    else
      var octet := Decimal.ParseInt10(parts[0]);
      FoldTimes(parts[1..], if octet.Num? then Shr(acc * 256, 0) + octet.n else 0)
  }

  function IpToIntDns(ip: string): Option<nat> {
    var parts := Split(ip, '.');
    if |parts| != 4 then None else Some(Shr(FoldTimes(parts, 0), 0))
  }

  function IntToIp(n: int): string {
    Join([Decimal.Print(ToUint32(BitAnd(Shr(n, 24), 255))), Decimal.Print(ToUint32(BitAnd(Shr(n, 16), 255))),
          Decimal.Print(ToUint32(BitAnd(Shr(n, 8), 255))), Decimal.Print(ToUint32(BitAnd(n, 255)))], ".")
  }

  function Quad(a: nat, b: nat, c: nat, d: nat): string {
    Join([Decimal.Print(a), Decimal.Print(b), Decimal.Print(c), Decimal.Print(d)], ".")
  }

  // ---- facts about bits ------------------------------------------------------------

  lemma Pow2Values()
    ensures Pow2(0) == 1 && Pow2(8) == 0x100 && Pow2(16) == 0x1_0000 && Pow2(24) == 0x100_0000
    ensures Pow2(32) == 0x1_0000_0000
  {
    assert Pow2(4) == 16;
    assert Pow2(8) == 16 * Pow2(4);
    assert Pow2(12) == 16 * Pow2(8);
    assert Pow2(16) == 16 * Pow2(12);
    assert Pow2(20) == 16 * Pow2(16);
    assert Pow2(24) == 16 * Pow2(20);
    assert Pow2(28) == 16 * Pow2(24);
    assert Pow2(32) == 16 * Pow2(28);
  }

  lemma {:induction false} Pow2Monotone(a: nat, b: nat)
    requires a <= b
    ensures Pow2(a) <= Pow2(b)
  {
    if a < b { Pow2Monotone(a, b - 1); }
  }

  lemma {:induction false} LowOfSmall(x: nat, k: nat)
    requires x < Pow2(k)
    ensures Low(x, k) == x
  {
    if k > 0 { LowOfSmall(x / 2, k - 1); }
  }

  lemma {:induction false} AndOnes(x: nat, k: nat)
    ensures And(x, Pow2(k) - 1) == Low(x, k)
  {
    hide And, Low, Pow2;
    if k == 0 {
      NoOnes(x);
    } else {
      var p := Pow2(k - 1);
      AndOnes(x / 2, k - 1);
      AndOdd(x, p - 1);
      OnesStep(x, k);
    }
  }

  lemma NoOnes(x: nat)
    ensures Pow2(0) == 1 && And(x, 0) == 0 && Low(x, 0) == 0
  {
  }

  lemma OnesStep(x: nat, k: nat)
    requires k > 0
    ensures Pow2(k) - 1 == 2 * (Pow2(k - 1) - 1) + 1 && Low(x, k) == 2 * Low(x / 2, k - 1) + x % 2
  {
  }

  lemma AndOdd(x: nat, m: nat)
    ensures And(x, 2 * m + 1) == 2 * And(x / 2, m) + x % 2
  {
    assert (2 * m + 1) / 2 == m && (2 * m + 1) % 2 == 1;
  }

  lemma AndEven(x: nat, m: nat)
    ensures And(x, 2 * m) == 2 * And(x / 2, m)
  {
    assert (2 * m) / 2 == m && (2 * m) % 2 == 0;
  }

  lemma Pow2Step(k: nat)
    requires k > 0
    ensures Pow2(k) == 2 * Pow2(k - 1)
  {
  }

  /** Masking with ones from bit k up clears the low k bits. */
  lemma {:induction false} AndHigh(x: nat, k: nat, w: nat)
    requires k <= w && x < Pow2(w)
    ensures Pow2(k) <= Pow2(w)
    ensures And(x, Pow2(w) - Pow2(k)) == x - Low(x, k)
  {
    hide And, Low, Pow2;
    Pow2Monotone(k, w);
    if k == 0 {
      NoOnes(x);
      AndOnes(x, w);
      LowOfSmall(x, w);
    } else {
      Pow2Step(w);
      Pow2Step(k);
      OnesStep(x, k);
      AndHigh(x / 2, k - 1, w - 1);
      AndEven(x, Pow2(w - 1) - Pow2(k - 1));
    }
  }

  /** OR of a number with clear low bits and a number that fits in them is their sum. */
  lemma {:induction false} OrIsSum(a: nat, b: nat, k: nat)
    requires b < Pow2(k) && Low(a, k) == 0
    ensures Or(a, b) == a + b
  {
    if a > 0 && b > 0 {
      OrIsSum(a / 2, b / 2, k - 1);
    }
  }

  /** Division with remainder by 2^k, as shifts. */
  lemma {:induction false} ShiftBack(x: nat, k: nat)
    ensures x == Doubled(Halved(x, k), k) + Low(x, k)
  {
    if k > 0 { ShiftBack(x / 2, k - 1); }
  }

  lemma {:induction false} DoubledIsTimes(u: nat, k: nat)
    ensures Doubled(u, k) == u * Pow2(k)
  {
    if k > 0 { DoubledIsTimes(u, k - 1); }
  }

  lemma LowOfByte(x: nat)
    ensures Low(x, 8) == x % 256
  {
    hide Low, Halved, Doubled, Pow2;
    ShiftBack(x, 8);
    DoubledIsTimes(Halved(x, 8), 8);
    Pow2Values();
  }

  lemma HalvedBytes(x: nat)
    ensures Halved(x, 8) == x / 0x100 && Halved(x, 16) == x / 0x1_0000 && Halved(x, 24) == x / 0x100_0000
  {
    hide Low, Halved, Doubled, Pow2;
    Pow2Values();
    ShiftBack(x, 8);
    DoubledIsTimes(Halved(x, 8), 8);
    ShiftBack(x, 16);
    DoubledIsTimes(Halved(x, 16), 16);
    ShiftBack(x, 24);
    DoubledIsTimes(Halved(x, 24), 24);
  }

  lemma Signless(x: int)
    ensures ToUint32(ToInt32(x)) == ToUint32(x)
  {
  }

  /** One step of the shifting fold, on bit patterns. */
  lemma ShlByte(acc: int, octet: nat)
    requires octet < 256
    ensures ToUint32(BitOr(Shl(acc, 8), octet)) == 256 * ToUint32(acc) % 0x1_0000_0000 + octet
  {
    hide ToUint32, ToInt32, Doubled, Or, Low;
    var doubled := 256 * ToUint32(acc);
    DoubledIsTimes(ToUint32(acc), 8);
    Signless(doubled);
    var shifted := ToUint32(doubled);
    Multiple256(doubled);
    LowOfByte(shifted);
    Pow2Values();
    OrIsSum(shifted, octet, 8);
    SmallPattern(octet);
    SmallPattern(shifted + octet);
    Signless(shifted + octet);
    Wrap256(ToUint32(acc));
  }

  lemma SmallPattern(x: nat)
    requires x < 0x1_0000_0000
    ensures ToUint32(x) == x
  {
  }

  lemma Wrap256(x: nat)
    ensures ToUint32(256 * x) == 256 * x % 0x1_0000_0000
  {
  }

  lemma Multiple256(x: int)
    requires x % 256 == 0
    ensures ToUint32(x) % 256 == 0 && ToUint32(x) <= 0xFFFF_FF00
  {
  }

  /** Signed results are 32-bit and keep the bit pattern; shift counts are taken modulo 32. */
  lemma {:induction false} WordSemantics(x: int, k: nat)
    ensures -0x8000_0000 <= ToInt32(x) <= 0x7FFF_FFFF && (x - ToInt32(x)) % 0x1_0000_0000 == 0
    ensures Shl(x, k + 32) == Shl(x, k) && Shr(x, k + 32) == Shr(x, k)
    ensures Shl(x, 0) == ToInt32(x) && Shr(x, 32) == ToUint32(x)
  {
  }

  // ---- the two parsers and the printer ------------------------------------------------

  lemma {:induction false} QuadParts(a: nat, b: nat, c: nat, d: nat)
    ensures Split(Quad(a, b, c, d), '.') == [Decimal.Print(a), Decimal.Print(b), Decimal.Print(c), Decimal.Print(d)]
  {
    SplitOfJoin([Decimal.Print(a), Decimal.Print(b), Decimal.Print(c), Decimal.Print(d)], '.');
  }

  /** Both parsers read a canonical dotted quad as the same 32-bit number. */
  lemma {:induction false} ParsersAgree(a: nat, b: nat, c: nat, d: nat)
    requires a < 256 && b < 256 && c < 256 && d < 256
    ensures IpToIntIpam(Quad(a, b, c, d)) == 0x100_0000 * a + 0x1_0000 * b + 0x100 * c + d
    ensures IpToIntDns(Quad(a, b, c, d)) == Some(IpToIntIpam(Quad(a, b, c, d)))
  {
    hide FoldShift, FoldTimes, Quad, ToUint32, Decimal.ParseInt10;
    QuadParts(a, b, c, d);
    Decimal.ParseInt10OfPrint(a);
    Decimal.ParseInt10OfPrint(b);
    Decimal.ParseInt10OfPrint(c);
    Decimal.ParseInt10OfPrint(d);
    var parts := Split(Quad(a, b, c, d), '.');
    SmallPattern(0);
    FoldsAgree(parts, 0, 0);
    FoldOfFour(parts);
    SmallPattern(FoldTimes(parts, 0));
  }

  /** A part that reads as a byte. */
  predicate IsByte(part: string) {
    var octet := Decimal.ParseInt10(part); octet.Num? && 0 <= octet.n < 256
  }

  function ByteIn(part: string): nat
    requires IsByte(part)
  {
    Decimal.ParseInt10(part).n
  }

  lemma NextTimes(times: nat, octet: nat)
    requires times < 0x1_0000_0000 && octet < 256
    ensures Shr(times * 256, 0) == 256 * times % 0x1_0000_0000
    ensures 256 * times % 0x1_0000_0000 + octet < 0x1_0000_0000
  {
    hide ToUint32;
    Multiple256(256 * times);
    Wrap256(times);
  }

  /** From accumulators of one bit pattern, the two folds end in one bit pattern. */
  lemma {:induction false} FoldsAgree(parts: seq<string>, shifted: int, times: nat)
    requires forall k :: 0 <= k < |parts| ==> IsByte(parts[k])
    requires times < 0x1_0000_0000 && ToUint32(shifted) == times
    ensures ToUint32(FoldShift(parts, shifted)) == FoldTimes(parts, times) < 0x1_0000_0000
  {
    hide BitOr, Shl, Shr, ToUint32, Decimal.ParseInt10;
    if parts != [] {
      var octet := ByteIn(parts[0]);
      ShlByte(shifted, octet);
      NextTimes(times, octet);
      FoldsAgree(parts[1..], BitOr(Shl(shifted, 8), octet), Shr(times * 256, 0) + octet);
    }
  }

  lemma {:induction false} FoldStep(parts: seq<string>, acc: nat)
    requires parts != [] && IsByte(parts[0]) && acc < 0x100_0000
    ensures FoldTimes(parts, acc) == FoldTimes(parts[1..], 256 * acc + ByteIn(parts[0]))
  {
    hide Shr, Decimal.ParseInt10;
    NextTimes(acc, ByteIn(parts[0]));
  }

  lemma {:induction false} FoldOfFour(parts: seq<string>)
    requires |parts| == 4 && forall k :: 0 <= k < 4 ==> IsByte(parts[k])
    ensures FoldTimes(parts, 0)
         == 0x100_0000 * ByteIn(parts[0]) + 0x1_0000 * ByteIn(parts[1]) + 0x100 * ByteIn(parts[2]) + ByteIn(parts[3])
  {
    hide FoldTimes, Decimal.ParseInt10;
    var p1, p2, p3 := parts[1..], parts[2..], parts[3..];
    var a, b, c, d := ByteIn(parts[0]), ByteIn(p1[0]), ByteIn(p2[0]), ByteIn(p3[0]);
    assert p1[1..] == p2 && p2[1..] == p3 && p3[1..] == [];
    FoldStep(parts, 0);
    FoldStep(p1, a);
    FoldStep(p2, 256 * a + b);
    FoldStep(p3, 0x1_0000 * a + 256 * b + c);
    FoldOfNone(0x100_0000 * a + 0x1_0000 * b + 256 * c + d);
  }

  lemma FoldOfNone(acc: nat)
    ensures FoldTimes([], acc) == acc
  {
  }

  lemma ByteOf(x: nat)
    requires x < 0x1_0000_0000
    ensures ToUint32(BitAnd(x, 255)) == x % 256
  {
    hide ToUint32, ToInt32, And, Low;
    Pow2Values();
    AndOnes(x, 8);
    LowOfByte(x);
    SmallPattern(x);
    SmallPattern(255);
    SmallPattern(x % 256);
    Signless(x % 256);
  }

  /** `intToIp` prints the four bytes of a 32-bit number, most significant first. */
  lemma {:induction false} PrintedBytes(n: nat)
    requires n < TWO32
    ensures IntToIp(n) == Quad(n / 0x100_0000, n / 0x1_0000 % 256, n / 0x100 % 256, n % 256)
  {
    hide ToUint32, BitAnd, Halved, Join, Decimal.Print;
    SmallPattern(n);
    HalvedBytes(n);
    ByteOf(n / 0x100_0000);
    ByteOf(n / 0x1_0000);
    ByteOf(n / 0x100);
    ByteOf(n);
  }

  /** Printing then parsing, with either parser, gives the number back... */
  lemma {:induction false} ParseOfIntToIp(n: nat)
    requires n < TWO32
    ensures IpToIntIpam(IntToIp(n)) == n && IpToIntDns(IntToIp(n)) == Some(n)
  {
    hide IntToIp, IpToIntIpam, IpToIntDns, Quad;
    PrintedBytes(n);
    ParsersAgree(n / 0x100_0000, n / 0x1_0000 % 256, n / 0x100 % 256, n % 256);
  }

  /** ...and parsing then printing gives the canonical quad back. */
  lemma {:induction false} IntToIpOfParse(a: nat, b: nat, c: nat, d: nat)
    requires a < 256 && b < 256 && c < 256 && d < 256
    ensures IntToIp(IpToIntIpam(Quad(a, b, c, d))) == Quad(a, b, c, d)
  {
    hide IntToIp, IpToIntIpam, IpToIntDns, Quad;
    ParsersAgree(a, b, c, d);
    var n := 0x100_0000 * a + 0x1_0000 * b + 0x100 * c + d;
    PrintedBytes(n);
    assert n / 0x1_0000 == 256 * a + b && n / 0x100 == 0x1_0000 * a + 256 * b + c;
  }

  /** A part without a number is 0 to the shifting fold, and clears what came before for the
      multiplying one. */
  lemma {:induction false} BadOctets(bad: string, rest: seq<string>, acc: int)
    requires Decimal.ParseInt10(bad).NaN?
    ensures FoldShift([bad] + rest, acc) == FoldShift(["0"] + rest, acc)
    ensures FoldTimes([bad] + rest, acc) == FoldTimes(rest, 0)
  {
    hide BitOr, Shl, Shr;
    Decimal.ParseInt10OfPrint(0);
    assert Decimal.Print(0) == "0";
    assert ([bad] + rest)[1..] == rest && (["0"] + rest)[1..] == rest;
  }

  /** The DNS engine's parser knows texts of exactly four parts only. */
  lemma FourPartsOnly(ip: string)
    ensures IpToIntDns(ip).Some? <==> |Split(ip, '.')| == 4
  {
  }

  // ---- CIDR blocks --------------------------------------------------------------------

  /** A network address and a prefix length; host bits may be set. */
  datatype Cidr = Cidr(net: nat, bits: nat) {
    predicate Valid() { net < TWO32 && bits <= 32 }
    function Size(): nat requires Valid() { Pow2(32 - bits) }
    /** The block's first address. */
    function Base(): nat requires Valid() { net - Low(net, 32 - bits) }
    predicate Has(ip: nat) requires Valid() { Base() <= ip < Base() + Size() }
    predicate Aligned() requires Valid() { net == Base() }
  }

  /** policyCache.js: the netmask of a prefix length. JavaScript takes the shift modulo 32, and a
      prefix that is not a number shifts by 0. */
  function NetMask(prefix: Decimal.Number): int {
    if prefix == Decimal.Num(0) then 0
    else Shr(Shl(BitNot(0), if prefix.Num? then (32 - prefix.n) % 32 else 0), 0)
  }

  /** The test of `ipInSubnet`: both numbers agree under the mask. */
  predicate MaskTest(ip: nat, c: Cidr)
    requires c.Valid()
  {
    BitAnd(ip, NetMask(Decimal.Num(c.bits))) == BitAnd(c.net, NetMask(Decimal.Num(c.bits)))
  }

  /** Prefixes outside 1 to 32: 0 masks everything, and others are taken modulo 32, except that what
      is no number compares whole addresses. */
  lemma {:induction false} OddPrefixes(p: int)
    ensures NetMask(Decimal.Num(0)) == 0 && NetMask(Decimal.NaN) == NetMask(Decimal.Num(32))
    ensures p != 0 && p != -32 ==> NetMask(Decimal.Num(p + 32)) == NetMask(Decimal.Num(p))
  {
    hide Shl, Shr;
  }

  lemma {:induction false} DoubledOnes(k: nat)
    ensures Doubled(0xFFFF_FFFF, k) == 0x1_0000_0000 * Pow2(k) - Pow2(k)
  {
    if k > 0 { DoubledOnes(k - 1); }
  }

  lemma {:induction false} MaskValue(bits: nat)
    requires bits <= 32
    ensures Pow2(32 - bits) <= Pow2(32)
    ensures ToUint32(NetMask(Decimal.Num(bits))) == Pow2(32) - Pow2(32 - bits)
  {
    hide Pow2, Doubled;
    Pow2Values();
    Pow2Monotone(32 - bits, 32);
    if bits > 0 {
      DoubledOnes(32 - bits);
      ShiftedOnes(Pow2(32 - bits));
    }
  }

  lemma ShiftedOnes(p: nat)
    requires 1 <= p <= 0x1_0000_0000
    ensures ToUint32(BitNot(0)) == 0xFFFF_FFFF
    ensures ToUint32(ToInt32(0x1_0000_0000 * p - p)) == 0x1_0000_0000 - p
    ensures ToUint32(ToUint32(ToInt32(0x1_0000_0000 * p - p))) == 0x1_0000_0000 - p
  {
    WrapDown(p);
    Signless(0x1_0000_0000 * p - p);
  }

  lemma WrapDown(p: nat)
    requires 1 <= p <= 0x1_0000_0000
    ensures ToUint32(0x1_0000_0000 * p - p) == 0x1_0000_0000 - p
  {
    assert 0x1_0000_0000 * p - p == 0x1_0000_0000 * (p - 1) + (0x1_0000_0000 - p);
  }

  lemma {:induction false} MaskClears(x: nat, bits: nat)
    requires x < TWO32 && bits <= 32
    ensures ToUint32(BitAnd(x, NetMask(Decimal.Num(bits)))) == x - Low(x, 32 - bits)
  {
    hide ToUint32, ToInt32, And, Low, NetMask;
    Pow2Values();
    MaskValue(bits);
    AndHigh(x, 32 - bits, 32);
    SmallPattern(x);
    SmallPattern(x - Low(x, 32 - bits));
    Signless(x - Low(x, 32 - bits));
  }

  lemma {:induction false} SameBlockIffInInterval(x: nat, net: nat, k: nat)
    ensures x - Low(x, k) == net - Low(net, k) <==> net - Low(net, k) <= x < net - Low(net, k) + Pow2(k)
  {
    if k > 0 {
      SameBlockIffInInterval(x / 2, net / 2, k - 1);
    }
  }

  /** The mask test is membership of the interval [base, base + 2^(32-bits)). */
  lemma {:induction false} MaskTestIsInterval(ip: nat, c: Cidr)
    requires ip < TWO32 && c.Valid()
    ensures MaskTest(ip, c) <==> c.Has(ip)
  {
    hide ToUint32, ToInt32, And, Low, NetMask, Pow2;
    MaskClears(ip, c.bits);
    MaskClears(c.net, c.bits);
    SameBlockIffInInterval(ip, c.net, 32 - c.bits);
    SignedInjective(And(ToUint32(ip), ToUint32(NetMask(Decimal.Num(c.bits)))), And(ToUint32(c.net), ToUint32(NetMask(Decimal.Num(c.bits)))));
  }

  lemma SignedInjective(x: int, y: int)
    ensures ToInt32(x) == ToInt32(y) <==> ToUint32(ToInt32(x)) == ToUint32(ToInt32(y))
  {
    Signless(x);
    Signless(y);
  }

  lemma {:induction false} ClearedFits(x: nat, k: nat, w: nat)
    requires k <= w && x < Pow2(w)
    ensures x - Low(x, k) + Pow2(k) <= Pow2(w)
    ensures Low(x - Low(x, k), k) == 0
  {
    if k > 0 {
      ClearedFits(x / 2, k - 1, w - 1);
      assert (x - Low(x, k)) / 2 == x / 2 - Low(x / 2, k - 1);
    } else {
      assert x + 1 <= Pow2(w);
    }
  }

  /** A block stays below 2^32 and its base has all host bits clear. */
  lemma {:induction false} BlockFits(c: Cidr)
    requires c.Valid()
    ensures c.Base() + c.Size() <= TWO32 && Cidr(c.Base(), c.bits).Aligned()
  {
    hide Low, Pow2;
    Pow2Values();
    ClearedFits(c.net, 32 - c.bits, 32);
  }
}
