/** Picking the policy of the most specific subnet around an address, and telling on-campus
    addresses from the others. */
module SubnetPolicy {
  import opened Wrappers
  import opened Text
  import opened Ipv4
  import Decimal

  /** An assignment row; an empty subnet text or a missing policy disables it. */
  datatype Assignment<P> = Assignment(subnet: string, policy: Option<P>)

  /** `parseInt(cidr.split('/')[1] ?? '32', 10)` */
  function PrefixLength(cidr: string): Decimal.Number {
    var parts := Split(cidr, '/');
    if |parts| > 1 then Decimal.ParseInt10(parts[1]) else Decimal.Num(32)
  }

  /** Neither text has four parts, or the masked numbers differ: not in the subnet. */
  predicate IpInSubnet(ip: string, cidr: string) {
    var mask := NetMask(PrefixLength(cidr));
    var ipInt, netInt := IpToIntDns(ip), IpToIntDns(Split(cidr, '/')[0]);
    ipInt.Some? && netInt.Some? && BitAnd(ipInt.value, mask) == BitAnd(netInt.value, mask)
  }

  /** The specificity of a row: -1 when its prefix is not a number, so that nothing is below it. */
  function BitsOf<P>(a: Assignment<P>): int {
    var prefix := PrefixLength(a.subnet);
    if prefix.Num? then prefix.n else -1
  }

  /** An enabled row with a prefix of 0 or more whose subnet contains the address. */
  predicate Matches<P>(ip: string, a: Assignment<P>) {
    a.subnet != "" && a.policy.Some? && BitsOf(a) > -1 && IpInSubnet(ip, a.subnet)
  }

  /** Row k matches, no matching row is more specific, and no earlier one is as specific. */
  ghost predicate FirstMostSpecific<P>(ip: string, assignments: seq<Assignment<P>>, k: nat) {
    && k < |assignments| && Matches(ip, assignments[k])
    && (forall j :: 0 <= j < |assignments| && Matches(ip, assignments[j]) ==>
          BitsOf(assignments[j]) < BitsOf(assignments[k]) || (BitsOf(assignments[j]) == BitsOf(assignments[k]) && k <= j))
  }

  method GetSubnetPolicy<P>(ip: string, assignments: seq<Assignment<P>>) returns (r: Option<P>)
    ensures r.None? <==> forall k :: 0 <= k < |assignments| ==> !Matches(ip, assignments[k])
    ensures r.Some? ==> exists k: nat :: FirstMostSpecific(ip, assignments, k) && assignments[k].policy == r
  {
    hide IpInSubnet, PrefixLength;
    r := None;
    var matchBits: int := -1;
    ghost var best: nat := 0;
    for i := 0 to |assignments|
      invariant r.None? ==> matchBits == -1 && forall k :: 0 <= k < i ==> !Matches(ip, assignments[k])
      invariant r.Some? ==> best < i && FirstMostSpecific(ip, assignments[..i], best)
                            && assignments[best].policy == r && matchBits == BitsOf(assignments[best])
    {
      var entry := assignments[i];
      if entry.subnet != "" && entry.policy.Some? {
        var bits := PrefixLength(entry.subnet);
        if bits.Num? && bits.n > matchBits && IpInSubnet(ip, entry.subnet) {
          r := entry.policy;
          matchBits := bits.n;
          best := i;
        }
      }
    }
    assert assignments[..|assignments|] == assignments;
  }

  // ---- what the test means ------------------------------------------------------------

  /** The canonical text of a block. */
  function Written(c: Cidr): string {
    IntToIp(c.net) + "/" + Decimal.Print(c.bits)
  }

  lemma {:induction false} PrintedHasNoSlash(n: int)
    ensures '/' !in IntToIp(n) && IntToIp(n) != ""
  {
    hide BitAnd, Shr, ToUint32, Decimal.Print;
    var parts := [Decimal.Print(ToUint32(BitAnd(Shr(n, 24), 255))), Decimal.Print(ToUint32(BitAnd(Shr(n, 16), 255))),
                  Decimal.Print(ToUint32(BitAnd(Shr(n, 8), 255))), Decimal.Print(ToUint32(BitAnd(n, 255)))];
    JoinClean(parts, ".", '/');
  }

  lemma {:induction false} WrittenParts(c: Cidr)
    requires c.Valid()
    ensures Split(Written(c), '/')[0] == IntToIp(c.net) && PrefixLength(Written(c)) == Decimal.Num(c.bits)
  {
    hide IntToIp, Decimal.Print, Decimal.ParseInt10;
    var network, bits := IntToIp(c.net), Decimal.Print(c.bits);
    PrintedHasNoSlash(c.net);
    assert Written(c) == network + ['/'] + bits;
    SplitConcat(network, bits, '/');
    SplitWhole(network, '/');
    SplitWhole(bits, '/');
    Decimal.ParseInt10OfPrint(c.bits);
  }

  /** On canonical text the subnet test is membership of the CIDR interval. */
  lemma {:induction false} SubnetTestIsInterval(ip: nat, c: Cidr)
    requires ip < TWO32 && c.Valid()
    ensures IpInSubnet(IntToIp(ip), Written(c)) <==> c.Has(ip)
  {
    hide IntToIp, IpToIntDns, BitAnd, NetMask, Written, PrefixLength;
    WrittenParts(c);
    ParseOfIntToIp(ip);
    ParseOfIntToIp(c.net);
    MaskTestIsInterval(ip, c);
  }

  /** Two blocks of one prefix length around the same address are the same block, so the
      first of several equally specific rows is the only subnet there is to choose. */
  lemma EqualLengthMatchesCoincide(ip: nat, c: Cidr, d: Cidr)
    requires c.Valid() && d.Valid() && c.bits == d.bits && c.Has(ip) && d.Has(ip)
    ensures c.Base() == d.Base()
  {
    hide Low;
    SameBlockIffInInterval(ip, c.net, 32 - c.bits);
    SameBlockIffInInterval(ip, d.net, 32 - d.bits);
  }

  /** A row of a written block governs an address exactly when it has a policy and the block holds
      the address; its specificity is the block's prefix length. */
  lemma {:induction false} RowMatchesItsBlock<P>(ip: nat, a: Assignment<P>, c: Cidr)
    requires ip < TWO32 && c.Valid() && a.subnet == Written(c)
    ensures Matches(IntToIp(ip), a) <==> a.policy.Some? && c.Has(ip)
    ensures BitsOf(a) == c.bits
  {
    hide IntToIp, IpInSubnet, PrefixLength;
    WrittenParts(c);
    SubnetTestIsInterval(ip, c);
  }

  /** The bare text of an address is the block of that address alone, of prefix length 32. */
  lemma {:induction false} BareAddressIsOneHost<P>(ip: nat, host: nat, a: Assignment<P>)
    requires ip < TWO32 && host < TWO32 && a.subnet == IntToIp(host)
    ensures Matches(IntToIp(ip), a) <==> a.policy.Some? && ip == host
    ensures BitsOf(a) == 32
  {
    hide IntToIp, IpToIntDns, BitAnd, NetMask;
    PrintedHasNoSlash(host);
    SplitWhole(IntToIp(host), '/');
    ParseOfIntToIp(ip);
    ParseOfIntToIp(host);
    MaskTestIsInterval(ip, Cidr(host, 32));
  }

  /** Rows without subnet text, without policy, or whose prefix is no number or negative, govern
      nothing. */
  lemma DisabledRowsMatchNothing<P>(ip: string, a: Assignment<P>)
    requires || a.subnet == "" || a.policy.None? || PrefixLength(a.subnet).NaN?
             || (PrefixLength(a.subnet).Num? && PrefixLength(a.subnet).n < 0)
    ensures !Matches(ip, a)
  {
  }

  /** In a table of written blocks the policy chosen is that of the smallest enabled block around
      the address, the first of equal ones. */
  lemma {:induction false} SmallestBlockGoverns<P>(ip: nat, rows: seq<Assignment<P>>, blocks: seq<Cidr>, k: nat)
    requires ip < TWO32 && |rows| == |blocks|
    requires forall j :: 0 <= j < |rows| ==> blocks[j].Valid() && rows[j].subnet == Written(blocks[j])
    ensures FirstMostSpecific(IntToIp(ip), rows, k)
        <==> && k < |rows| && rows[k].policy.Some? && blocks[k].Has(ip)
             && forall j :: 0 <= j < |rows| && rows[j].policy.Some? && blocks[j].Has(ip) ==>
                  blocks[j].bits < blocks[k].bits || (blocks[j].bits == blocks[k].bits && k <= j)
  {
    hide IntToIp, Matches, BitsOf, Low, Pow2, Written;
    forall j | 0 <= j < |rows|
      ensures Matches(IntToIp(ip), rows[j]) <==> rows[j].policy.Some? && blocks[j].Has(ip)
      ensures BitsOf(rows[j]) == blocks[j].bits
    {
      RowMatchesItsBlock(ip, rows[j], blocks[j]);
    }
  }

  /** An address that is not written in four parts, such as an IPv6 one, is in no subnet. */
  lemma OtherShapesMatchNothing<P>(ip: string, a: Assignment<P>)
    requires |Split(ip, '.')| != 4
    ensures !IpInSubnet(ip, a.subnet) && !Matches(ip, a)
  {
  }

  // ---- on campus ------------------------------------------------------------------------

  datatype Location = AnyLocation | OnCampus | OffCampus

  function ResolveLocation(ip: string, campus: seq<string>): Location {
    if ip == "" then AnyLocation
    else if exists k :: 0 <= k < |campus| && IpInSubnet(ip, campus[k]) then OnCampus
    else OffCampus
  }

  lemma {:induction false} OnCampusIsUnionOfBlocks(ip: nat, campus: seq<Cidr>)
    requires ip < TWO32 && forall k :: 0 <= k < |campus| ==> campus[k].Valid()
    ensures ResolveLocation(IntToIp(ip), seq(|campus|, k requires 0 <= k < |campus| => Written(campus[k]))) == OnCampus
        <==> exists k :: 0 <= k < |campus| && campus[k].Has(ip)
    ensures ResolveLocation(IntToIp(ip), seq(|campus|, k requires 0 <= k < |campus| => Written(campus[k]))) == OffCampus
        <==> forall k :: 0 <= k < |campus| ==> !campus[k].Has(ip)
    ensures forall subnets: seq<string> :: ResolveLocation("", subnets) == AnyLocation
  {
    hide IntToIp, IpInSubnet, Written;
    var texts := seq(|campus|, k requires 0 <= k < |campus| => Written(campus[k]));
    forall k | 0 <= k < |campus| ensures IpInSubnet(IntToIp(ip), texts[k]) <==> campus[k].Has(ip) {
      SubnetTestIsInterval(ip, campus[k]);
    }
    PrintedHasNoSlash(ip);
  }

  // ---- the memo of the network policy -----------------------------------------------------

  /** The last cached string that parsed, with its parse; the empty string stands for none. */
  class NetworkPolicyMemo<P> {
    var lastRaw: string
    var lastParsed: Option<P>

    ghost predicate Valid(parse: string -> Option<P>)
      reads this
    {
      lastRaw != "" ==> lastParsed.Some? && parse(lastRaw) == lastParsed
    }

    constructor ()
      ensures lastRaw == "" && lastParsed == None
    {
      lastRaw, lastParsed := "", None;
    }

    /** The memo never shows: the result is the parse of the cached string, or without a
        parsable one what the backend (or the default) supplies. */
    method GetNetworkPolicy(raw: string, parse: string -> Option<P>, fetched: P) returns (r: P)
      requires Valid(parse)
      modifies this
      ensures Valid(parse)
      ensures r == if raw != "" && parse(raw).Some? then parse(raw).value else fetched
    {
      if raw != "" {
        if raw == lastRaw {
          return lastParsed.value;
        }
        var parsed := parse(raw);
        if parsed.Some? {
          lastRaw, lastParsed := raw, parsed;
          return parsed.value;
        }
      }
      return fetched;
    }
  }
}
