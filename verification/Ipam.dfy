/** Address management: host enumeration with paging, subnet splitting, overlap. */
module Ipam {
  import opened Wrappers
  import opened Ipv4
  import Decimal

  // ---- listing the hosts of a subnet -------------------------------------------------

  datatype Status = Used | Reserved | Offline | Free
  datatype Doc = Doc(ip: string, status: Status)

  /** A documented address, or the filler row of an undocumented host. */
  datatype Row = Documented(doc: Doc) | Available(host: string) {
    function Ip(): string { if Documented? then doc.ip else host }
    function Status(): Status { if Documented? then doc.status else Free }
  }

  function HostCount(bits: nat): int
    requires bits <= 32
  {
    if bits >= 31 then Pow2(32 - bits) else Pow2(32 - bits) - 2
  }

  const MAX_ENUMERATE := 65534

  function FirstHost(c: Cidr): nat
    requires c.Valid()
  {
    if c.bits >= 31 then c.Base() else c.Base() + 1
  }

  /** A host: any address of a /31 or /32, otherwise neither the first nor the last of the block. */
  predicate IsHost(c: Cidr, n: nat)
    requires c.Valid()
  {
    c.Has(n) && (c.bits >= 31 || (n != c.Base() && n != c.Base() + c.Size() - 1))
  }

  /** The map built from the documents: of several with one address the last wins. */
  function DocFor(docs: seq<Doc>, ip: string): Option<Doc> {
    if docs == [] then None
    else
      var later := DocFor(docs[1..], ip);
      if later.Some? then later else if docs[0].ip == ip then Some(docs[0]) else None
  }

  function RowFor(docs: seq<Doc>, n: nat): Row {
    var doc := DocFor(docs, IntToIp(n));
    if doc.Some? then Documented(doc.value) else Available(IntToIp(n))
  }

  function HostRows(first: nat, count: nat, docs: seq<Doc>): seq<Row> {
    seq(count, i requires 0 <= i < count => RowFor(docs, first + i))
  }

  method EnumerateHosts(network: string, bits: nat, docs: seq<Doc>) returns (rows: seq<Row>)
    requires bits <= 32 && 0 < HostCount(bits) <= MAX_ENUMERATE
    ensures var c := Cidr(IpToIntIpam(network), bits);
            c.Valid() && rows == HostRows(FirstHost(c), HostCount(bits), docs)
  {
    hide IntToIp, IpToIntIpam, Low, Pow2, Shl, Shr, BitAnd, BitNot, DocFor;
    var networkInt := IpToIntIpam(network);
    IpBelow(network);
    ghost var c := Cidr(networkInt, bits);
    var hostMask := Shl(1, 32 - bits) - 1;
    var networkBase := Shr(BitAnd(networkInt, BitNot(hostMask)), 0);
    HostMaskFacts(networkInt, bits);
    assert networkBase == c.Base() && hostMask == c.Size() - 1;
    var firstHost := if bits >= 31 then networkBase else networkBase + 1;
    var lastHost := if bits >= 31 then networkBase + hostMask else Shr(networkBase + hostMask - 1, 0);
    LastHost(c);
    assert lastHost == firstHost + HostCount(bits) - 1;
    rows := [];
    var n := firstHost;
    while n <= lastHost
      invariant firstHost <= n <= lastHost + 1
      invariant rows == HostRows(firstHost, n - firstHost, docs)
    {
      var ip := IntToIp(n);
      var doc := DocFor(docs, ip);
      rows := rows + [if doc.Some? then Documented(doc.value) else Available(ip)];
      assert rows[n - firstHost] == RowFor(docs, firstHost + (n - firstHost));
      n := n + 1;
    }
  }

  lemma {:induction false} LastHost(c: Cidr)
    requires c.Valid() && HostCount(c.bits) > 0
    ensures c.bits < 31 ==> Shr(c.Base() + c.Size() - 2, 0) == c.Base() + c.Size() - 2
  {
    hide Low, Pow2, ToUint32;
    BlockFits(c);
    if c.bits < 31 {
      SmallPattern(c.Base() + c.Size() - 2);
    }
  }

  lemma IpBelow(network: string)
    ensures IpToIntIpam(network) < TWO32
  {
  }

  lemma {:induction false} DoubledOne(k: nat)
    ensures Doubled(1, k) == Pow2(k)
  {
    DoubledIsTimes(1, k);
  }

  /** With at most 16 host bits the signed shift stays positive and the mask clears the host bits. */
  lemma {:induction false} HostMaskFacts(net: nat, bits: nat)
    requires net < TWO32 && bits <= 32 && HostCount(bits) <= MAX_ENUMERATE
    ensures bits >= 16
    ensures var hostMask := Shl(1, 32 - bits) - 1;
            hostMask == Pow2(32 - bits) - 1
            && Shr(BitAnd(net, BitNot(hostMask)), 0) == Cidr(net, bits).Base()
  {
    hide And, Low, Pow2, BitNot, BitAnd, Shr;
    Pow2Values();
    if bits < 16 {
      TooManyHosts(32 - bits);
    }
    SmallShift(32 - bits);
    LowMask(net, 32 - bits);
  }

  lemma {:induction false} TooManyHosts(k: nat)
    requires k > 16
    ensures Pow2(k) >= 0x2_0000
  {
    Pow2Values();
    assert Pow2(17) == 2 * Pow2(16);
    Pow2Monotone(17, k);
  }

  /** Free addresses are enumerated exactly for prefixes /16 to /32. */
  lemma {:induction false} EnumeratesFromSlash16(bits: nat)
    requires bits <= 32
    ensures 0 < HostCount(bits) <= MAX_ENUMERATE <==> bits >= 16
  {
    hide Pow2;
    if bits < 16 {
      TooManyHosts(32 - bits);
    } else {
      Pow2Values();
      Pow2Monotone(32 - bits, 16);
      SmallBlocks(32 - bits);
    }
  }

  lemma {:induction false} SmallBlocks(k: nat)
    ensures if k == 0 then Pow2(k) == 1 else if k == 1 then Pow2(k) == 2 else Pow2(k) >= 4
  {
    if k >= 2 { Pow2Monotone(2, k); }
    assert Pow2(2) == 4;
  }

  lemma {:induction false} SmallShift(k: nat)
    requires k <= 16
    ensures Shl(1, k) == Pow2(k) <= 0x1_0000
  {
    hide Pow2, Doubled;
    Pow2Values();
    Pow2Monotone(k, 16);
    DoubledOne(k);
  }

  lemma {:induction false} LowMask(net: nat, k: nat)
    requires net < TWO32 && k <= 16 && Pow2(k) <= 0x1_0000
    ensures Shr(BitAnd(net, BitNot(Pow2(k) - 1)), 0) == net - Low(net, k)
  {
    hide And, Low, Pow2;
    Pow2Values();
    AndHigh(net, k, 32);
    NotOfMask(Pow2(k));
    SmallPattern(net);
    Signless(net - Low(net, k));
    SmallPattern(net - Low(net, k));
  }

  lemma NotOfMask(p: nat)
    requires 1 <= p <= 0x1_0000
    ensures ToUint32(BitNot(p - 1)) == 0x1_0000_0000 - p
  {
  }

  // ---- every host once -------------------------------------------------------------------

  lemma {:induction false} DocForKey(docs: seq<Doc>, ip: string)
    ensures DocFor(docs, ip).Some? ==> DocFor(docs, ip).value.ip == ip && DocFor(docs, ip).value in docs
    ensures DocFor(docs, ip).None? <==> forall k :: 0 <= k < |docs| ==> docs[k].ip != ip
  {
    if docs != [] {
      DocForKey(docs[1..], ip);
      if DocFor(docs, ip).None? {
        forall k | 0 <= k < |docs| ensures docs[k].ip != ip {
          if k > 0 { assert docs[k] == docs[1..][k - 1]; }
        }
      } else if DocFor(docs[1..], ip).Some? {
        var k :| 0 <= k < |docs[1..]| && docs[1..][k].ip == ip;
        assert docs[k + 1].ip == ip;
      }
    }
  }

  lemma {:induction false} IntToIpInjective(m: nat, n: nat)
    requires m < TWO32 && n < TWO32 && IntToIp(m) == IntToIp(n)
    ensures m == n
  {
    hide IntToIp, IpToIntIpam, IpToIntDns;
    ParseOfIntToIp(m);
    ParseOfIntToIp(n);
  }

  lemma {:induction false} HostRange(c: Cidr, n: nat)
    requires c.Valid() && HostCount(c.bits) > 0
    ensures IsHost(c, n) <==> FirstHost(c) <= n < FirstHost(c) + HostCount(c.bits)
    ensures FirstHost(c) + HostCount(c.bits) <= TWO32
  {
    hide Low;
    BlockFits(c);
    assert Pow2(1) == 2 && Pow2(0) == 1;
    if c.bits < 31 {
      Pow2Monotone(2, 32 - c.bits);
      assert Pow2(2) == 4;
    }
  }

  /** The listing shows every host of the block at exactly one row, in address order. */
  lemma {:induction false} EveryHostOnce(c: Cidr, docs: seq<Doc>, n: nat)
    requires c.Valid() && HostCount(c.bits) > 0 && IsHost(c, n)
    ensures var rows := HostRows(FirstHost(c), HostCount(c.bits), docs);
            |rows| == HostCount(c.bits) && FirstHost(c) <= n < FirstHost(c) + |rows|
            && forall i :: 0 <= i < |rows| ==> (rows[i].Ip() == IntToIp(n) <==> i == n - FirstHost(c))
  {
    hide IntToIp, Low;
    HostRange(c, n);
    var rows := HostRows(FirstHost(c), HostCount(c.bits), docs);
    forall i | 0 <= i < |rows| ensures rows[i].Ip() == IntToIp(n) <==> i == n - FirstHost(c) {
      DocForKey(docs, IntToIp(FirstHost(c) + i));
      assert rows[i].Ip() == IntToIp(FirstHost(c) + i);
      if rows[i].Ip() == IntToIp(n) {
        IntToIpInjective(FirstHost(c) + i, n);
      }
    }
  }

  // ---- paging ------------------------------------------------------------------------------

  function Min(a: int, b: int): int { if a <= b then a else b }

  /** `rows.slice((page - 1) * size, page * size)`, clamped as JavaScript does. */
  function Page<T>(rows: seq<T>, page: nat, size: nat): seq<T>
    requires page >= 1 && size >= 1
  {
    var start := Min((page - 1) * size, |rows|);
    assert (page - 1) * size >= 0;
    rows[start..Min(start + size, |rows|)]
  }

  /** `Math.ceil(n / size) || 1` */
  function TotalPages(n: nat, size: nat): nat
    requires size >= 1
  {
    if n == 0 then 1 else (n + size - 1) / size
  }

  function PagesUpTo<T>(rows: seq<T>, size: nat, k: nat): seq<T>
    requires size >= 1
  {
    if k == 0 then [] else PagesUpTo(rows, size, k - 1) + Page(rows, k, size)
  }

  lemma {:induction false} PagesArePrefix<T>(rows: seq<T>, size: nat, k: nat)
    requires size >= 1
    ensures k * size >= 0 && PagesUpTo(rows, size, k) == rows[..Min(k * size, |rows|)]
  {
    if k > 0 {
      PagesArePrefix(rows, size, k - 1);
      var start, end := Min((k - 1) * size, |rows|), Min(k * size, |rows|);
      assert (k - 1) * size + size == k * size;
      assert rows[..start] + rows[start..end] == rows[..end];
    }
  }

  lemma CeilCovers(n: nat, size: nat)
    requires size >= 1
    ensures TotalPages(n, size) * size >= n
  {
    if n > 0 {
      var m := n + size - 1;
      assert m == size * (m / size) + m % size;
      assert size * (m / size) == m / size * size;
    }
  }

  /** There is always a page, and the page before the last is not yet enough. */
  lemma CeilIsLeast(n: nat, size: nat)
    requires size >= 1
    ensures TotalPages(n, size) >= 1 && TotalPages(0, size) == 1
    ensures n > 0 ==> (TotalPages(n, size) - 1) * size < n
  {
    if n > 0 {
      var m, pages := n + size - 1, TotalPages(n, size);
      assert m == size * (m / size) + m % size;
      assert (pages - 1) * size == size * (m / size) - size;
    }
  }

  /** Every page up to the last shows something, unless the list is empty; there is always one. */
  lemma {:induction false} NoSurplusPages<T>(rows: seq<T>, page: nat, size: nat)
    requires size >= 1 && 1 <= page <= TotalPages(|rows|, size) && rows != []
    ensures Page(rows, page, size) != []
  {
    hide TotalPages;
    CeilIsLeast(|rows|, size);
    var pages := TotalPages(|rows|, size);
    assert (page - 1) * size <= (pages - 1) * size by {
      assert (pages - 1) * size == (page - 1) * size + (pages - page) * size;
    }
  }

  /** Pages 1 to total_pages, one after the other, are the whole list; no smaller number of pages
      is enough, and an empty list still has one. */
  lemma {:induction false} PagesConcatenateToRows<T>(rows: seq<T>, size: nat)
    requires size >= 1
    ensures PagesUpTo(rows, size, TotalPages(|rows|, size)) == rows
    ensures TotalPages(|rows|, size) >= 1 && (rows == [] ==> TotalPages(|rows|, size) == 1)
    ensures forall page :: 1 <= page <= TotalPages(|rows|, size) && rows != [] ==> Page(rows, page, size) != []
  {
    forall page | 1 <= page <= TotalPages(|rows|, size) && rows != [] ensures Page(rows, page, size) != [] {
      NoSurplusPages(rows, page, size);
    }
    CeilIsLeast(|rows|, size);
    hide TotalPages;
    var k := TotalPages(|rows|, size);
    PagesArePrefix(rows, size, k);
    CeilCovers(|rows|, size);
    assert rows[..|rows|] == rows;
  }

  // ---- free rows against the utilization figure ----------------------------------------------

  function FreeRows(rows: seq<Row>): nat {
    if rows == [] then 0 else (if rows[0].Status() == Free then 1 else 0) + FreeRows(rows[1..])
  }

  function NonFreeDocs(docs: seq<Doc>): nat {
    if docs == [] then 0 else (if docs[0].status != Free then 1 else 0) + NonFreeDocs(docs[1..])
  }

  /** `Math.max(0, total - nonFree)` */
  function UtilizationFree(total: int, docs: seq<Doc>): nat {
    if total >= NonFreeDocs(docs) then total - NonFreeDocs(docs) else 0
  }

  /** Hosts first .. first+count-1 whose row is documented and not free. */
  function TakenHosts(first: nat, count: nat, docs: seq<Doc>): nat
    decreases count
  {
    if count == 0 then 0
    else (if RowFor(docs, first).Status() != Free then 1 else 0) + TakenHosts(first + 1, count - 1, docs)
  }

  lemma {:induction false} FreePlusTaken(first: nat, count: nat, docs: seq<Doc>)
    ensures FreeRows(HostRows(first, count, docs)) + TakenHosts(first, count, docs) == count
    decreases count
  {
    hide RowFor;
    if count > 0 {
      FreePlusTaken(first + 1, count - 1, docs);
      assert HostRows(first, count, docs)[1..] == HostRows(first + 1, count - 1, docs);
    }
  }

  /** The document names a host of the range. */
  ghost predicate Names(first: nat, count: nat, ip: string) {
    exists n :: first <= n < first + count && IntToIp(n) == ip
  }

  ghost predicate Mentions(docs: seq<Doc>, ip: string) {
    exists k :: 0 <= k < |docs| && docs[k].ip == ip
  }

  /** A further document in front counts only if it is the sole one of a host. */
  lemma {:induction false} TakenWithOneMore(first: nat, count: nat, docs: seq<Doc>)
    requires first + count <= TWO32 && docs != []
    ensures TakenHosts(first, count, docs) == TakenHosts(first, count, docs[1..])
              + (if docs[0].status != Free && Names(first, count, docs[0].ip) && !Mentions(docs[1..], docs[0].ip) then 1 else 0)
    decreases count
  {
    hide IntToIp;
    if count > 0 {
      TakenWithOneMore(first + 1, count - 1, docs);
      var d, rest := docs[0], docs[1..];
      DocForKey(rest, IntToIp(first));
      if IntToIp(first) == d.ip {
        assert Names(first, count, d.ip);
        if Names(first + 1, count - 1, d.ip) {
          var n :| first + 1 <= n < first + count && IntToIp(n) == d.ip;
          IntToIpInjective(first, n);
        }
        assert Mentions(rest, d.ip) <==> DocFor(rest, d.ip).Some?;
      } else {
        assert Names(first, count, d.ip) <==> Names(first + 1, count - 1, d.ip);
      }
    }
  }

  /** Every non-free document names a host that no later document names again. */
  ghost predicate DistinctHosts(first: nat, count: nat, docs: seq<Doc>) {
    docs != [] ==>
      && (docs[0].status != Free ==> Names(first, count, docs[0].ip) && !Mentions(docs[1..], docs[0].ip))
      && DistinctHosts(first, count, docs[1..])
  }

  lemma {:induction false} TakenAtMostNonFree(first: nat, count: nat, docs: seq<Doc>)
    requires first + count <= TWO32
    ensures TakenHosts(first, count, docs) <= NonFreeDocs(docs)
    ensures TakenHosts(first, count, docs) == NonFreeDocs(docs) <==> DistinctHosts(first, count, docs)
  {
    if docs == [] {
      NothingTaken(first, count);
    } else {
      TakenAtMostNonFree(first, count, docs[1..]);
      TakenWithOneMore(first, count, docs);
    }
  }

  lemma {:induction false} NothingTaken(first: nat, count: nat)
    ensures TakenHosts(first, count, []) == 0
    decreases count
  {
    if count > 0 { NothingTaken(first + 1, count - 1); }
  }

  /** The rows shown as free are never fewer than the utilization figure, and as many exactly when
      the non-free documents are distinct hosts or every host is taken. */
  lemma {:induction false} FreeRowsAgainstUtilization(c: Cidr, docs: seq<Doc>)
    requires c.Valid() && HostCount(c.bits) > 0
    ensures var free := FreeRows(HostRows(FirstHost(c), HostCount(c.bits), docs));
            free >= UtilizationFree(HostCount(c.bits), docs)
            && (free == UtilizationFree(HostCount(c.bits), docs)
                <==> || DistinctHosts(FirstHost(c), HostCount(c.bits), docs)
                     || TakenHosts(FirstHost(c), HostCount(c.bits), docs) == HostCount(c.bits))
  {
    hide IntToIp, Low;
    HostRange(c, FirstHost(c));
    FreePlusTaken(FirstHost(c), HostCount(c.bits), docs);
    TakenAtMostNonFree(FirstHost(c), HostCount(c.bits), docs);
  }

  // ---- splitting ------------------------------------------------------------------------------

  datatype SplitResult = BadPrefix | NotFound | NotLarger | TooMany | Done(created: nat, skipped: nat)

  function Child(parent: Cidr, q: nat, n: nat): Cidr
    requires parent.Valid() && q <= 32
  {
    Cidr(parent.Base() + n * Pow2(32 - q), q)
  }

  function Children(parent: Cidr, q: nat): seq<Cidr>
    requires parent.Valid() && parent.bits <= q <= 32
  {
    var count := Pow2(q - parent.bits);
    seq(count, n requires 0 <= n < count => Child(parent, q, n))
  }

  function Missing(candidates: seq<Cidr>, table: seq<Cidr>): (out: seq<Cidr>)
    ensures |out| <= |candidates|
  {
    if candidates == [] then []
    else (if candidates[0] in table then [] else [candidates[0]]) + Missing(candidates[1..], table)
  }

  class SubnetTable {
    var rows: seq<Cidr>

    constructor () ensures rows == [] { rows := []; }

    /** Which refusal comes back, or what is inserted; a prefix that is no number is refused. */
    method Split(found: Option<Cidr>, prefix: Decimal.Number) returns (r: SplitResult)
      requires found.Some? ==> found.value.Valid()
      modifies this
      ensures r.BadPrefix? <==> !(prefix.Num? && 1 <= prefix.n <= 30)
      ensures r.NotFound? <==> !r.BadPrefix? && found.None?
      ensures r.NotLarger? <==> !r.BadPrefix? && !r.NotFound? && prefix.n <= found.value.bits
      ensures r.TooMany? <==> !r.BadPrefix? && !r.NotFound? && !r.NotLarger? && Pow2(prefix.n - found.value.bits) > 1024
      ensures !r.Done? ==> rows == old(rows)
      ensures r.Done? ==>
                var children := Children(found.value, prefix.n);
                && rows == old(rows) + Missing(children, old(rows))
                && r.created == |Missing(children, old(rows))|
                && r.created + r.skipped == |children|
    {
      hide Low, Pow2, Missing;
      if prefix.NaN? || prefix.n < 1 || prefix.n > 30 {
        return BadPrefix;
      }
      var newPrefix := prefix.n;
      if found.None? {
        return NotFound;
      }
      var parent := found.value;
      if newPrefix <= parent.bits {
        return NotLarger;
      }
      var count := Pow2(newPrefix - parent.bits);
      if count > 1024 {
        return TooMany;
      }
      var step := Pow2(32 - newPrefix);
      var inserted: seq<Cidr> := [];
      ghost var children := Children(parent, newPrefix);
      for g := 0 to count
        invariant rows == old(rows)
        invariant inserted + Missing(children[g..], rows) == Missing(children, rows)
        invariant |children| == count && forall n :: 0 <= n < count ==> children[n] == Child(parent, newPrefix, n)
      {
        var child := Cidr(parent.Base() + g * step, newPrefix);
        assert child == children[g];
        MissingStep(children, g, rows);
        if child !in rows {
          inserted := inserted + [child];
        }
      }
      MissingNone(children, rows);
      rows := rows + inserted;
      return Done(|inserted|, count - |inserted|);
    }
  }

  lemma MissingStep(candidates: seq<Cidr>, g: nat, table: seq<Cidr>)
    requires g < |candidates|
    ensures Missing(candidates[g..], table)
         == (if candidates[g] in table then [] else [candidates[g]]) + Missing(candidates[g + 1..], table)
  {
    assert candidates[g..][1..] == candidates[g + 1..];
  }

  lemma MissingNone(candidates: seq<Cidr>, table: seq<Cidr>)
    ensures Missing(candidates[|candidates|..], table) == [] && candidates[0..] == candidates
  {
  }

  /** After the split every child is in the table, and only absent children were added. */
  lemma {:induction false} MissingMembers(candidates: seq<Cidr>, table: seq<Cidr>, c: Cidr)
    ensures c in Missing(candidates, table) <==> c in candidates && c !in table
  {
    if candidates != [] {
      MissingMembers(candidates[1..], table, c);
      assert c in candidates <==> c == candidates[0] || c in candidates[1..];
    }
  }

  lemma {:induction false} LowOfCoarser(x: nat, k: nat, m: nat)
    requires k <= m && Low(x, m) == 0
    ensures Low(x, k) == 0
  {
    if k > 0 { LowOfCoarser(x / 2, k - 1, m - 1); }
  }

  lemma {:induction false} LowOfShifted(x: nat, n: nat, k: nat)
    ensures Low(x + Doubled(n, k), k) == Low(x, k)
  {
    if k > 0 {
      assert (x + Doubled(n, k)) / 2 == x / 2 + Doubled(n, k - 1) && (x + Doubled(n, k)) % 2 == x % 2;
      LowOfShifted(x / 2, n, k - 1);
    }
  }

  lemma {:induction false} Pow2Sum(a: nat, b: nat)
    ensures Pow2(a + b) == Pow2(a) * Pow2(b)
  {
    if a > 0 {
      Pow2Sum(a - 1, b);
      assert Pow2(a + b) == 2 * Pow2(a - 1 + b);
      assert 2 * (Pow2(a - 1) * Pow2(b)) == (2 * Pow2(a - 1)) * Pow2(b);
    }
  }

  lemma SlotBounds(n: nat, at: nat, step: nat)
    requires n < at
    ensures 0 <= n * step && n * step + step <= at * step
  {
    assert (n + 1) * step <= at * step;
  }

  lemma FewerSlots(at: nat, count: nat, step: nat)
    requires at * step < count * step
    ensures at < count
  {
  }

  lemma {:induction false} BlockCount(parent: Cidr, q: nat)
    requires parent.Valid() && parent.bits <= q <= 32
    ensures Pow2(q - parent.bits) * Pow2(32 - q) == parent.Size()
  {
    Pow2Sum(q - parent.bits, 32 - q);
  }

  lemma {:induction false} ChildAligned(parent: Cidr, q: nat, n: nat)
    requires parent.Valid() && parent.bits <= q <= 32
    ensures Low(Child(parent, q, n).net, 32 - q) == 0
  {
    hide Low, Pow2, Doubled;
    BlockFits(parent);
    LowOfCoarser(parent.Base(), 32 - q, 32 - parent.bits);
    DoubledIsTimes(n, 32 - q);
    LowOfShifted(parent.Base(), n, 32 - q);
  }

  /** Each child is a valid aligned block inside the parent. */
  lemma {:induction false} ChildInside(parent: Cidr, q: nat, n: nat)
    requires parent.Valid() && parent.bits <= q <= 32 && n < Pow2(q - parent.bits)
    ensures parent.Base() <= Child(parent, q, n).net
    ensures Child(parent, q, n).net + Pow2(32 - q) <= parent.Base() + parent.Size()
    ensures Child(parent, q, n).Valid() && Child(parent, q, n).Aligned()
  {
    hide Low, Pow2;
    BlockCount(parent, q);
    SlotBounds(n, Pow2(q - parent.bits), Pow2(32 - q));
    BlockFits(parent);
    ChildAligned(parent, q, n);
  }

  /** Of the slots [n*step, (n+1)*step) exactly number offset >> k holds the offset. */
  lemma {:induction false} SlotOf(offset: nat, k: nat, n: nat)
    ensures n * Pow2(k) <= offset < n * Pow2(k) + Pow2(k) <==> n == Halved(offset, k)
  {
    hide Low, Pow2, Doubled, Halved;
    var at := Halved(offset, k);
    ShiftBack(offset, k);
    DoubledIsTimes(at, k);
    if n < at {
      SlotBounds(n, at, Pow2(k));
    } else if n > at {
      SlotBounds(at, n, Pow2(k));
    }
  }

  /** The children partition the parent: every address of the parent is in exactly one. */
  lemma {:induction false} SplitPartitions(parent: Cidr, q: nat, ip: nat)
    requires parent.Valid() && parent.bits <= q <= 32 && parent.Has(ip)
    ensures forall n :: 0 <= n < |Children(parent, q)| ==> Children(parent, q)[n].Valid()
    ensures exists n :: 0 <= n < |Children(parent, q)| && Children(parent, q)[n].Has(ip)
    ensures forall m, n | 0 <= m < |Children(parent, q)| && 0 <= n < |Children(parent, q)| ::
              (Children(parent, q)[m].Has(ip) && Children(parent, q)[n].Has(ip) ==> m == n)
  {
    hide Low, Pow2, Halved;
    var k, count := 32 - q, Pow2(q - parent.bits);
    var offset := ip - parent.Base();
    var at := Halved(offset, k);
    BlockCount(parent, q);
    SlotOf(offset, k, at);
    FewerSlots(at, count, Pow2(k));
    forall n | 0 <= n < count
      ensures Child(parent, q, n).Valid() && (Child(parent, q, n).Has(ip) <==> n == at)
    {
      ChildInside(parent, q, n);
      SlotOf(offset, k, n);
    }
    assert Children(parent, q)[at].Has(ip);
  }

  // ---- overlap -----------------------------------------------------------------------------------

  /** PostgreSQL's `a <<= b` on inet: b's prefix is no longer and the network bits agree. */
  predicate ContainedBy(a: Cidr, b: Cidr)
    requires a.Valid() && b.Valid()
  {
    a.bits >= b.bits && a.net - Low(a.net, 32 - b.bits) == b.Base()
  }

  datatype SubnetRow = SubnetRow(id: nat, subnet: Cidr, vrf: Option<nat>)

  predicate Conflicts(subnet: Cidr, vrf: Option<nat>, exclude: Option<nat>, s: SubnetRow)
    requires subnet.Valid() && s.subnet.Valid()
  {
    (ContainedBy(subnet, s.subnet) || ContainedBy(s.subnet, subnet)) && s.vrf == vrf && exclude != Some(s.id)
  }

  function FindOverlap(rows: seq<SubnetRow>, subnet: Cidr, vrf: Option<nat>, exclude: Option<nat>): Option<SubnetRow>
    requires subnet.Valid() && forall k :: 0 <= k < |rows| ==> rows[k].subnet.Valid()
  {
    if rows == [] then None
    else if Conflicts(subnet, vrf, exclude, rows[0]) then Some(rows[0])
    else FindOverlap(rows[1..], subnet, vrf, exclude)
  }

  lemma {:induction false} AgreeCoarser(x: nat, y: nat, k: nat, m: nat)
    requires k <= m && x - Low(x, k) == y - Low(y, k)
    ensures x - Low(x, m) == y - Low(y, m)
  {
    hide Low, Pow2;
    if k > 0 {
      Halves(x, k, m);
      Halves(y, k, m);
      AgreeCoarser(x / 2, y / 2, k - 1, m - 1);
    } else {
      LowOfNone(x);
      LowOfNone(y);
    }
  }

  lemma LowOfNone(x: nat)
    ensures Low(x, 0) == 0
  {
  }

  /** Clearing low bits commutes with halving. */
  lemma Halves(x: nat, k: nat, m: nat)
    requires 0 < k <= m
    ensures x - Low(x, k) == 2 * (x / 2 - Low(x / 2, k - 1)) && x - Low(x, m) == 2 * (x / 2 - Low(x / 2, m - 1))
  {
  }

  lemma InOwnBlock(c: Cidr)
    requires c.Valid()
    ensures c.Has(c.net)
  {
  }

  lemma {:induction false} ContainedMeans(a: Cidr, b: Cidr)
    requires a.Valid() && b.Valid()
    ensures ContainedBy(a, b) <==> a.bits >= b.bits && b.Has(a.net)
  {
    SameBlockIffInInterval(a.net, b.net, 32 - b.bits);
  }

  lemma {:induction false} SharedMeansContained(a: Cidr, b: Cidr, ip: nat)
    requires a.Valid() && b.Valid() && a.Has(ip) && b.Has(ip) && a.bits >= b.bits
    ensures ContainedBy(a, b)
  {
    hide Low, Pow2;
    SameBlockIffInInterval(ip, a.net, 32 - a.bits);
    SameBlockIffInInterval(ip, b.net, 32 - b.bits);
    AgreeCoarser(ip, a.net, 32 - a.bits, 32 - b.bits);
  }

  /** Two blocks share an address exactly when one contains the other. */
  lemma {:induction false} ContainmentIsOverlap(a: Cidr, b: Cidr)
    requires a.Valid() && b.Valid()
    ensures ContainedBy(a, b) || ContainedBy(b, a) <==> exists ip: nat :: a.Has(ip) && b.Has(ip)
  {
    hide Low, Pow2;
    InOwnBlock(a);
    InOwnBlock(b);
    ContainedMeans(a, b);
    ContainedMeans(b, a);
    if ip: nat :| a.Has(ip) && b.Has(ip) {
      if a.bits >= b.bits {
        SharedMeansContained(a, b, ip);
      } else {
        SharedMeansContained(b, a, ip);
      }
    }
  }

  /** `findOverlap` reports nothing exactly when no other subnet of the VRF shares an address. */
  lemma {:induction false} NoOverlapIffDisjoint(rows: seq<SubnetRow>, subnet: Cidr, vrf: Option<nat>, exclude: Option<nat>)
    requires subnet.Valid() && forall k :: 0 <= k < |rows| ==> rows[k].subnet.Valid()
    ensures FindOverlap(rows, subnet, vrf, exclude).None?
        <==> forall k, ip: nat :: 0 <= k < |rows| && rows[k].vrf == vrf && exclude != Some(rows[k].id) && subnet.Has(ip)
               ==> !rows[k].subnet.Has(ip)
  {
    if rows != [] {
      ContainmentIsOverlap(subnet, rows[0].subnet);
      NoOverlapIffDisjoint(rows[1..], subnet, vrf, exclude);
      forall k | 0 <= k < |rows[1..]| ensures rows[1..][k] == rows[k + 1] {
      }
    }
  }
}
