/** The VPN restriction chain: a map from client address to allowed subnets, compiled into a
    first-match rule list that is flushed and rebuilt on every poll. */
module RestrictChain {
  import opened Ipv4

  datatype Rule = Accept(source: nat, dest: Cidr) | Drop(source: nat)
  datatype Packet = Packet(source: nat, dest: nat)
  datatype Verdict = Accepted | Dropped | FallsThrough

  /** One item of the restrictions dict, in its iteration order. */
  datatype Entry = Entry(ip: nat, subnets: seq<Cidr>)

  predicate WellFormed(restrictions: seq<Entry>) {
    && (forall i, j :: 0 <= i < j < |restrictions| ==> restrictions[i].ip != restrictions[j].ip)
    && (forall i, k :: 0 <= i < |restrictions| && 0 <= k < |restrictions[i].subnets| ==> restrictions[i].subnets[k].Valid())
  }

  predicate ValidRule(r: Rule) { r.Accept? ==> r.dest.Valid() }

  predicate ValidChain(chain: seq<Rule>) { forall k :: 0 <= k < |chain| ==> ValidRule(chain[k]) }

  predicate Matches(r: Rule, p: Packet)
    requires ValidRule(r)
  {
    r.source == p.source && (r.Accept? ==> r.dest.Has(p.dest))
  }

  /** iptables semantics: the first matching rule decides. */
  function FirstMatch(chain: seq<Rule>, p: Packet): Verdict
    requires ValidChain(chain)
  {
    if chain == [] then FallsThrough
    else if Matches(chain[0], p) then (if chain[0].Accept? then Accepted else Dropped)
    else FirstMatch(chain[1..], p)
  }

  // ---- the compiler ---------------------------------------------------------------------------

  function Accepts(ip: nat, subnets: seq<Cidr>): seq<Rule> {
    seq(|subnets|, k requires 0 <= k < |subnets| => Accept(ip, subnets[k]))
  }

  function RulesFor(e: Entry): seq<Rule> {
    if e.subnets == [] then [] else Accepts(e.ip, e.subnets) + [Drop(e.ip)]
  }

  function Compile(restrictions: seq<Entry>): seq<Rule> {
    if restrictions == [] then []
    else Compile(restrictions[..|restrictions| - 1]) + RulesFor(restrictions[|restrictions| - 1])
  }

  datatype ForwardRule = JumpToRestrict | OtherRule(id: nat)

  /** Which commands of a poll work; the agent ignores the failure of any (`check=False`). A check
      that fails reads as "not hooked in"; `append` tells of the k-th append. */
  datatype Commands = Commands(create: bool, check: bool, insert: bool, flush: bool, append: nat -> bool)

  ghost predicate AllWork(c: Commands) {
    c.create && c.check && c.insert && c.flush && forall k :: c.append(k)
  }

  /** The rules whose append worked; the first of them is number `from`. */
  function Live(rules: seq<Rule>, works: nat -> bool, from: nat): seq<Rule> {
    if rules == [] then []
    else (if works(from) then [rules[0]] else []) + Live(rules[1..], works, from + 1)
  }

  datatype State = State(present: bool, chain: seq<Rule>, forward: seq<ForwardRule>)

  function Hooked(forward: seq<ForwardRule>): seq<ForwardRule> {
    if JumpToRestrict in forward then forward else [JumpToRestrict] + forward
  }

  /** FORWARD after the check and the insert; without the chain neither can work. */
  function HookedBy(forward: seq<ForwardRule>, present: bool, c: Commands): seq<ForwardRule> {
    if !present || !c.insert || (c.check && JumpToRestrict in forward) then forward else [JumpToRestrict] + forward
  }

  /** The chain after the flush and the appends; without the chain none can work. */
  function Rebuilt(present: bool, chain: seq<Rule>, rules: seq<Rule>, c: Commands): seq<Rule> {
    if !present then chain else (if c.flush then [] else chain) + Live(rules, c.append, 0)
  }

  function Poll(s: State, restrictions: seq<Entry>, c: Commands): State {
    var present := s.present || c.create;
    State(present, Rebuilt(present, s.chain, Compile(restrictions), c), HookedBy(s.forward, present, c))
  }

  class Firewall {
    var chainExists: bool
    var chain: seq<Rule>
    var forward: seq<ForwardRule>

    ghost predicate Valid() reads this { !chainExists ==> chain == [] }

    ghost function Now(): State reads this { State(chainExists, chain, forward) }

    constructor (rules: seq<ForwardRule>)
      ensures Valid() && Now() == State(false, [], rules)
    {
      chainExists, chain, forward := false, [], rules;
    }

    /** Creates the chain if needed and hooks it in front of FORWARD unless it is hooked in already. */
    method EnsureRestrictChain(c: Commands)
      requires Valid()
      modifies this
      ensures Valid() && chainExists == (old(chainExists) || c.create) && chain == old(chain)
      ensures forward == HookedBy(old(forward), chainExists, c)
      ensures AllWork(c) ==> chainExists && forward == Hooked(old(forward))
    {
      if c.create {
        chainExists := true;
      }
      var hooked := chainExists && c.check && JumpToRestrict in forward;
      if !hooked && chainExists && c.insert {
        forward := [JumpToRestrict] + forward;
      }
    }

    /** `built` records the live chain after the flush and after every append command. */
    method ApplyClientRestrictions(restrictions: seq<Entry>, c: Commands) returns (ghost built: seq<seq<Rule>>)
      requires Valid()
      modifies this
      ensures Valid() && Now() == Poll(old(Now()), restrictions, c)
      ensures AllWork(c) ==> Now() == State(true, Compile(restrictions), Hooked(old(forward)))
      ensures AllStages(built, chainExists, old(chain), Compile(restrictions), c)
    {
      EnsureRestrictChain(c);
      if chainExists && c.flush {
        chain := [];
      }
      ghost var present, was := chainExists, old(chain);
      assert Rebuilt(present, was, [], c) == chain;
      built := [chain];
      var issued := 0;
      for i := 0 to |restrictions|
        invariant Valid() && chainExists == present && forward == HookedBy(old(forward), present, c)
        invariant issued == |Compile(restrictions[..i])| && chain == Rebuilt(present, was, Compile(restrictions[..i]), c)
        invariant AllStages(built, present, was, Compile(restrictions[..i]), c)
      {
        assert restrictions[..i + 1][..i] == restrictions[..i];
        issued, built := ApplyEntry(restrictions[i], issued, c, was, Compile(restrictions[..i]), built);
      }
      assert restrictions[..|restrictions|] == restrictions;
      if AllWork(c) {
        LiveAll(Compile(restrictions), c.append, 0);
      }
    }

    /** The commands for one client: its allowed subnets, then the drop. */
    method ApplyEntry(e: Entry, first: nat, c: Commands, ghost was: seq<Rule>, ghost done: seq<Rule>, ghost before: seq<seq<Rule>>)
      returns (issued: nat, ghost built: seq<seq<Rule>>)
      requires Valid() && first == |done| && chain == Rebuilt(chainExists, was, done, c)
      requires AllStages(before, chainExists, was, done, c)
      modifies this`chain
      ensures Valid() && issued == first + |RulesFor(e)| && chain == Rebuilt(chainExists, was, done + RulesFor(e), c)
      ensures AllStages(built, chainExists, was, done + RulesFor(e), c)
    {
      hide AllStages, Rebuilt;
      built := before;
      issued := first;
      assert done + [] == done;
      if |e.subnets| == 0 {
        return;
      }
      for k := 0 to |e.subnets|
        invariant Valid() && issued == first + k && chain == Rebuilt(chainExists, was, done + Accepts(e.ip, e.subnets)[..k], c)
        invariant AllStages(built, chainExists, was, done + Accepts(e.ip, e.subnets)[..k], c)
      {
        ghost var so := done + Accepts(e.ip, e.subnets)[..k];
        built := Append(Accept(e.ip, e.subnets[k]), issued, c, was, so, built);
        issued := issued + 1;
        assert so + [Accept(e.ip, e.subnets[k])] == done + Accepts(e.ip, e.subnets)[..k + 1];
      }
      ghost var all := done + Accepts(e.ip, e.subnets);
      assert Accepts(e.ip, e.subnets)[..|e.subnets|] == Accepts(e.ip, e.subnets);
      built := Append(Drop(e.ip), issued, c, was, all, built);
      issued := issued + 1;
      assert all + [Drop(e.ip)] == done + RulesFor(e);
    }

    method Append(r: Rule, k: nat, c: Commands, ghost was: seq<Rule>, ghost done: seq<Rule>, ghost before: seq<seq<Rule>>)
      returns (ghost built: seq<seq<Rule>>)
      requires Valid() && k == |done| && chain == Rebuilt(chainExists, was, done, c)
      requires AllStages(before, chainExists, was, done, c)
      modifies this`chain
      ensures Valid() && chain == Rebuilt(chainExists, was, done + [r], c)
      ensures AllStages(built, chainExists, was, done + [r], c)
    {
      LiveConcat(done, [r], c.append, 0);
      if chainExists && c.append(k) {
        chain := chain + [r];
      }
      built := before + [chain];
      assert (done + [r])[..|done| + 1] == done + [r];
      assert forall j :: 0 <= j <= |done| ==> (done + [r])[..j] == done[..j];
    }
  }

  /** `built` holds the chain after each number of append commands. */
  ghost predicate AllStages(built: seq<seq<Rule>>, present: bool, was: seq<Rule>, rules: seq<Rule>, c: Commands) {
    && |built| == |rules| + 1
    && forall k :: 0 <= k < |built| ==> built[k] == Rebuilt(present, was, rules[..k], c)
  }

  lemma {:induction false} LiveConcat(a: seq<Rule>, b: seq<Rule>, works: nat -> bool, from: nat)
    ensures Live(a + b, works, from) == Live(a, works, from) + Live(b, works, from + |a|)
    decreases |a|
  {
    if a == [] {
      assert a + b == b;
    } else {
      LiveConcat(a[1..], b, works, from + 1);
      assert (a + b)[1..] == a[1..] + b;
      var first := if works(from) then [a[0]] else [];
      assert Live(a + b, works, from) == first + (Live(a[1..], works, from + 1) + Live(b, works, from + |a|));
      Regrouped(first, Live(a[1..], works, from + 1), Live(b, works, from + |a|));
    }
  }

  lemma Regrouped(a: seq<Rule>, b: seq<Rule>, c: seq<Rule>)
    ensures a + (b + c) == (a + b) + c
  {
  }

  lemma {:induction false} LiveAll(rules: seq<Rule>, works: nat -> bool, from: nat)
    requires forall k :: works(k)
    ensures Live(rules, works, from) == rules
    decreases |rules|
  {
    if rules != [] { LiveAll(rules[1..], works, from + 1); }
  }

  // ---- the chain means the map --------------------------------------------------------------------

  lemma {:induction false} FirstMatchConcat(a: seq<Rule>, b: seq<Rule>, p: Packet)
    requires ValidChain(a) && ValidChain(b)
    ensures ValidChain(a + b)
    ensures FirstMatch(a + b, p) == if FirstMatch(a, p) == FallsThrough then FirstMatch(b, p) else FirstMatch(a, p)
  {
    if a == [] {
      assert a + b == b;
    } else {
      FirstMatchConcat(a[1..], b, p);
      assert (a + b)[1..] == a[1..] + b;
    }
  }

  predicate InSome(subnets: seq<Cidr>, dest: nat)
    requires forall k :: 0 <= k < |subnets| ==> subnets[k].Valid()
  {
    exists k :: 0 <= k < |subnets| && subnets[k].Has(dest)
  }

  lemma {:induction false} AcceptsMatch(ip: nat, subnets: seq<Cidr>, p: Packet)
    requires forall k :: 0 <= k < |subnets| ==> subnets[k].Valid()
    ensures ValidChain(Accepts(ip, subnets))
    ensures FirstMatch(Accepts(ip, subnets), p) == if ip == p.source && InSome(subnets, p.dest) then Accepted else FallsThrough
  {
    if subnets != [] {
      AcceptsMatch(ip, subnets[1..], p);
      assert Accepts(ip, subnets)[1..] == Accepts(ip, subnets[1..]);
      assert InSome(subnets, p.dest) <==> subnets[0].Has(p.dest) || InSome(subnets[1..], p.dest) by {
        if k :| 0 <= k < |subnets[1..]| && subnets[1..][k].Has(p.dest) {
          assert subnets[k + 1].Has(p.dest);
        }
        if k :| 0 <= k < |subnets| && subnets[k].Has(p.dest) {
          assert k > 0 ==> subnets[1..][k - 1].Has(p.dest);
        }
      }
    }
  }

  /** What one item of the map says about a packet. */
  function Says(e: Entry, p: Packet): Verdict
    requires forall k :: 0 <= k < |e.subnets| ==> e.subnets[k].Valid()
  {
    if e.ip != p.source || e.subnets == [] then FallsThrough
    else if InSome(e.subnets, p.dest) then Accepted else Dropped
  }

  lemma {:induction false} EntryMatch(e: Entry, p: Packet)
    requires forall k :: 0 <= k < |e.subnets| ==> e.subnets[k].Valid()
    ensures ValidChain(RulesFor(e)) && FirstMatch(RulesFor(e), p) == Says(e, p)
  {
    if e.subnets != [] {
      AcceptsMatch(e.ip, e.subnets, p);
      assert [Drop(e.ip)][1..] == [];
      FirstMatchConcat(Accepts(e.ip, e.subnets), [Drop(e.ip)], p);
    }
  }

  /** For every packet the compiled chain does what the restriction map says: a source with a
      non-empty list is accepted exactly for destinations in one of its subnets and dropped
      otherwise; every other source falls through. */
  lemma {:induction false} ChainMeansMap(restrictions: seq<Entry>, p: Packet)
    requires WellFormed(restrictions)
    ensures ValidChain(Compile(restrictions))
    ensures forall i :: 0 <= i < |restrictions| && restrictions[i].ip == p.source ==>
              FirstMatch(Compile(restrictions), p) == Says(restrictions[i], p)
    ensures (forall i :: 0 <= i < |restrictions| ==> restrictions[i].ip != p.source)
            ==> FirstMatch(Compile(restrictions), p) == FallsThrough
  {
    hide RulesFor, FirstMatch, InSome;
    if restrictions != [] {
      var n := |restrictions| - 1;
      var before := restrictions[..n];
      ChainMeansMap(before, p);
      EntryMatch(restrictions[n], p);
      FirstMatchConcat(Compile(before), RulesFor(restrictions[n]), p);
      forall i | 0 <= i < n ensures before[i] == restrictions[i] {
      }
    } else {
      NoRules(p);
    }
  }

  lemma NoRules(p: Packet)
    ensures FirstMatch([], p) == FallsThrough
  {
  }

  // ---- while it is being rebuilt ---------------------------------------------------------------------

  lemma {:induction false} FallsThroughIff(chain: seq<Rule>, p: Packet)
    requires ValidChain(chain)
    ensures FirstMatch(chain, p) == FallsThrough <==> forall j :: 0 <= j < |chain| ==> !Matches(chain[j], p)
  {
    if chain != [] && !Matches(chain[0], p) {
      FallsThroughIff(chain[1..], p);
      assert forall j :: 1 <= j < |chain| ==> chain[j] == chain[1..][j - 1];
    }
  }

  /** A partly built chain agrees with the full one wherever it decides at all. So it never drops
      a packet the full chain passes, and it lets a packet through that the full chain drops
      exactly when none of its own rules matches yet. */
  lemma {:induction false} PartialChainNeverDropsMore(restrictions: seq<Entry>, k: nat, p: Packet)
    requires WellFormed(restrictions) && k <= |Compile(restrictions)|
    ensures ValidChain(Compile(restrictions)) && ValidChain(Compile(restrictions)[..k])
    ensures var full, part := FirstMatch(Compile(restrictions), p), FirstMatch(Compile(restrictions)[..k], p);
            && (part == full || part == FallsThrough)
            && (full != Dropped ==> part != Dropped)
            && (part == FallsThrough <==> forall j :: 0 <= j < k ==> !Matches(Compile(restrictions)[j], p))
  {
    ChainMeansMap(restrictions, p);
    var chain := Compile(restrictions);
    FallsThroughIff(chain[..k], p);
    assert chain == chain[..k] + chain[k..];
    FirstMatchConcat(chain[..k], chain[k..], p);
  }

  lemma {:induction false} NoRuleFor(restrictions: seq<Entry>, ip: nat)
    requires forall i :: 0 <= i < |restrictions| ==> restrictions[i].ip != ip
    ensures forall m :: 0 <= m < |Compile(restrictions)| ==> Compile(restrictions)[m].source != ip
  {
    if restrictions != [] {
      NoRuleFor(restrictions[..|restrictions| - 1], ip);
    }
  }

  /** The rules `own` stand together from `start` on, and no other rule is about the client. */
  ghost predicate StandsAt(chain: seq<Rule>, start: nat, own: seq<Rule>, ip: nat) {
    && start + |own| <= |chain|
    && (forall j :: 0 <= j < |own| ==> chain[start + j] == own[j])
    && (forall m :: 0 <= m < start ==> chain[m].source != ip)
    && (forall m :: start + |own| <= m < |chain| ==> chain[m].source != ip)
  }

  lemma StandsLonger(chain: seq<Rule>, start: nat, own: seq<Rule>, ip: nat, more: seq<Rule>)
    requires StandsAt(chain, start, own, ip) && forall m :: 0 <= m < |more| ==> more[m].source != ip
    ensures StandsAt(chain + more, start, own, ip)
  {
    assert forall m :: |chain| <= m < |chain + more| ==> (chain + more)[m] == more[m - |chain|];
  }

  lemma StandsLast(chain: seq<Rule>, own: seq<Rule>, ip: nat)
    requires forall m :: 0 <= m < |chain| ==> chain[m].source != ip
    ensures StandsAt(chain + own, |chain|, own, ip)
  {
  }

  lemma RulesSource(e: Entry)
    ensures forall m :: 0 <= m < |RulesFor(e)| ==> RulesFor(e)[m].source == e.ip
  {
  }

  ghost predicate DistinctClients(restrictions: seq<Entry>) {
    forall i, j :: 0 <= i < j < |restrictions| ==> restrictions[i].ip != restrictions[j].ip
  }

  lemma {:induction false} RulePlaces(restrictions: seq<Entry>, i: nat)
    requires DistinctClients(restrictions) && i < |restrictions|
    ensures StandsAt(Compile(restrictions), |Compile(restrictions[..i])|, RulesFor(restrictions[i]), restrictions[i].ip)
  {
    hide StandsAt, RulesFor;
    var n := |restrictions| - 1;
    var before, last := restrictions[..n], restrictions[n];
    if i == n {
      NoRuleFor(before, last.ip);
      StandsLast(Compile(before), RulesFor(last), last.ip);
    } else {
      RulePlaces(before, i);
      assert before[..i] == restrictions[..i] && before[i] == restrictions[i];
      RulesSource(last);
      StandsLonger(Compile(before), |Compile(restrictions[..i])|, RulesFor(restrictions[i]), restrictions[i].ip, RulesFor(last));
    }
  }

  /** Which rules of the chain match a packet of client `e`. */
  lemma {:induction false} OwnMatches(chain: seq<Rule>, start: nat, e: Entry, p: Packet)
    requires ValidChain(chain) && e.subnets != [] && p.source == e.ip && StandsAt(chain, start, RulesFor(e), e.ip)
    requires forall k :: 0 <= k < |e.subnets| ==> e.subnets[k].Valid()
    ensures start + |e.subnets| < |chain|
    ensures forall m :: start <= m <= start + |e.subnets| ==> (chain[m].Accept? <==> m < start + |e.subnets|)
    ensures forall m :: 0 <= m < |chain| ==>
              (Matches(chain[m], p) <==>
                 start <= m <= start + |e.subnets| && (m < start + |e.subnets| ==> e.subnets[m - start].Has(p.dest)))
  {
    var own := RulesFor(e);
    assert |own| == |e.subnets| + 1;
    forall m | start <= m <= start + |e.subnets|
      ensures chain[m] == if m < start + |e.subnets| then Accept(e.ip, e.subnets[m - start]) else Drop(e.ip)
    {
      assert chain[start + (m - start)] == own[m - start];
    }
  }

  // ---- when commands fail -----------------------------------------------------------------------------

  /** Rule j stands and matches. */
  predicate Hits(chain: seq<Rule>, works: nat -> bool, from: nat, p: Packet, j: nat)
    requires ValidChain(chain) && j < |chain|
  {
    works(from + j) && Matches(chain[j], p)
  }

  /** The first matching rule whose append worked decides. */
  lemma {:induction false} LiveFirst(chain: seq<Rule>, works: nat -> bool, from: nat, p: Packet) returns (m: nat)
    requires ValidChain(chain)
    ensures ValidChain(Live(chain, works, from))
    ensures match FirstMatch(Live(chain, works, from), p)
            case FallsThrough => m == |chain|
            case Accepted => m < |chain| && Hits(chain, works, from, p, m) && chain[m].Accept?
            case Dropped => m < |chain| && Hits(chain, works, from, p, m) && chain[m].Drop?
    ensures m <= |chain| && forall j :: 0 <= j < m ==> !Hits(chain, works, from, p, j)
    decreases |chain|
  {
    m := 0;
    if chain != [] {
      var later := LiveFirst(chain[1..], works, from + 1, p);
      var head := if works(from) then [chain[0]] else [];
      assert Live(chain, works, from)[|head|..] == Live(chain[1..], works, from + 1);
      if !Hits(chain, works, from, p, 0) {
        m := later + 1;
        LaterHits(chain, works, from, p);
      }
    }
  }

  lemma LaterHits(chain: seq<Rule>, works: nat -> bool, from: nat, p: Packet)
    requires ValidChain(chain) && chain != []
    ensures forall j :: 1 <= j < |chain| ==> (Hits(chain, works, from, p, j) <==> Hits(chain[1..], works, from + 1, p, j - 1))
  {
  }

  /** Among the accepts issued so far, from rule number `start` on, one stands for the destination. */
  ghost predicate AcceptStands(subnets: seq<Cidr>, start: nat, k: nat, works: nat -> bool, dest: nat)
    requires forall j :: 0 <= j < |subnets| ==> subnets[j].Valid()
  {
    exists j :: 0 <= j < |subnets| && start + j < k && works(start + j) && subnets[j].Has(dest)
  }

  /** Which of the first k rules a packet of client `e` hits. */
  lemma {:induction false} OwnHits(chain: seq<Rule>, start: nat, e: Entry, k: nat, works: nat -> bool, p: Packet)
    requires ValidChain(chain) && e.subnets != [] && p.source == e.ip && StandsAt(chain, start, RulesFor(e), e.ip)
    requires k <= |chain| && forall j :: 0 <= j < |e.subnets| ==> e.subnets[j].Valid()
    ensures start + |e.subnets| < k ==> (Hits(chain[..k], works, 0, p, start + |e.subnets|) <==> works(start + |e.subnets|))
    ensures AcceptStands(e.subnets, start, k, works, p.dest) ==>
              exists m :: 0 <= m < k && m < start + |e.subnets| && Hits(chain[..k], works, 0, p, m)
    ensures forall m :: 0 <= m < k && Hits(chain[..k], works, 0, p, m) ==>
              && m <= start + |e.subnets| && (chain[m].Accept? <==> m < start + |e.subnets|)
              && (m < start + |e.subnets| ==> AcceptStands(e.subnets, start, k, works, p.dest))
  {
    hide StandsAt, RulesFor, Matches, Hits, AcceptStands;
    HitsOfPrefix(chain, k, works, p);
    OwnMatches(chain, start, e, p);
    StandingAccept(e.subnets, start, k, works, p.dest);
  }

  lemma HitsOfPrefix(chain: seq<Rule>, k: nat, works: nat -> bool, p: Packet)
    requires ValidChain(chain) && k <= |chain|
    ensures forall m :: 0 <= m < k ==> (Hits(chain[..k], works, 0, p, m) <==> works(m) && Matches(chain[m], p))
  {
  }

  /** An accept that stands, by its number in the whole chain. */
  lemma StandingAccept(subnets: seq<Cidr>, start: nat, k: nat, works: nat -> bool, dest: nat)
    requires forall j :: 0 <= j < |subnets| ==> subnets[j].Valid()
    ensures AcceptStands(subnets, start, k, works, dest)
        <==> exists m :: start <= m < k && m < start + |subnets| && works(m) && subnets[m - start].Has(dest)
  {
    if m :| start <= m < k && m < start + |subnets| && works(m) && subnets[m - start].Has(dest) {
      var j := m - start;
      assert works(start + j) && subnets[j].Has(dest);
    }
    if j :| 0 <= j < |subnets| && start + j < k && works(start + j) && subnets[j].Has(dest) {
      assert works(start + j) && subnets[start + j - start].Has(dest);
    }
  }

  lemma {:induction false} CompiledIsValid(restrictions: seq<Entry>)
    requires WellFormed(restrictions)
    ensures ValidChain(Compile(restrictions))
  {
    ChainMeansMap(restrictions, Packet(0, 0));
  }

  /** The verdict of every stage of every rebuild, whatever commands failed, on every packet of a
      restricted client: accepted if some issued rule that stands allows the destination; otherwise
      dropped if the client's last rule was issued and stands; otherwise passed on. */
  lemma {:induction false} LiveVerdict(restrictions: seq<Entry>, i: nat, k: nat, works: nat -> bool, p: Packet)
    requires WellFormed(restrictions) && i < |restrictions| && restrictions[i].subnets != []
    requires k <= |Compile(restrictions)| && p.source == restrictions[i].ip
    ensures ValidChain(Live(Compile(restrictions)[..k], works, 0))
    ensures var start, subnets := |Compile(restrictions[..i])|, restrictions[i].subnets;
            FirstMatch(Live(Compile(restrictions)[..k], works, 0), p)
            == if AcceptStands(subnets, start, k, works, p.dest) then Accepted
               else if start + |subnets| < k && works(start + |subnets|) then Dropped else FallsThrough
  {
    hide FirstMatch, Compile, RulesFor, Matches, StandsAt, Live, Hits, AcceptStands;
    var chain, start, subnets := Compile(restrictions), |Compile(restrictions[..i])|, restrictions[i].subnets;
    CompiledIsValid(restrictions);
    RulePlaces(restrictions, i);
    OwnHits(chain, start, restrictions[i], k, works, p);
    var m := LiveFirst(chain[..k], works, 0, p);
  }

  /** What failed commands cost once all are issued on a flushed chain: nothing beyond the map is
      ever accepted; what the map drops falls through exactly when the client's drop failed; what
      it accepts is dropped exactly when all its accepts of the destination failed and the drop
      did not. */
  lemma {:induction false} FailedCommands(restrictions: seq<Entry>, i: nat, works: nat -> bool, p: Packet)
    requires WellFormed(restrictions) && i < |restrictions| && restrictions[i].subnets != [] && p.source == restrictions[i].ip
    ensures ValidChain(Compile(restrictions)) && ValidChain(Live(Compile(restrictions), works, 0))
    ensures var start, subnets := |Compile(restrictions[..i])|, restrictions[i].subnets;
            var meant, got := FirstMatch(Compile(restrictions), p), FirstMatch(Live(Compile(restrictions), works, 0), p);
            && (got == Accepted ==> meant == Accepted)
            && (meant == Dropped ==> got == if works(start + |subnets|) then Dropped else FallsThrough)
            && (meant == Accepted ==>
                  (got == Dropped <==> works(start + |subnets|)
                                       && forall j :: 0 <= j < |subnets| && subnets[j].Has(p.dest) ==> !works(start + j)))
  {
    hide FirstMatch, Compile, RulesFor, Live, StandsAt;
    var chain, start, subnets := Compile(restrictions), |Compile(restrictions[..i])|, restrictions[i].subnets;
    assert chain[..|chain|] == chain;
    ChainMeansMap(restrictions, p);
    RulePlaces(restrictions, i);
    OwnMatches(chain, start, restrictions[i], p);
    LiveVerdict(restrictions, i, |chain|, works, p);
  }

  /** After a failed flush the rules already there decide first, whatever the new map says. */
  lemma {:induction false} FailedFlush(was: seq<Rule>, restrictions: seq<Entry>, c: Commands, p: Packet)
    requires WellFormed(restrictions) && ValidChain(was) && !c.flush
    ensures ValidChain(Rebuilt(true, was, Compile(restrictions), c)) && ValidChain(Live(Compile(restrictions), c.append, 0))
    ensures FirstMatch(Rebuilt(true, was, Compile(restrictions), c), p)
         == if FirstMatch(was, p) != FallsThrough then FirstMatch(was, p) else FirstMatch(Live(Compile(restrictions), c.append, 0), p)
  {
    ChainMeansMap(restrictions, p);
    var m := LiveFirst(Compile(restrictions), c.append, 0, p);
    FirstMatchConcat(was, Live(Compile(restrictions), c.append, 0), p);
  }

  /** When every command works: a partly built chain accepts as soon as one of the first rules
      allows the destination, drops only once the client's last rule stands and none does, and
      passes on until then. */
  lemma {:induction false} PartialVerdict(restrictions: seq<Entry>, i: nat, k: nat, p: Packet)
    requires WellFormed(restrictions) && i < |restrictions| && restrictions[i].subnets != []
    requires k <= |Compile(restrictions)| && p.source == restrictions[i].ip
    ensures ValidChain(Compile(restrictions)[..k])
    ensures var start, subnets := |Compile(restrictions[..i])|, restrictions[i].subnets;
            match FirstMatch(Compile(restrictions)[..k], p)
            case Accepted => exists j :: 0 <= j < |subnets| && start + j < k && subnets[j].Has(p.dest)
            case Dropped => !InSome(subnets, p.dest) && k > start + |subnets|
            case FallsThrough => k <= start + |subnets| && forall j :: 0 <= j < |subnets| && start + j < k ==> !subnets[j].Has(p.dest)
  {
    hide FirstMatch, Compile, Live;
    LiveAll(Compile(restrictions)[..k], _ => true, 0);
    LiveVerdict(restrictions, i, k, _ => true, p);
  }

  // ---- over many polls -----------------------------------------------------------------------------------

  datatype Round = Round(restrictions: seq<Entry>, commands: Commands)

  function Polls(s: State, rounds: seq<Round>): State {
    if rounds == [] then s
    else Poll(Polls(s, rounds[..|rounds| - 1]), rounds[|rounds| - 1].restrictions, rounds[|rounds| - 1].commands)
  }

  function Jumps(forward: seq<ForwardRule>): nat {
    if forward == [] then 0 else (if forward[0] == JumpToRestrict then 1 else 0) + Jumps(forward[1..])
  }

  lemma {:induction false} NoJumpNoCount(forward: seq<ForwardRule>)
    ensures Jumps(forward) == 0 <==> JumpToRestrict !in forward
  {
    if forward != [] { NoJumpNoCount(forward[1..]); }
  }

  /** However many polls ran with whatever failures, a working flush makes the chain a function of
      the last map and the last poll's failures only. If all commands work the chain is the
      compiled map and FORWARD has gained at most one jump, with all of its own rules in order. */
  lemma {:induction false} OnlyTheLastMapCounts(s: State, rounds: seq<Round>)
    requires rounds != []
    ensures var last := rounds[|rounds| - 1];
            last.commands.flush && Polls(s, rounds).present ==>
              Polls(s, rounds).chain == Live(Compile(last.restrictions), last.commands.append, 0)
    ensures (forall k :: 0 <= k < |rounds| ==> AllWork(rounds[k].commands)) ==>
              && Polls(s, rounds) == State(true, Compile(rounds[|rounds| - 1].restrictions), Hooked(s.forward))
              && (JumpToRestrict !in s.forward ==> Jumps(Polls(s, rounds).forward) == 1)
              && (JumpToRestrict in s.forward ==> Polls(s, rounds).forward == s.forward)
  {
    NoJumpNoCount(s.forward);
    var last := rounds[|rounds| - 1];
    if AllWork(last.commands) {
      LiveAll(Compile(last.restrictions), last.commands.append, 0);
    }
    if |rounds| > 1 {
      OnlyTheLastMapCounts(s, rounds[..|rounds| - 1]);
    }
  }

  /** Without the chain a poll changes nothing, and without a working insert FORWARD stays; an
      insert works again, jump or no jump, whenever the check fails. */
  lemma {:induction false} WhatFailedSetupLeaves(s: State, restrictions: seq<Entry>, c: Commands)
    ensures !s.present && !c.create ==> Poll(s, restrictions, c) == s
    ensures !c.insert ==> Poll(s, restrictions, c).forward == s.forward
    ensures (s.present || c.create) && c.insert && !c.check ==> Poll(s, restrictions, c).forward == [JumpToRestrict] + s.forward
  {
  }

  // ---- where the jump stands ---------------------------------------------------------------------

  /** FORWARD in order: the jump asks the chain, any other rule decides or passes on by itself. */
  function Forwarding(forward: seq<ForwardRule>, chain: Verdict, others: nat -> Verdict): Verdict {
    if forward == [] then FallsThrough
    else
      var v := if forward[0].JumpToRestrict? then chain else others(forward[0].id);
      if v != FallsThrough then v else Forwarding(forward[1..], chain, others)
  }

  lemma {:induction false} ForwardingConcat(a: seq<ForwardRule>, b: seq<ForwardRule>, chain: Verdict, others: nat -> Verdict)
    ensures Forwarding(a + b, chain, others)
         == if Forwarding(a, chain, others) != FallsThrough then Forwarding(a, chain, others) else Forwarding(b, chain, others)
  {
    if a == [] {
      assert a + b == b;
    } else {
      ForwardingConcat(a[1..], b, chain, others);
      assert (a + b)[1..] == a[1..] + b;
    }
  }

  /** After working commands the chain decides before every rule that FORWARD held, if it was not
      hooked in yet; if it was, it decides exactly for what the rules in front of its jump pass on. */
  lemma {:induction false} WhereTheJumpDecides(
    front: seq<ForwardRule>, back: seq<ForwardRule>, c: Commands, chain: Verdict, others: nat -> Verdict)
    requires AllWork(c) && JumpToRestrict !in front && chain != FallsThrough
    ensures Forwarding(HookedBy(front, true, c), chain, others) == chain
    ensures Forwarding(HookedBy(front + [JumpToRestrict] + back, true, c), chain, others)
         == if Forwarding(front, chain, others) != FallsThrough then Forwarding(front, chain, others) else chain
  {
    assert JumpToRestrict in front + [JumpToRestrict] + back;
    ForwardingConcat(front, [JumpToRestrict] + back, chain, others);
    assert front + [JumpToRestrict] + back == front + ([JumpToRestrict] + back);
  }
}
