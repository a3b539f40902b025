/** Upstream resolvers: the client memo keyed by the joined settings, and failover. */
module Upstream {
  import opened Wrappers
  import opened Text

  /** Resolver addresses as configured. */
  datatype Settings = Settings(ipv4: seq<string>, ipv6: seq<string>)
  datatype Client = Client(dns: string)

  const COMMA := ","
  const BAR := "|"

  function Key(s: Settings): string { Join(s.ipv4, COMMA) + BAR + Join(s.ipv6, COMMA) }

  function Build(addresses: seq<string>): seq<Client> {
    seq(|addresses|, k requires 0 <= k < |addresses| => Client(addresses[k]))
  }

  /** What splitting a comma-separated setting yields: entries without comma, none empty. */
  predicate Entries(addresses: seq<string>) {
    forall k :: 0 <= k < |addresses| ==> addresses[k] != "" && ',' !in addresses[k]
  }

  /** Parsed, and no bar in an IPv4 entry. */
  predicate WellFormed(s: Settings) {
    Parsed(s) && forall k :: 0 <= k < |s.ipv4| ==> '|' !in s.ipv4[k]
  }

  predicate Parsed(s: Settings) { Entries(s.ipv4) && Entries(s.ipv6) }

  lemma {:induction false} JoinInjective(a: seq<string>, b: seq<string>)
    requires Entries(a) && Entries(b) && Join(a, COMMA) == Join(b, COMMA)
    ensures a == b
  {
    if a != [] && b != [] {
      SplitOfJoin(a, ',');
      SplitOfJoin(b, ',');
      assert COMMA == [','];
    } else if a != [] {
      JoinNotEmpty(a);
    } else if b != [] {
      JoinNotEmpty(b);
    }
  }

  lemma JoinNotEmpty(a: seq<string>)
    requires a != [] && a[0] != ""
    ensures Join(a, COMMA) != ""
  {
  }

  /** The text between commas: a list of entries, none empty; empty text is the empty list. */
  function Unjoin(text: string): seq<string> { if text == "" then [] else Split(text, ',') }

  predicate Listable(text: string) {
    forall k :: 0 <= k < |Unjoin(text)| ==> Unjoin(text)[k] != ""
  }

  lemma {:induction false} UnjoinJoins(text: string)
    requires Listable(text)
    ensures Entries(Unjoin(text)) && Join(Unjoin(text), COMMA) == text
  {
    if text != "" {
      JoinOfSplit(text, ',');
      SplitPartsClean(text, ',');
      assert COMMA == [','];
    }
  }

  lemma {:induction false} JoinedIsListable(a: seq<string>)
    requires Entries(a)
    ensures Unjoin(Join(a, COMMA)) == a && Listable(Join(a, COMMA))
  {
    if a != [] {
      JoinNotEmpty(a);
      SplitOfJoin(a, ',');
      assert COMMA == [','];
    }
  }

  /** The key can be cut at a bar other than the one that separates the two lists, with a list
      of entries on either side. */
  predicate Ambiguous(s: Settings) {
    exists c :: 0 <= c < |Key(s)| && IsOtherCut(s, c)
  }

  predicate IsOtherCut(s: Settings, c: nat)
    requires c < |Key(s)|
  {
    Key(s)[c] == '|' && c != |Join(s.ipv4, COMMA)| && Listable(Key(s)[..c]) && Listable(Key(s)[c + 1..])
  }

  /** Parsed settings share their key with other parsed settings exactly when it is ambiguous. */
  lemma {:induction false} SharesKeyIff(s: Settings)
    requires Parsed(s)
    ensures (exists t :: Parsed(t) && t != s && Key(t) == Key(s)) <==> Ambiguous(s)
  {
    var key := Key(s);
    if t :| Parsed(t) && t != s && Key(t) == key {
      SameKeyCut(s, t);
    }
    if c :| 0 <= c < |key| && IsOtherCut(s, c) {
      var t := OtherCut(s, c);
      assert Parsed(t) && t != s && Key(t) == Key(s);
    }
  }

  /** The settings on either side of another cut. */
  lemma {:induction false} OtherCut(s: Settings, c: nat) returns (t: Settings)
    requires c < |Key(s)| && IsOtherCut(s, c)
    ensures Parsed(t) && t != s && Key(t) == Key(s)
  {
    hide Unjoin, Join;
    var left, right := Key(s)[..c], Key(s)[c + 1..];
    UnjoinJoins(left);
    UnjoinJoins(right);
    t := Settings(Unjoin(left), Unjoin(right));
    assert Key(t) == left + BAR + right == Key(s);
    assert |Join(t.ipv4, COMMA)| == c;
  }

  lemma {:induction false} SameKeyCut(s: Settings, t: Settings)
    requires Parsed(s) && Parsed(t) && t != s && Key(t) == Key(s)
    ensures Ambiguous(s)
  {
    var a, b, c, d := Join(s.ipv4, COMMA), Join(s.ipv6, COMMA), Join(t.ipv4, COMMA), Join(t.ipv6, COMMA);
    assert Key(s) == c + BAR + d;
    assert Key(s)[..|c|] == c && Key(s)[|c|] == '|' && Key(s)[|c| + 1..] == d;
    JoinedIsListable(t.ipv4);
    JoinedIsListable(t.ipv6);
    if |c| == |a| {
      assert a == Key(s)[..|a|] && b == Key(s)[|a| + 1..];
      JoinInjective(s.ipv4, t.ipv4);
      JoinInjective(s.ipv6, t.ipv6);
      assert false;
    }
    assert IsOtherCut(s, |c|);
  }

  /** Among settings without a bar in an IPv4 entry the key is injective. */
  lemma {:induction false} KeyInjective(s: Settings, t: Settings)
    requires WellFormed(s) && WellFormed(t) && Key(s) == Key(t)
    ensures s == t
  {
    var a, b, c, d := Join(s.ipv4, COMMA), Join(s.ipv6, COMMA), Join(t.ipv4, COMMA), Join(t.ipv6, COMMA);
    JoinClean(s.ipv4, COMMA, '|');
    JoinClean(t.ipv4, COMMA, '|');
    assert a + ['|'] + b == Key(s) && c + ['|'] + d == Key(t);
    SplitConcat(a, b, '|');
    SplitConcat(c, d, '|');
    SplitWhole(a, '|');
    SplitWhole(c, '|');
    assert a == Split(Key(s), '|')[0] && c == Split(Key(t), '|')[0];
    assert b == Key(s)[|a| + 1..] && d == Key(t)[|c| + 1..];
    JoinInjective(s.ipv4, t.ipv4);
    JoinInjective(s.ipv6, t.ipv6);
  }

  /** Without a bar in any address the key is never ambiguous. */
  lemma {:induction false} NoBarNoAmbiguity(s: Settings)
    requires forall k :: 0 <= k < |s.ipv4| ==> '|' !in s.ipv4[k]
    requires forall k :: 0 <= k < |s.ipv6| ==> '|' !in s.ipv6[k]
    ensures !Ambiguous(s)
  {
    JoinClean(s.ipv4, COMMA, '|');
    JoinClean(s.ipv6, COMMA, '|');
    var a, b := Join(s.ipv4, COMMA), Join(s.ipv6, COMMA);
    forall c | 0 <= c < |Key(s)| && c != |a| ensures Key(s)[c] != '|' {
      assert Key(s)[c] == if c < |a| then a[c] else b[c - |a| - 1];
    }
  }

  // ---- what the memo serves ---------------------------------------------------------------

  /** The settings the clients were built from, once `s` is asked for: the remembered ones as
      long as the key is the same. */
  function ServedNext(built: Option<Settings>, s: Settings): Settings {
    if built.Some? && Key(built.value) == Key(s) then built.value else s
  }

  /** The settings served after a history of settings, one call each. */
  function Served(history: seq<Settings>): Option<Settings> {
    if history == [] then None
    else Some(ServedNext(Served(history[..|history| - 1]), history[|history| - 1]))
  }

  /** What is served is the setting with which the current key began its unbroken stretch. */
  lemma {:induction false} ServedStartsStretch(history: seq<Settings>) returns (m: nat)
    requires history != []
    ensures m < |history| && Served(history) == Some(history[m])
    ensures forall k :: m <= k < |history| ==> Key(history[k]) == Key(history[|history| - 1])
    ensures m > 0 ==> Key(history[m - 1]) != Key(history[m])
  {
    var n := |history| - 1;
    m := n;
    if n > 0 {
      var before := history[..n];
      var start := ServedStartsStretch(before);
      assert Key(before[start]) == Key(before[n - 1]);
      if Key(history[start]) == Key(history[n]) {
        m := start;
      }
    }
  }

  /** Over any history of parsed settings: the memo is stale exactly when the current stretch of
      equal keys began, at m, with other settings, which takes an ambiguous key. */
  lemma {:induction false} StaleExactly(history: seq<Settings>) returns (m: nat)
    requires history != [] && forall k :: 0 <= k < |history| ==> Parsed(history[k])
    ensures m < |history| && (m > 0 ==> Key(history[m - 1]) != Key(history[m]))
    ensures forall k :: m <= k < |history| ==> Key(history[k]) == Key(history[|history| - 1])
    ensures var last := history[|history| - 1];
            && (Served(history) != Some(last) <==> history[m] != last)
            && (Served(history) != Some(last) ==> Ambiguous(last))
  {
    m := ServedStartsStretch(history);
    if history[m] != history[|history| - 1] {
      SharesKeyIff(history[|history| - 1]);
    }
  }

  /** The smallest shared key, a bar inside an IPv4 entry and behind an IPv6 one, makes the memo
      serve the earlier settings. */
  lemma {:induction false} BarMakesStale()
    ensures var before, now := Settings(["a|b"], []), Settings(["a"], ["b|"]);
            Key(before) == Key(now) && before != now && Served([before, now]) == Some(before)
  {
    var before, now := Settings(["a|b"], []), Settings(["a"], ["b|"]);
    assert "a|b" + BAR + "" == "a" + BAR + "b|";
    assert [before, now][..1] == [before] && [before][..0] == [];
    assert Served([]) == None && Served([before]) == Some(before);
    assert Served([before, now]) == Some(ServedNext(Served([before]), now));
  }

  // ---- resolving --------------------------------------------------------------------------

  datatype Reply<+P> = Answer(packet: P) | Error(message: string)
  datatype Resolution<+P> = Resolved(packet: P) | Failed(message: string)

  const NO_UPSTREAM := "No upstream resolvers configured"
  const AAAA := 28

  /** The clients one query may try, in order. */
  function Candidates(s: Settings, typeNum: nat): seq<Client> {
    (if typeNum == AAAA then Build(s.ipv6) else []) + Build(s.ipv4)
  }

  lemma BuildInjective(a: seq<string>, b: seq<string>)
    requires Build(a) == Build(b)
    ensures a == b
  {
    forall k | 0 <= k < |a| ensures a[k] == b[k] {
      assert Build(a)[k] == Build(b)[k];
    }
  }

  class Memo {
    var cachedKey: Option<string>
    var ipv4Clients: seq<Client>
    var ipv6Clients: seq<Client>
    /** The settings the clients were built from. */
    ghost var built: Option<Settings>

    ghost predicate Valid()
      reads this
    {
      && (cachedKey.Some? <==> built.Some?)
      && (built.Some? ==>
            && cachedKey.value == Key(built.value)
            && ipv4Clients == Build(built.value.ipv4) && ipv6Clients == Build(built.value.ipv6))
    }

    constructor ()
      ensures Valid() && cachedKey == None && built == None
    {
      cachedKey, ipv4Clients, ipv6Clients, built := None, [], [], None;
    }

    /** For any settings at all: the clients are rebuilt exactly when the key changes, so they are
        those of the current settings unless the key is the remembered one of other settings. */
    method GetClients(s: Settings)
      requires Valid()
      modifies this
      ensures Valid() && built == Some(ServedNext(old(built), s))
      ensures ipv4Clients == Build(s.ipv4) && ipv6Clients == Build(s.ipv6)
          <==> !(old(built).Some? && Key(old(built).value) == Key(s) && old(built).value != s)
    {
      var key := Join(s.ipv4, COMMA) + BAR + Join(s.ipv6, COMMA);
      if cachedKey != Some(key) {
        ipv4Clients := seq(|s.ipv4|, k requires 0 <= k < |s.ipv4| => Client(s.ipv4[k]));
        ipv6Clients := seq(|s.ipv6|, k requires 0 <= k < |s.ipv6| => Client(s.ipv6[k]));
        cachedKey, built := Some(key), Some(s);
      } else if ipv4Clients == Build(s.ipv4) && ipv6Clients == Build(s.ipv6) {
        BuildInjective(built.value.ipv4, s.ipv4);
        BuildInjective(built.value.ipv6, s.ipv6);
      }
    }

    /** `ask(c, i)` is what client c replies to the i-th attempt of this query. The candidates are
        those of the settings served. */
    method Resolve<P>(s: Settings, typeNum: nat, ask: (Client, nat) -> Reply<P>) returns (r: Resolution<P>)
      requires Valid()
      modifies this
      ensures Valid() && built == Some(ServedNext(old(built), s))
      ensures var all := Candidates(built.value, typeNum);
              match r
              case Resolved(packet) => FirstAnswer(all, 0, ask, packet)
              case Failed(message) =>
                NoneAnswers(all, 0, ask)
                && message == if built.value.ipv4 == [] then "No upstream resolvers configured" else ask(all[|all| - 1], |all| - 1).message
    {
      hide FirstAnswer, NoneAnswers, Join;
      GetClients(s);
      var attempts := 0;
      if typeNum == AAAA {
        var found, _ := TryInOrder(ipv6Clients, 0, ask);
        if found.Some? {
          AnswerInFront(ipv6Clients, ipv4Clients, ask, found.value);
          return Resolved(found.value);
        }
        attempts := |ipv6Clients|;
      }
      ghost var skipped := if typeNum == AAAA then ipv6Clients else [];
      NobodyAsked(ask);
      var found, lastErr := TryInOrder(ipv4Clients, attempts, ask);
      if found.Some? {
        AnswerBehind(skipped, ipv4Clients, ask, found.value);
        return Resolved(found.value);
      }
      NoneOfBoth(skipped, ipv4Clients, ask);
      return Failed(if lastErr.Some? then lastErr.value else NO_UPSTREAM);
    }
  }

  /** No client answers, the first of them being asked in attempt `first`. */
  ghost predicate NoneAnswers<P>(clients: seq<Client>, first: nat, ask: (Client, nat) -> Reply<P>) {
    forall i :: 0 <= i < |clients| ==> ask(clients[i], first + i).Error?
  }

  /** Some client answers with this packet and none before it answers. */
  ghost predicate FirstAnswer<P>(clients: seq<Client>, first: nat, ask: (Client, nat) -> Reply<P>, packet: P) {
    exists i :: 0 <= i < |clients| && ask(clients[i], first + i) == Answer(packet) && NoneAnswers(clients[..i], first, ask)
  }

  lemma NobodyAsked<P>(ask: (Client, nat) -> Reply<P>)
    ensures NoneAnswers([], 0, ask)
  {
  }

  lemma AnswerInFront<P>(front: seq<Client>, back: seq<Client>, ask: (Client, nat) -> Reply<P>, packet: P)
    requires FirstAnswer(front, 0, ask, packet)
    ensures FirstAnswer(front + back, 0, ask, packet)
  {
    var i :| 0 <= i < |front| && ask(front[i], 0 + i) == Answer(packet) && NoneAnswers(front[..i], 0, ask);
    assert (front + back)[..i] == front[..i] && (front + back)[i] == front[i];
  }

  lemma AnswerBehind<P>(front: seq<Client>, back: seq<Client>, ask: (Client, nat) -> Reply<P>, packet: P)
    requires NoneAnswers(front, 0, ask) && FirstAnswer(back, |front|, ask, packet)
    ensures FirstAnswer(front + back, 0, ask, packet)
  {
    var i :| 0 <= i < |back| && ask(back[i], |front| + i) == Answer(packet) && NoneAnswers(back[..i], |front|, ask);
    NoneOfBoth(front, back[..i], ask);
    assert (front + back)[..|front| + i] == front + back[..i];
    assert ask((front + back)[|front| + i], 0 + (|front| + i)) == Answer(packet);
  }

  lemma NoneOfBoth<P>(front: seq<Client>, back: seq<Client>, ask: (Client, nat) -> Reply<P>)
    requires NoneAnswers(front, 0, ask) && NoneAnswers(back, |front|, ask)
    ensures NoneAnswers(front + back, 0, ask)
  {
    forall j | 0 <= j < |front + back| ensures ask((front + back)[j], 0 + j).Error? {
      assert j >= |front| ==> ask(back[j - |front|], |front| + (j - |front|)).Error?;
    }
  }

  /** One client after the other until one answers; otherwise the last error. */
  method TryInOrder<P>(clients: seq<Client>, first: nat, ask: (Client, nat) -> Reply<P>)
    returns (found: Option<P>, lastErr: Option<string>)
    ensures found.Some? ==> FirstAnswer(clients, first, ask, found.value)
    ensures found.None? ==> NoneAnswers(clients, first, ask)
                            && lastErr == if clients == [] then None
                                          else Some(ask(clients[|clients| - 1], first + |clients| - 1).message)
  {
    found, lastErr := None, None;
    for i := 0 to |clients|
      invariant NoneAnswers(clients[..i], first, ask)
      invariant lastErr == if i == 0 then None else Some(ask(clients[i - 1], first + i - 1).message)
    {
      assert clients[..i + 1] == clients[..i] + [clients[i]];
      var reply := ask(clients[i], first + i);
      if reply.Answer? {
        found := Some(reply.packet);
        return;
      }
      lastErr := Some(reply.message);
    }
    assert clients[..|clients|] == clients;
  }

  /** AAAA queries (type 28) go to the IPv6 list in order and then to the IPv4 list in order; all
      other queries go to the IPv4 list only, whatever the IPv6 list is. */
  lemma {:induction false} CandidatesInOrder(s: Settings, typeNum: nat, k: nat)
    ensures |Candidates(s, typeNum)| == (if typeNum == 28 then |s.ipv6| else 0) + |s.ipv4|
    ensures k < |Candidates(s, typeNum)| ==>
              Candidates(s, typeNum)[k].dns == if typeNum != 28 then s.ipv4[k] else if k < |s.ipv6| then s.ipv6[k] else s.ipv4[k - |s.ipv6|]
  {
  }
}
