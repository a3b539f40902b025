/** The managed section of pg_hba.conf: one text file used as an ordered set of replication
    peers, rewritten on every join and delete. */
module PgHba {
  import opened Wrappers
  import opened Text

  const MARKER := "#" + " --- CLASSGUARD " + "REPLICATION " + "ENTRIES " + "(auto-managed, " + "do not edit " + "below) ---"

  const BASE_LINES: seq<string> := [
    "# ClassGuard PostgreSQL client authentication",
    "# Managed by ClassGuard \U{2014} the replication entries at the bottom are",
    "# updated automatically by the API on node join/delete.",
    "",
    "# Unix socket \U{2014} trust for local tools (pg_isready, psql from containers)",
    "local   all             all                                     trust",
    "",
    "# IPv4/IPv6 localhost \U{2014} trust (same-host API and migration containers)",
    "host    all             all             127.0.0.1/32            trust",
    "host    all             all             ::1/128                 trust",
    "",
    "# Local replication \U{2014} trust (pg_basebackup running on the same host)",
    "local   replication     all                                     trust",
    "host    replication     all             127.0.0.1/32            trust",
    "host    replication     all             ::1/128                 trust",
    "",
    "# All other TCP connections require scram-sha-256",
    WIDE_LINE,
    ""]

  const WIDE_LINE := "host" + "    all             all             all                     " + "scram-sha-256"

  const PREFIX := Lines(BASE_LINES)

  /** The static text of every file written: base rules, marker, line feed. */
  const BASE := PREFIX + MARKER + "\n"

  // ---- reading --------------------------------------------------------------------------------

  function SkipSpace(s: string): string {
    if s != "" && IsBlank(s[0]) then SkipSpace(s[1..]) else s
  }

  /** The text after `word` and at least one space, or None. */
  function AfterWord(s: string, word: string): Option<string> {
    if StartsWith(s, word) && |s| > |word| && IsBlank(s[|word|]) then Some(SkipSpace(s[|word|..])) else None
  }

  /** `/^hostssl\s+replication\s+replicator\s+/` */
  predicate IsEntryLine(l: string) {
    var a := AfterWord(l, "hostssl");
    a.Some? && var b := AfterWord(a.value, "replication");
    b.Some? && AfterWord(b.value, "replicator").Some?
  }

  function IndexOf(s: string, pattern: string, from: nat): Option<nat>
    decreases |s| - from
  {
    if from + |pattern| > |s| then None
    else if OccursAt(s, pattern, from) then Some(from)
    else IndexOf(s, pattern, from + 1)
  }

  function EntryLines(ls: seq<string>): seq<string> {
    if ls == [] then [] else (if IsEntryLine(ls[0]) then [ls[0]] else []) + EntryLines(ls[1..])
  }

  /** The replication lines below the marker; none when the file or the marker is missing. */
  function ReadEntries(file: Option<string>): seq<string> {
    if file.None? then []
    else
      var markerIdx := IndexOf(file.value, MARKER, 0);
      if markerIdx.None? then []
      else
        assert OccursAt(file.value, MARKER, markerIdx.value) by { IndexOfFound(file.value, MARKER, 0); }
        EntryLines(Split(file.value[markerIdx.value + |MARKER|..], '\n'))
  }

  lemma {:induction false} IndexOfFound(s: string, pattern: string, from: nat)
    ensures IndexOf(s, pattern, from).Some? ==> OccursAt(s, pattern, IndexOf(s, pattern, from).value)
    decreases |s| - from
  {
    if from + |pattern| <= |s| && !OccursAt(s, pattern, from) {
      IndexOfFound(s, pattern, from + 1);
    }
  }

  // ---- writing --------------------------------------------------------------------------------

  const SPACE := " "

  /** `hostssl replication replicator <ip>/32 scram-sha-256` */
  function EntryFor(ip: string): string {
    "hostssl" + SPACE + ("replication" + SPACE + ("replicator" + SPACE + (ip + "/32" + SPACE + "scram-sha-256")))
  }

  predicate Drops(line: string, ip: string) { Includes(line, "replicator" + SPACE + (ip + "/32")) }

  function Without(entries: seq<string>, ip: string): seq<string> {
    if entries == [] then []
    else (if Drops(entries[0], ip) then [] else [entries[0]]) + Without(entries[1..], ip)
  }

  function Updated(file: Option<string>, ip: string, add: bool): string {
    var filtered := Without(ReadEntries(file), ip);
    var updated := if add then filtered + [EntryFor(ip)] else filtered;
    BASE + Join(updated, "\n") + (if updated == [] then "" else "\n")
  }

  class HbaFile {
    var content: Option<string>

    constructor ()
      ensures content == None
    {
      content := None;
    }

    method UpdateReplication(ip: string, add: bool)
      modifies this
      ensures content == Some(Updated(old(content), ip, add))
    {
      var existing: seq<string> := [];
      if content.Some? {
        existing := ReadEntries(content);
      }
      var updated := Without(existing, ip);
      if add {
        updated := updated + [EntryFor(ip)];
      }
      content := Some(BASE + Join(updated, "\n") + (if updated == [] then "" else "\n"));
    }
  }

  // ---- what is written is what is read back ---------------------------------------------------------

  predicate OneLine(s: string) { '\n' !in s }

  lemma {:induction false} SplitOfLines(ls: seq<string>)
    requires forall k :: 0 <= k < |ls| ==> OneLine(ls[k])
    ensures Split(Lines(ls), '\n') == ls + [""]
  {
    if ls != [] {
      SplitOfLines(ls[1..]);
      SplitConcat(ls[0], Lines(ls[1..]), '\n');
      SplitWhole(ls[0], '\n');
      assert ls[0] + "\n" + Lines(ls[1..]) == ls[0] + ['\n'] + Lines(ls[1..]);
      assert [ls[0]] + (ls[1..] + [""]) == ls + [""];
    }
  }

  lemma {:induction false} EntryLinesConcat(a: seq<string>, b: seq<string>)
    ensures EntryLines(a + b) == EntryLines(a) + EntryLines(b)
  {
    hide IsEntryLine;
    if a == [] {
      assert a + b == b;
    } else {
      EntryLinesConcat(a[1..], b);
      var first := if IsEntryLine(a[0]) then [a[0]] else [];
      assert (a + b)[1..] == a[1..] + b;
      assert EntryLines(a + b) == first + (EntryLines(a[1..]) + EntryLines(b));
      Regrouped(first, EntryLines(a[1..]), EntryLines(b));
    }
  }

  lemma Regrouped(a: seq<string>, b: seq<string>, c: seq<string>)
    ensures a + (b + c) == (a + b) + c
  {
  }

  lemma {:induction false} EntryLinesAll(ls: seq<string>)
    requires forall k :: 0 <= k < |ls| ==> IsEntryLine(ls[k])
    ensures EntryLines(ls) == ls
  {
    if ls != [] { EntryLinesAll(ls[1..]); }
  }

  /** A line the marker cannot start in: too short for it, or without its first character
      wherever it would still fit. */
  predicate TooNarrow(l: string) {
    forall i :: 0 <= i <= |l| - |MARKER| ==> l[i] != '#'
  }

  lemma WideLineIsTooNarrow()
    ensures TooNarrow(WIDE_LINE)
  {
    assert WIDE_LINE[0] == 'h' && WIDE_LINE[1] == 'o' && WIDE_LINE[2] == 's' && WIDE_LINE[3] == 't';
  }

  lemma BaseLinesTooNarrow()
    ensures forall k :: 0 <= k < |BASE_LINES| ==> TooNarrow(BASE_LINES[k])
  {
    WideLineIsTooNarrow();
    forall k | 0 <= k < |BASE_LINES| ensures TooNarrow(BASE_LINES[k]) {
      assert BASE_LINES[k] == WIDE_LINE || |BASE_LINES[k]| < |MARKER|;
    }
  }

  lemma MarkerIsOneLine()
    ensures OneLine(MARKER) && MARKER[0] == '#'
  {
  }

  /** No occurrence of the marker starts within lines that are too narrow for it. */
  lemma {:induction false} NoEarlierMarker(ls: seq<string>, rest: string, i: nat)
    requires forall k :: 0 <= k < |ls| ==> TooNarrow(ls[k])
    requires i < |Lines(ls)|
    ensures !OccursAt(Lines(ls) + rest, MARKER, i)
  {
    MarkerIsOneLine();
    var s := Lines(ls) + rest;
    var l := ls[0];
    var after := Lines(ls[1..]) + rest;
    assert s == l + "\n" + after;
    if i <= |l| && i + |MARKER| > |l| {
      Mismatch(s, MARKER, i, |l| - i);
    } else if i <= |l| {
      Mismatch(s, MARKER, i, 0);
    } else {
      var j := i - |l| - 1;
      NoEarlierMarker(ls[1..], rest, j);
      assert i + |MARKER| <= |s| ==> after[j..j + |MARKER|] == s[i..i + |MARKER|];
    }
  }

  lemma Mismatch(s: string, p: string, at: nat, k: nat)
    requires k < |p| && at + k < |s| && s[at + k] != p[k]
    ensures !OccursAt(s, p, at)
  {
    assert at + |p| <= |s| ==> s[at..at + |p|][k] == s[at + k];
  }

  lemma {:induction false} IndexOfFirst(s: string, pattern: string, from: nat, at: nat)
    requires from <= at && OccursAt(s, pattern, at)
    requires forall i: nat :: from <= i < at ==> !OccursAt(s, pattern, i)
    ensures IndexOf(s, pattern, from) == Some(at)
    decreases at - from
  {
    if from < at { IndexOfFirst(s, pattern, from + 1, at); }
  }

  lemma {:induction false} MarkerFound(tail: string)
    ensures IndexOf(PREFIX + (MARKER + tail), MARKER, 0) == Some(|PREFIX|)
  {
    hide Lines;
    var file := PREFIX + (MARKER + tail);
    BaseLinesTooNarrow();
    forall i: nat | i < |PREFIX| ensures !OccursAt(file, MARKER, i) {
      NoEarlierMarker(BASE_LINES, MARKER + tail, i);
    }
    assert file[|PREFIX|..|PREFIX| + |MARKER|] == MARKER;
    IndexOfFirst(file, MARKER, 0, |PREFIX|);
  }

  lemma {:induction false} EntryLinesOfTail(entries: seq<string>)
    requires forall k :: 0 <= k < |entries| ==> IsEntryLine(entries[k]) && OneLine(entries[k])
    ensures EntryLines(Split("\n" + Lines(entries), '\n')) == entries
  {
    assert "\n" + Lines(entries) == "" + ['\n'] + Lines(entries);
    SplitConcat("", Lines(entries), '\n');
    SplitOfLines(entries);
    EntryLinesConcat([""], entries + [""]);
    EntryLinesConcat(entries, [""]);
    EntryLinesAll(entries);
    assert !IsEntryLine("");
    assert EntryLines([""]) == [];
  }

  /** Reading a file that was written as base text plus entry lines gives those lines. */
  lemma {:induction false} ReadBack(entries: seq<string>)
    requires forall k :: 0 <= k < |entries| ==> IsEntryLine(entries[k]) && OneLine(entries[k])
    ensures ReadEntries(Some(BASE + Lines(entries))) == entries
  {
    hide Lines, IndexOf, EntryLines, Split, IsEntryLine;
    var tail := "\n" + Lines(entries);
    var file := BASE + Lines(entries);
    assert file == PREFIX + (MARKER + tail);
    MarkerFound(tail);
    assert file[|PREFIX| + |MARKER|..] == tail;
    EntryLinesOfTail(entries);
  }

  // ---- the substring filter ------------------------------------------------------------------------

  predicate Clean(host: string) { forall i :: 0 <= i < |host| ==> !IsBlank(host[i]) }

  lemma {:induction false} WordThen(word: string, rest: string)
    requires rest != "" && !IsBlank(rest[0])
    ensures AfterWord(word + SPACE + rest, word) == Some(rest)
  {
    var s := word + SPACE + rest;
    assert s[..|word|] == word && s[|word|..] == SPACE + rest;
    assert (SPACE + rest)[1..] == rest;
    assert SkipSpace(SPACE + rest) == SkipSpace(rest) == rest;
  }

  /** A generated line is an entry line, on one line. */
  lemma {:induction false} GeneratedLineReads(host: string)
    requires Clean(host)
    ensures IsEntryLine(EntryFor(host)) && OneLine(EntryFor(host))
  {
    var c := host + "/32" + SPACE + "scram-sha-256";
    var b := "replicator" + SPACE + c;
    var a := "replication" + SPACE + b;
    assert c[0] == if host == "" then '/' else host[0];
    WordThen("replicator", c);
    WordThen("replication", b);
    WordThen("hostssl", a);
    GeneratedOneLine(host);
  }

  lemma GeneratedOneLine(host: string)
    requires Clean(host)
    ensures OneLine(EntryFor(host))
  {
    assert '\n' !in "hostssl" && '\n' !in "replication" && '\n' !in "replicator" && '\n' !in "scram-sha-256";
    assert '\n' !in host;
  }

  /** The five words of a generated line. */
  function Words(host: string): seq<string> {
    ["hostssl", "replication", "replicator", host + "/32", "scram-sha-256"]
  }

  lemma {:induction false} LineWords(host: string)
    requires Clean(host)
    ensures Split(EntryFor(host), ' ') == Words(host)
  {
    hide Split;
    var c := host + "/32" + SPACE + "scram-sha-256";
    var b := "replicator" + SPACE + c;
    var a := "replication" + SPACE + b;
    assert ' ' !in host && ' ' !in "hostssl" && ' ' !in "replication" && ' ' !in "replicator" && ' ' !in "scram-sha-256";
    FirstWord("hostssl", a);
    FirstWord("replication", b);
    FirstWord("replicator", c);
    FirstWord(host + "/32", "scram-sha-256");
    SplitWhole("scram-sha-256", ' ');
  }

  lemma {:induction false} FirstWord(word: string, rest: string)
    requires ' ' !in word
    ensures Split(word + SPACE + rest, ' ') == [word] + Split(rest, ' ')
  {
    assert word + SPACE + rest == word + [' '] + rest;
    SplitConcat(word, rest, ' ');
    SplitWhole(word, ' ');
  }

  lemma {:induction false} LastPartEnds(a: string, b: string, sep: char)
    requires sep !in b
    ensures var parts := Split(a + b, sep); EndsWith(parts[|parts| - 1], b)
  {
    if a == "" {
      assert a + b == b;
      SplitWhole(b, sep);
    } else {
      LastPartEnds(a[1..], b, sep);
      assert (a + b)[1..] == a[1..] + b;
      var rest := Split(a[1..] + b, sep);
      if |rest| == 1 && a[0] != sep {
        assert ([a[0]] + rest[0])[|rest[0]| + 1 - |b|..] == rest[0][|rest[0]| - |b|..];
      }
    }
  }

  lemma {:induction false} FirstPartStarts(a: string, b: string, sep: char)
    requires sep !in a
    ensures StartsWith(Split(a + b, sep)[0], a)
  {
    if a != "" {
      FirstPartStarts(a[1..], b, sep);
      assert (a + b)[1..] == a[1..] + b;
    }
  }

  /** Text "x y" occurs in a line of words only across a word that ends in x and one that starts with y. */
  lemma {:induction false} OccursAcrossWords(line: string, x: string, y: string, at: nat) returns (k: nat)
    requires ' ' !in x && ' ' !in y && OccursAt(line, x + SPACE + y, at)
    ensures var words := Split(line, ' ');
            k + 1 < |words| && EndsWith(words[k], x) && StartsWith(words[k + 1], y)
  {
    var n := |x + SPACE + y|;
    var pre, post := line[..at], line[at + n..];
    assert line == line[..at] + line[at..at + n] + line[at + n..];
    assert line == (pre + x) + [' '] + (y + post);
    SplitConcat(pre + x, y + post, ' ');
    LastPartEnds(pre, x, ' ');
    FirstPartStarts(y, post, ' ');
    k := |Split(pre + x, ' ')| - 1;
  }

  /** The filter for `ip` drops the line of `host` exactly when the host is that ip, or begins
      with it followed by "/32". */
  lemma {:induction false} DropsExactly(host: string, ip: string)
    requires Clean(host) && Clean(ip)
    ensures Drops(EntryFor(host), ip) <==> host == ip || StartsWith(host, ip + "/32")
  {
    var line, y := EntryFor(host), ip + "/32";
    PrefixOfSlash(host, ip);
    if StartsWith(host + "/32", y) {
      var front, back := "hostssl" + SPACE + ("replication" + SPACE), (host + "/32")[|y|..] + SPACE + "scram-sha-256";
      assert host + "/32" == y + (host + "/32")[|y|..];
      assert line == front + ("replicator" + SPACE + y) + back;
      assert OccursAt(line, "replicator" + SPACE + y, |front|);
    }
    if at: int :| 0 <= at <= |line| && OccursAt(line, "replicator" + SPACE + y, at) {
      assert ' ' !in ip && ' ' !in "replicator";
      var k := OccursAcrossWords(line, "replicator", y, at);
      LineWords(host);
      OnlyThirdWord(host, k);
    }
  }

  lemma OnlyThirdWord(host: string, k: nat)
    requires k < 4
    ensures EndsWith(Words(host)[k], "replicator") ==> k == 2
  {
    NotEnding("hostssl", "replicator");
    NotEnding("replication", "replicator");
    NotEnding(host + "/32", "replicator");
  }

  lemma NotEnding(s: string, x: string)
    requires s != "" && x != "" && s[|s| - 1] != x[|x| - 1]
    ensures !EndsWith(s, x)
  {
    assert |x| <= |s| ==> s[|s| - |x|..][|x| - 1] == s[|s| - 1];
  }

  lemma {:induction false} PrefixOfSlash(host: string, ip: string)
    requires Clean(host) && Clean(ip)
    ensures StartsWith(host + "/32", ip + "/32") <==> host == ip || StartsWith(host, ip + "/32")
  {
    var w, p := host + "/32", ip + "/32";
    if StartsWith(w, p) {
      assert forall k :: 0 <= k < |p| ==> w[k] == w[..|p|][k] == p[k];
      assert p[|ip|] == '/' && p[|ip| + 1] == '3' && p[|ip| + 2] == '2';
      assert w[|host|] == '/' && w[|host| + 1] == '3' && w[|host| + 2] == '2';
      if |p| <= |host| {
        assert host[..|p|] == w[..|p|];
      } else {
        assert |ip| == |host|;
        assert forall k :: 0 <= k < |ip| ==> host[k] == w[k] == p[k] == ip[k];
      }
    }
    if StartsWith(host, p) {
      assert w[..|p|] == host[..|p|];
    }
  }

  /** So a host written with its own "/32" goes when the plain address is removed. */
  lemma {:induction false} SlashedHostIsDropped(ip: string)
    requires Clean(ip)
    ensures EntryFor(ip + "/32") != EntryFor(ip) && Drops(EntryFor(ip + "/32"), ip)
  {
    DropsExactly(ip + "/32", ip);
    assert |EntryFor(ip + "/32")| != |EntryFor(ip)|;
  }

  // ---- whole runs --------------------------------------------------------------------------------------

  datatype Op = Op(ip: string, add: bool)

  /** A host name as `new URL(...).hostname` yields it. */
  predicate Hostname(h: string) { Clean(h) && '/' !in h }

  function RunFile(file: Option<string>, ops: seq<Op>): Option<string> {
    if ops == [] then file
    else
      var last := ops[|ops| - 1];
      Some(Updated(RunFile(file, ops[..|ops| - 1]), last.ip, last.add))
  }

  function Removed(hosts: seq<string>, ip: string): seq<string> {
    if hosts == [] then [] else (if hosts[0] == ip then [] else [hosts[0]]) + Removed(hosts[1..], ip)
  }

  /** The peers after a run: each operation takes the host out, an add puts it at the end. */
  function Peers(ops: seq<Op>): seq<string> {
    if ops == [] then []
    else
      var last := ops[|ops| - 1];
      Removed(Peers(ops[..|ops| - 1]), last.ip) + (if last.add then [last.ip] else [])
  }

  function Entries(hosts: seq<string>): seq<string> {
    seq(|hosts|, k requires 0 <= k < |hosts| => EntryFor(hosts[k]))
  }

  lemma NoSlashNoPrefix(host: string, ip: string)
    requires '/' !in host
    ensures !StartsWith(host, ip + "/32")
  {
    if |ip| + 3 <= |host| {
      var p := ip + "/32";
      assert host[..|p|][|ip|] == host[|ip|] && p[|ip|] == '/';
    }
  }

  lemma {:induction false} WithoutIsRemoved(hosts: seq<string>, ip: string)
    requires Hostname(ip) && forall k :: 0 <= k < |hosts| ==> Hostname(hosts[k])
    ensures Without(Entries(hosts), ip) == Entries(Removed(hosts, ip))
  {
    if hosts != [] {
      WithoutIsRemoved(hosts[1..], ip);
      assert Entries(hosts)[1..] == Entries(hosts[1..]);
      DropsExactly(hosts[0], ip);
      NoSlashNoPrefix(hosts[0], ip);
      assert Entries([hosts[0]] + Removed(hosts[1..], ip)) == [EntryFor(hosts[0])] + Entries(Removed(hosts[1..], ip));
    }
  }

  lemma {:induction false} RemovedFrom(hosts: seq<string>, ip: string)
    ensures forall h :: h in Removed(hosts, ip) <==> h in hosts && h != ip
  {
    if hosts != [] { RemovedFrom(hosts[1..], ip); }
  }

  /** Re-reading the file after any run of adds and removes, from a file without entries, gives
      one line per peer in order, under an unchanged base text. */
  lemma {:induction false} FileFollowsPeers(file: Option<string>, ops: seq<Op>)
    requires ReadEntries(file) == []
    requires forall k :: 0 <= k < |ops| ==> Hostname(ops[k].ip)
    ensures forall h :: h in Peers(ops) ==> Hostname(h)
    ensures ReadEntries(RunFile(file, ops)) == Entries(Peers(ops))
    ensures ops != [] ==> RunFile(file, ops) == Some(BASE + Lines(Entries(Peers(ops))))
  {
    hide Lines, ReadEntries, Updated, Hostname, Removed;
    if ops != [] {
      var before, last := ops[..|ops| - 1], ops[|ops| - 1];
      FileFollowsPeers(file, before);
      RemovedFrom(Peers(before), last.ip);
      OneStep(RunFile(file, before), Peers(before), last);
    }
  }

  /** One rewrite of a file that lists `was` lists what the operation makes of `was`. */
  lemma {:induction false} OneStep(file: Option<string>, was: seq<string>, op: Op)
    requires Hostname(op.ip) && forall h :: h in was ==> Hostname(h)
    requires ReadEntries(file) == Entries(was)
    ensures var now := Removed(was, op.ip) + (if op.add then [op.ip] else []);
            Updated(file, op.ip, op.add) == BASE + Lines(Entries(now))
            && ReadEntries(Some(BASE + Lines(Entries(now)))) == Entries(now)
  {
    hide Lines, ReadEntries, IsEntryLine, EntryFor, Drops, Without, Hostname;
    var now := Removed(was, op.ip) + (if op.add then [op.ip] else []);
    WithoutIsRemoved(was, op.ip);
    RemovedFrom(was, op.ip);
    var updated := Entries(now);
    assert updated == if op.add then Entries(Removed(was, op.ip)) + [EntryFor(op.ip)] else Entries(Removed(was, op.ip));
    JoinIsLines(updated);
    assert BASE + Join(updated, "\n") + (if updated == [] then "" else "\n")
        == BASE + (Join(updated, "\n") + (if updated == [] then "" else "\n"));
    forall k | 0 <= k < |updated| ensures IsEntryLine(updated[k]) && OneLine(updated[k]) {
      assert now[k] in now;
      HostnameIsClean(now[k]);
      GeneratedLineReads(now[k]);
    }
    ReadBack(updated);
  }

  lemma HostnameIsClean(h: string)
    requires Hostname(h)
    ensures Clean(h)
  {
  }

  /** The number of operations up to and including the latest on `h`; 0 if there is none. */
  function Latest(ops: seq<Op>, h: string): nat {
    if ops == [] then 0
    else if ops[|ops| - 1].ip == h then |ops| else Latest(ops[..|ops| - 1], h)
  }

  lemma {:induction false} RemovedKeepsOrder(hosts: seq<string>, ip: string, ops: seq<Op>)
    requires ByLatest(hosts, ops)
    ensures ByLatest(Removed(hosts, ip), ops)
  {
    if hosts != [] {
      RemovedKeepsOrder(hosts[1..], ip, ops);
      RemovedFrom(hosts[1..], ip);
      var rest := Removed(hosts[1..], ip);
      forall j | 0 <= j < |rest| ensures Latest(ops, hosts[0]) < Latest(ops, rest[j]) {
        assert rest[j] in hosts[1..];
        var k :| 0 <= k < |hosts[1..]| && hosts[1..][k] == rest[j];
        assert hosts[k + 1] == rest[j];
      }
    }
  }

  lemma {:induction false} LatestBound(ops: seq<Op>, h: string)
    ensures Latest(ops, h) <= |ops|
  {
    if ops != [] { LatestBound(ops[..|ops| - 1], h); }
  }

  /** What an operation on another host leaves of `Latest`. */
  lemma {:induction false} LatestStep(ops: seq<Op>, h: string)
    requires ops != []
    ensures Latest(ops, h) == if ops[|ops| - 1].ip == h then |ops| else Latest(ops[..|ops| - 1], h)
    ensures Latest(ops[..|ops| - 1], h) < |ops|
  {
    LatestBound(ops[..|ops| - 1], h);
  }

  ghost predicate ByLatest(hosts: seq<string>, ops: seq<Op>) {
    forall i, j :: 0 <= i < j < |hosts| ==> Latest(ops, hosts[i]) < Latest(ops, hosts[j])
  }

  ghost predicate AddedLast(ops: seq<Op>, h: string) {
    0 < Latest(ops, h) <= |ops| && ops[Latest(ops, h) - 1].add
  }

  lemma {:induction false} AppendLatest(kept: seq<string>, before: seq<Op>, last: Op)
    requires ByLatest(kept, before) && last.ip !in kept
    ensures ByLatest(kept + (if last.add then [last.ip] else []), before + [last])
  {
    hide Latest;
    var ops := before + [last];
    assert ops[..|ops| - 1] == before;
    forall k | 0 <= k < |kept| ensures Latest(ops, kept[k]) == Latest(before, kept[k]) < |ops| {
      assert kept[k] in kept;
      LatestStep(ops, kept[k]);
    }
    LatestStep(ops, last.ip);
  }

  /** The peers are the hosts whose latest operation is an add, each once, by latest add. */
  lemma {:induction false} PeersAreLatestAdds(ops: seq<Op>)
    ensures forall h :: h in Peers(ops) <==> AddedLast(ops, h)
    ensures ByLatest(Peers(ops), ops)
  {
    if ops != [] {
      var before, last := ops[..|ops| - 1], ops[|ops| - 1];
      assert ops == before + [last];
      PeersAreLatestAdds(before);
      RemovedFrom(Peers(before), last.ip);
      RemovedKeepsOrder(Peers(before), last.ip, before);
      AppendLatest(Removed(Peers(before), last.ip), before, last);
      forall h ensures h in Peers(ops) <==> AddedLast(ops, h) {
        LatestStep(ops, h);
      }
    }
  }

  // ---- what the line pattern accepts -----------------------------------------------------------

  predicate Blanks(gap: string) { gap != "" && forall i :: 0 <= i < |gap| ==> IsBlank(gap[i]) }

  predicate Shape(l: string, g1: string, g2: string, g3: string, rest: string) {
    && Blanks(g1) && Blanks(g2) && Blanks(g3)
    && l == "hostssl" + g1 + ("replication" + g2 + ("replicator" + g3 + rest))
  }

  lemma {:induction false} SkipSpaceSkips(s: string) returns (gap: string)
    ensures s == gap + SkipSpace(s) && forall i :: 0 <= i < |gap| ==> IsBlank(gap[i])
    ensures SkipSpace(s) == "" || !IsBlank(SkipSpace(s)[0])
    ensures s != "" && IsBlank(s[0]) ==> gap != ""
  {
    gap := "";
    if s != "" && IsBlank(s[0]) {
      var more := SkipSpaceSkips(s[1..]);
      gap := [s[0]] + more;
      assert s == [s[0]] + s[1..];
    }
  }

  lemma {:induction false} SkipsGap(gap: string, rest: string)
    requires forall i :: 0 <= i < |gap| ==> IsBlank(gap[i])
    requires rest == "" || !IsBlank(rest[0])
    ensures SkipSpace(gap + rest) == rest
  {
    if gap != "" {
      SkipsGap(gap[1..], rest);
      assert (gap + rest)[1..] == gap[1..] + rest;
    } else {
      assert gap + rest == rest;
    }
  }

  lemma {:induction false} WordSplits(s: string, word: string) returns (gap: string)
    requires AfterWord(s, word).Some?
    ensures Blanks(gap) && s == word + gap + AfterWord(s, word).value
  {
    gap := SkipSpaceSkips(s[|word|..]);
    assert s == word + s[|word|..];
  }

  lemma {:induction false} WordJoins(s: string, word: string, gap: string, rest: string)
    requires Blanks(gap) && s == word + gap + rest
    ensures AfterWord(s, word).Some?
    ensures rest != "" && !IsBlank(rest[0]) ==> AfterWord(s, word) == Some(rest)
  {
    assert s[|word|..] == gap + rest && s[|word|] == gap[0];
    if rest != "" && !IsBlank(rest[0]) {
      SkipsGap(gap, rest);
    }
  }

  /** A line is taken for a replication entry exactly when it begins with the three words, each
      followed by white space. */
  lemma {:induction false} EntryLineShape(l: string)
    ensures IsEntryLine(l) <==> exists g1, g2, g3, rest :: Shape(l, g1, g2, g3, rest)
  {
    if IsEntryLine(l) {
      var a := AfterWord(l, "hostssl").value;
      var b := AfterWord(a, "replication").value;
      var g1 := WordSplits(l, "hostssl");
      var g2 := WordSplits(a, "replication");
      var g3 := WordSplits(b, "replicator");
      assert Shape(l, g1, g2, g3, AfterWord(b, "replicator").value);
    }
    if g1, g2, g3, rest :| Shape(l, g1, g2, g3, rest) {
      var c := "replicator" + g3 + rest;
      var b := "replication" + g2 + c;
      WordJoins(l, "hostssl", g1, b);
      WordJoins(b, "replication", g2, c);
      WordJoins(c, "replicator", g3, rest);
    }
  }

  /** The last base rule, the one for all other connections, asks for a password. */
  lemma {:induction false} OthersNeedPassword()
    ensures |BASE_LINES| >= 2 && StartsWith(BASE_LINES[|BASE_LINES| - 2], "host") && EndsWith(BASE_LINES[|BASE_LINES| - 2], "scram-sha-256")
  {
    assert BASE_LINES[|BASE_LINES| - 2] == WIDE_LINE;
  }
}
