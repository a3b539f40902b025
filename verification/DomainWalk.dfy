/** Matching a queried name against domain sets: the label walk-up of the master
    blocklist and the category table, and the suffix test of the allow lists. */
module DomainWalk {
  import opened Wrappers
  import opened Text

  const DOT := "."

  /** `replace(/\.$/, '')`: one trailing dot goes, no more. */
  function StripDot(s: string): string {
    if EndsWith(s, DOT) then s[..|s| - 1] else s
  }

  /** The suffix test: the name itself or anything below it. */
  predicate Under(name: string, entry: string) {
    name == entry || EndsWith(name, DOT + entry)
  }

  predicate IsInAllowList(domain: string, allowList: seq<string>) {
    exists k :: 0 <= k < |allowList| && Under(Lower(domain), Lower(allowList[k]))
  }

  // ---- the walk ---------------------------------------------------------------

  /** All label suffixes of at least two labels, longest first. */
  function DomainsToCheck(domain: string): seq<string> {
    var parts := Split(StripDot(Lower(domain)), '.');
    seq(|parts| - 1, i requires 0 <= i < |parts| - 1 => Join(parts[i..], DOT))
  }

  method GetDomainsToCheck(domain: string) returns (checks: seq<string>)
    ensures checks == DomainsToCheck(domain)
  {
    var lower := StripDot(Lower(domain));
    var parts := Split(lower, '.');
    checks := [];
    var i := 0;
    while i < |parts| - 1
      invariant 0 <= i <= |parts| - 1
      invariant checks == DomainsToCheck(domain)[..i]
    {
      checks := checks + [Join(parts[i..], DOT)];
      i := i + 1;
    }
  }

  /** One reply per pipelined command: commands in `failed` come back as errors. */
  datatype Reply<+T> = CommandError | Value(value: T)

  /** A rejected pipeline rejects the whole lookup. */
  datatype Lookup<+T> = Rejected | Resolved(value: T)

  /** What the lookup answers: some checked name is listed and its own command succeeded. */
  ghost predicate Listed(domain: string, blocklist: set<string>, failed: set<string>) {
    exists d :: d in DomainsToCheck(domain) && d in blocklist && d !in failed
  }

  method IsBlocked(domain: string, blocklist: set<string>, failed: set<string>, pipelineUp: bool)
    returns (r: Lookup<bool>)
    ensures r == (if pipelineUp || |DomainsToCheck(domain)| == 0
                  then Resolved(Listed(domain, blocklist, failed)) else Rejected)
  {
    hide DomainsToCheck;
    var toCheck := GetDomainsToCheck(domain);
    if |toCheck| == 0 {
      return Resolved(false);
    }
    if !pipelineUp {
      return Rejected;
    }
    var results: seq<Reply<bool>> := [];
    for i := 0 to |toCheck|
      invariant |results| == i
      invariant forall j :: 0 <= j < i ==> results[j] == BlocklistReply(toCheck[j], blocklist, failed)
    {
      results := results + [BlocklistReply(toCheck[i], blocklist, failed)];
    }
    var hit := false;
    for i := 0 to |results|
      invariant hit <==> exists j :: 0 <= j < i && toCheck[j] in blocklist && toCheck[j] !in failed
    {
      hit := hit || results[i] == Value(true);
    }
    return Resolved(hit);
  }

  /** What SISMEMBER answers for one name. */
  function BlocklistReply(d: string, blocklist: set<string>, failed: set<string>): Reply<bool> {
    if d in failed then CommandError else Value(d in blocklist)
  }

  /** `checks[from..]` scanned in order: the first successful reply with a non-empty category. */
  function FirstCategory(checks: seq<string>, table: map<string, string>, failed: set<string>): Option<string> {
    if checks == [] then None
    else if checks[0] !in failed && checks[0] in table && table[checks[0]] != "" then Some(table[checks[0]])
    else FirstCategory(checks[1..], table, failed)
  }

  method GetCategoryForDomain(domain: string, table: map<string, string>, failed: set<string>, pipelineUp: bool)
    returns (r: Lookup<Option<string>>)
    ensures r == (if pipelineUp || |DomainsToCheck(domain)| == 0
                  then Resolved(FirstCategory(DomainsToCheck(domain), table, failed)) else Rejected)
  {
    var toCheck := GetDomainsToCheck(domain);
    if |toCheck| == 0 {
      return Resolved(None);
    }
    if !pipelineUp {
      return Rejected;
    }
    var results: seq<Reply<Option<string>>> := [];
    for i := 0 to |toCheck|
      invariant |results| == i
      invariant forall j :: 0 <= j < i ==>
        results[j] == if toCheck[j] in failed then CommandError
                      else Value(if toCheck[j] in table then Some(table[toCheck[j]]) else None)
    {
      var d := toCheck[i];
      results := results + [if d in failed then CommandError
                            else Value(if d in table then Some(table[d]) else None)];
    }
    var i := 0;
    while i < |results|
      invariant 0 <= i <= |results|
      invariant FirstCategory(toCheck, table, failed) == FirstCategory(toCheck[i..], table, failed)
    {
      if results[i].Value? && results[i].value.Some? && results[i].value.value != "" {
        return Resolved(results[i].value);
      }
      assert toCheck[i..][1..] == toCheck[i + 1..];
      i := i + 1;
    }
    return Resolved(None);
  }

  // ---- the two matchers agree ---------------------------------------------------

  lemma {:induction false} SuffixOfParts(parts: seq<string>, i: nat)
    requires i < |parts|
    ensures Under(Join(parts, DOT), Join(parts[i..], DOT))
  {
    if i == 0 {
      assert parts[0..] == parts;
    } else {
      assert parts[..i] + parts[i..] == parts;
      JoinConcat(parts[..i], parts[i..], DOT);
      var whole, tail := Join(parts, DOT), Join(parts[i..], DOT);
      assert whole == Join(parts[..i], DOT) + (DOT + tail);
    }
  }

  /** A dotted suffix of the name is the join of its last parts. */
  lemma {:induction false} PartsOfSuffix(lower: string, entry: string) returns (at: nat)
    requires Under(lower, entry)
    ensures at < |Split(lower, '.')| && Split(lower, '.')[at..] == Split(entry, '.')
  {
    var cut := |lower| - |entry|;
    if cut == 0 {
      assert lower == entry;
      return 0;
    }
    at := |Split(lower[..cut - 1], '.')|;
    assert lower == lower[..cut - 1] + ['.'] + entry by {
      assert lower[cut - 1..] == DOT + entry;
      assert lower == lower[..cut - 1] + lower[cut - 1..];
    }
    SplitConcat(lower[..cut - 1], entry, '.');
  }

  /** The walk visits exactly the dotted names the suffix test would accept. */
  lemma {:induction false} WalkIsSuffixTest(domain: string, entry: string)
    ensures entry in DomainsToCheck(domain)
        <==> '.' in entry && Under(StripDot(Lower(domain)), entry)
  {
    hide Split, Join, Under, StripDot, Lower;
    var lower := StripDot(Lower(domain));
    var parts := Split(lower, '.');
    var checks := DomainsToCheck(domain);
    JoinOfSplit(lower, '.');
    if entry in checks {
      var i :| 0 <= i < |checks| && checks[i] == entry;
      SuffixOfParts(parts, i);
      JoinHas(parts[i..], '.');
    }
    if '.' in entry && Under(lower, entry) {
      var at := PartsOfSuffix(lower, entry);
      JoinOfSplit(entry, '.');
      SplitCount(entry, '.');
      assert checks[at] == entry;
    }
  }

  /** `isBlocked` is the allow-list test on the same name, restricted to dotted entries. */
  lemma {:induction false} BlocklistAgreesWithAllowList(domain: string, entries: seq<string>)
    requires forall k :: 0 <= k < |entries| ==> IsLower(entries[k])
    requires !EndsWith(domain, DOT)
    ensures Listed(domain, set e | e in entries, {})
        <==> IsInAllowList(domain, DottedOnly(entries))
  {
    var lower := Lower(domain);
    assert EndsWith(lower, DOT) == EndsWith(domain, DOT) by {
      if |domain| > 0 {
        var last := |domain| - 1;
        assert domain[last..] == [domain[last]] && lower[last..] == [LowerChar(domain[last])];
      }
    }
    DottedOnlyMembers(entries);
    var dotted := DottedOnly(entries);
    if Listed(domain, set e | e in entries, {}) {
      var d :| d in DomainsToCheck(domain) && d in entries;
      WalkIsSuffixTest(domain, d);
      var k :| 0 <= k < |dotted| && dotted[k] == d;
      LowerOfLower(d);
    }
    if IsInAllowList(domain, dotted) {
      var k :| 0 <= k < |dotted| && Under(lower, Lower(dotted[k]));
      assert dotted[k] in entries;
      LowerOfLower(dotted[k]);
      WalkIsSuffixTest(domain, dotted[k]);
    }
  }

  function DottedOnly(entries: seq<string>): seq<string> {
    if entries == [] then []
    else (if '.' in entries[0] then [entries[0]] else []) + DottedOnly(entries[1..])
  }

  lemma {:induction false} DottedOnlyMembers(entries: seq<string>)
    ensures forall e :: e in DottedOnly(entries) <==> e in entries && '.' in e
  {
    if entries != [] {
      DottedOnlyMembers(entries[1..]);
    }
  }

  /** A per-command error is read as a miss, so a listed name slips through exactly when
      the command of every listed parent failed: only a rejected pipeline fails closed. */
  lemma {:induction false} CommandErrorsFailOpen(domain: string, blocklist: set<string>, failed: set<string>)
    requires Listed(domain, blocklist, {})
    ensures !Listed(domain, blocklist, failed)
        <==> forall d :: d in blocklist && '.' in d && Under(StripDot(Lower(domain)), d) ==> d in failed
  {
    forall d ensures d in DomainsToCheck(domain) <==> '.' in d && Under(StripDot(Lower(domain)), d) {
      WalkIsSuffixTest(domain, d);
    }
  }

  // ---- the case of letters never matters -----------------------------------------

  /** Names and allow-list entries that differ in the case of ASCII letters only are treated alike
      by all three matchers. */
  lemma {:induction false} CaseNeverMatters(
    domain: string, same: string, allow: seq<string>, sameAllow: seq<string>,
    blocklist: set<string>, table: map<string, string>, failed: set<string>)
    requires SameButCase(domain, same)
    requires |allow| == |sameAllow| && forall k :: 0 <= k < |allow| ==> SameButCase(allow[k], sameAllow[k])
    ensures IsInAllowList(domain, allow) <==> IsInAllowList(same, sameAllow)
    ensures Listed(domain, blocklist, failed) <==> Listed(same, blocklist, failed)
    ensures FirstCategory(DomainsToCheck(domain), table, failed) == FirstCategory(DomainsToCheck(same), table, failed)
  {
    LowerForgetsCase(domain, same);
    forall k | 0 <= k < |allow| ensures Lower(allow[k]) == Lower(sameAllow[k]) {
      LowerForgetsCase(allow[k], sameAllow[k]);
    }
    hide Lower, Under;
    assert DomainsToCheck(domain) == DomainsToCheck(same);
  }

  /** One trailing dot of a name never matters to the walk. */
  lemma {:induction false} TrailingDotNeverMatters(domain: string)
    ensures StripDot(domain + ".") == domain
    ensures !EndsWith(domain, ".") ==> StripDot(Lower(domain + ".")) == StripDot(Lower(domain))
    ensures !EndsWith(domain, ".") ==> DomainsToCheck(domain + ".") == DomainsToCheck(domain)
  {
    var dotted := domain + ".";
    assert dotted[|dotted| - 1..] == ".";
    assert Lower(dotted) == Lower(domain) + ".";
    assert Lower(dotted)[|dotted| - 1..] == ".";
    if !EndsWith(domain, ".") && domain != "" {
      var last := |domain| - 1;
      assert domain[last..] == [domain[last]] && Lower(domain)[last..] == [LowerChar(domain[last])];
    }
  }

  // ---- most specific category wins ----------------------------------------------

  ghost predicate Categorised(d: string, table: map<string, string>, failed: set<string>) {
    d !in failed && d in table && table[d] != ""
  }

  lemma {:induction false} FirstCategoryIsFirst(checks: seq<string>, table: map<string, string>, failed: set<string>)
    ensures FirstCategory(checks, table, failed).None?
        ==> forall k :: 0 <= k < |checks| ==> !Categorised(checks[k], table, failed)
    ensures FirstCategory(checks, table, failed).Some?
        ==> exists k :: 0 <= k < |checks| && Categorised(checks[k], table, failed)
                     && table[checks[k]] == FirstCategory(checks, table, failed).value
                     && forall j :: 0 <= j < k ==> !Categorised(checks[j], table, failed)
  {
    if checks != [] && !Categorised(checks[0], table, failed) {
      FirstCategoryIsFirst(checks[1..], table, failed);
      var r := FirstCategory(checks, table, failed);
      if r.Some? {
        var k :| 0 <= k < |checks[1..]| && Categorised(checks[1..][k], table, failed)
              && table[checks[1..][k]] == r.value
              && forall j :: 0 <= j < k ==> !Categorised(checks[1..][j], table, failed);
        forall j | 0 <= j < k + 1 ensures !Categorised(checks[j], table, failed) {
          if j > 0 { assert checks[j] == checks[1..][j - 1]; }
        }
        assert checks[k + 1] == checks[1..][k];
      }
    }
  }

  lemma {:induction false} ChecksShrink(domain: string, i: nat, j: nat)
    requires i < j < |DomainsToCheck(domain)|
    ensures |DomainsToCheck(domain)[j]| < |DomainsToCheck(domain)[i]|
  {
    var parts := Split(StripDot(Lower(domain)), '.');
    assert parts[i..] == parts[i..j] + parts[j..];
    JoinConcat(parts[i..j], parts[j..], DOT);
  }

  /** The category returned belongs to the longest dotted suffix that has a non-empty one,
      and none is returned exactly when no dotted suffix has one. */
  lemma {:induction false} MostSpecificCategoryWins(domain: string, table: map<string, string>, failed: set<string>)
    returns (winner: string)
    ensures var r := FirstCategory(DomainsToCheck(domain), table, failed);
            var name := StripDot(Lower(domain));
            (r.None? <==> forall d :: '.' in d && Under(name, d) ==> !Categorised(d, table, failed))
            && (r.Some? ==>
                  (&& '.' in winner && Under(name, winner) && Categorised(winner, table, failed)
                   && r.value == table[winner]
                   && forall d :: '.' in d && Under(name, d) && Categorised(d, table, failed) && d != winner
                        ==> |d| < |winner|))
  {
    hide DomainsToCheck, FirstCategory, Under, Lower, StripDot;
    var checks := DomainsToCheck(domain);
    var name := StripDot(Lower(domain));
    var r := FirstCategory(checks, table, failed);
    FirstCategoryIsFirst(checks, table, failed);
    forall d ensures d in checks <==> '.' in d && Under(name, d) {
      WalkIsSuffixTest(domain, d);
    }
    winner := "";
    if r.Some? {
      var k :| 0 <= k < |checks| && Categorised(checks[k], table, failed) && table[checks[k]] == r.value
            && forall j :: 0 <= j < k ==> !Categorised(checks[j], table, failed);
      winner := checks[k];
      forall d | d in checks && Categorised(d, table, failed) && d != winner ensures |d| < |winner| {
        var j :| 0 <= j < |checks| && checks[j] == d;
        ChecksShrink(domain, k, j);
      }
    }
  }
}
