/** The DNS decision pipeline: an ordered cascade of filtering stages, each with a dry-run
    twin, over the answers of independent lookups that may each be rejected. */
module Resolver {
  import opened Wrappers
  import opened Text
  import opened DomainWalk

  datatype Mode = Standard | Lesson | PenaltyBox | Open | OtherMode(name: string)

  /** `mode` may be missing; the empty string stands for a missing session or action. */
  datatype Policy = Policy(
    mode: Option<Mode>, lessonSessionId: string, allowDomains: seq<string>,
    defaultAction: string, blockedCategories: seq<string>)

  /** The empty string stands for a missing identifier. */
  datatype Device = Device(studentId: string, deviceId: string, policyId: string)
  datatype Zone = Zone(domain: string, forwardTo: string)
  datatype Answer = Answer(data: string)
  datatype UpstreamReply = UpstreamReply(rcode: nat, answers: seq<Answer>)

  /** Everything one query reads, before any default is applied. */
  datatype World = World(
    localAnswers: Lookup<Option<seq<Answer>>>,
    forwardZones: Lookup<seq<Zone>>,
    zoneReply: string -> Option<seq<Answer>>,
    device: Lookup<Option<Device>>,
    ouPolicy: Lookup<Option<Policy>>,
    subnetPolicy: Lookup<Option<Policy>>,
    networkPolicy: Lookup<Option<Policy>>,
    dryRun: Lookup<bool>,
    globalAllow: Lookup<seq<string>>,
    hasOverride: Lookup<bool>,
    blocklist: set<string>, blocklistErrors: set<string>, blocklistUp: bool,
    categories: map<string, string>, categoryErrors: set<string>, categoryUp: bool,
    upstream: Option<UpstreamReply>,
    cacheWritable: bool)

  datatype Query = Query(name: string, typeNum: nat, sourceIp: string)

  datatype BlockReason =
    | PenaltyBoxMode | LessonMode | DefaultDeny | SafetyCheckUnavailable
    | OnBlocklist | InCategory(category: string) | Unresolvable

  datatype Action = Allowed | Blocked | DryRunBlocked | LocalAnswer
  datatype Result = Result(action: Action, answers: seq<Answer>, blockReason: Option<BlockReason>)
  datatype LogEntry = LogEntry(
    domain: string, action: Action, sourceIp: string, who: Device, lessonSessionId: string,
    blockReason: Option<BlockReason>, cacheHit: Option<bool>, dryRun: bool)

  type Cache = map<(string, nat), seq<Answer>>
  const UNRESOLVABLE_RCODES: set<nat> := {2, 3, 5}
  const NOBODY := Device("", "", "")

  function Or<T>(l: Lookup<T>, default: T): T {
    if l.Resolved? then l.value else default
  }

  // ---- specification -------------------------------------------------------------

  function DomainOf(q: Query): string { StripDot(Lower(q.name)) }

  function WhoOf(w: World): Device {
    var device := Or(w.device, None);
    if device.Some? then device.value else NOBODY
  }

  predicate FullNetworkOverride(p: Option<Policy>) {
    p.Some? && p.value.mode in {Some(Lesson), Some(PenaltyBox)}
  }

  function PolicyOf(w: World): Option<Policy> {
    var floor, own, subnet := Or(w.networkPolicy, None), Or(w.ouPolicy, None), Or(w.subnetPolicy, None);
    if WhoOf(w).studentId != "" then (if FullNetworkOverride(own) then own else floor)
    else if subnet.Some? then subnet else floor
  }

  function ModeOf(p: Option<Policy>): Mode {
    if p.Some? && p.value.mode.Some? then p.value.mode.value else Standard
  }

  function SessionOf(p: Option<Policy>): string {
    if p.Some? then p.value.lessonSessionId else ""
  }

  function AllowsOf(p: Option<Policy>): seq<string> {
    if p.Some? then p.value.allowDomains else []
  }

  function BlockedCatsOf(p: Option<Policy>): seq<string> {
    if p.Some? then p.value.blockedCategories else []
  }

  predicate ZoneMatches(domain: string, z: Zone) {
    Under(domain, z.domain)
  }

  function FindZone(domain: string, zones: seq<Zone>): Option<Zone> {
    if zones == [] then None
    else if ZoneMatches(domain, zones[0]) then Some(zones[0])
    else FindZone(domain, zones[1..])
  }

  ghost predicate BlocklistOk(domain: string, w: World) {
    w.blocklistUp || |DomainsToCheck(domain)| == 0
  }

  ghost predicate CategoryOk(domain: string, w: World) {
    w.categoryUp || |DomainsToCheck(domain)| == 0
  }

  /** A query the filter lets through before any safety lookup is consulted. */
  ghost predicate Exempt(domain: string, p: Option<Policy>, w: World) {
    || IsInAllowList(domain, Or(w.globalAllow, []))
    || IsInAllowList(domain, AllowsOf(p))
    || LiftedByMode(p, w)
  }

  /** Open mode, or a standard one with a usable override code. */
  predicate LiftedByMode(p: Option<Policy>, w: World) {
    ModeOf(p) == Open || (ModeOf(p) == Standard && Or(w.hasOverride, false))
  }

  /** Which objection the filter has to a query that is not exempt, strongest first. */
  ghost function Objection(domain: string, p: Option<Policy>, w: World): Option<BlockReason> {
    if ModeOf(p) == PenaltyBox then Some(PenaltyBoxMode)
    else if ModeOf(p) == Lesson then Some(LessonMode)
    else if ModeOf(p) == Standard && p.Some? && p.value.defaultAction == "block" then Some(DefaultDeny)
    else SafetyObjection(domain, p, w)
  }

  ghost function SafetyObjection(domain: string, p: Option<Policy>, w: World): Option<BlockReason> {
    if !BlocklistOk(domain, w) then Some(SafetyCheckUnavailable)
    else if Listed(domain, w.blocklist, w.blocklistErrors) then Some(OnBlocklist)
    else if !CategoryOk(domain, w) then Some(SafetyCheckUnavailable)
    else
      var category := FirstCategory(DomainsToCheck(domain), w.categories, w.categoryErrors);
      if category.Some? && category.value in BlockedCatsOf(p) then Some(InCategory(category.value)) else None
  }

  /** The filter's verdict under a given policy: None forwards. */
  ghost function Verdict(domain: string, p: Option<Policy>, w: World): Option<BlockReason> {
    if Exempt(domain, p, w) then None else Objection(domain, p, w)
  }

  datatype Fetched = Fetched(answers: Option<seq<Answer>>, hit: bool, cache: Cache)

  /** Cached answers win; otherwise an upstream failure, a failing rcode or a failed cache
      write all mean "does not resolve", and only non-empty answers are cached. */
  function Fetch(domain: string, typeNum: nat, w: World, cache: Cache): Fetched {
    if (domain, typeNum) in cache then Fetched(Some(cache[(domain, typeNum)]), true, cache)
    else if w.upstream.None? || w.upstream.value.rcode in UNRESOLVABLE_RCODES then Fetched(None, false, cache)
    else if w.upstream.value.answers == [] then Fetched(Some([]), false, cache)
    else if !w.cacheWritable then Fetched(None, false, cache)
    else Fetched(Some(w.upstream.value.answers), false, cache[(domain, typeNum) := w.upstream.value.answers])
  }

  function Entry(q: Query, w: World, action: Action, reason: Option<BlockReason>, hit: Option<bool>, dry: bool): LogEntry {
    LogEntry(DomainOf(q), action, q.sourceIp, WhoOf(w), SessionOf(PolicyOf(w)), reason, hit, dry)
  }

  datatype Outcome = Outcome(result: Result, log: seq<LogEntry>, cache: Cache)

  function Forwarded(q: Query, w: World, cache: Cache): Outcome {
    var f := Fetch(DomainOf(q), q.typeNum, w, cache);
    if f.answers.None? then
      Outcome(Result(Blocked, [], Some(Unresolvable)), [Entry(q, w, Blocked, Some(Unresolvable), None, false)], f.cache)
    else
      Outcome(Result(Allowed, f.answers.value, None), [Entry(q, w, Allowed, None, Some(f.hit), false)], f.cache)
  }

  function Answers(a: Option<seq<Answer>>): seq<Answer> {
    if a.Some? then a.value else []
  }

  /** A query the filter never sees: a local record or a conditional forwarding zone. */
  function Infrastructure(q: Query, w: World, cache: Cache): Option<Outcome> {
    var local := Or(w.localAnswers, None);
    var zone := FindZone(DomainOf(q), Or(w.forwardZones, []));
    if local.Some? then
      Some(Outcome(Result(Allowed, local.value, None),
                   [LogEntry(DomainOf(q), LocalAnswer, q.sourceIp, NOBODY, "", None, None, false)], cache))
    else if zone.Some? then
      Some(Outcome(Result(Allowed, Answers(w.zoneReply(zone.value.forwardTo)), None), [], cache))
    else None
  }

  /** What a refused query gets: the block, or under dry-run the forwarded answers. */
  function Refused(q: Query, w: World, reason: BlockReason, cache: Cache): Outcome {
    if Or(w.dryRun, false) then
      var f := Fetch(DomainOf(q), q.typeNum, w, cache);
      Outcome(Result(DryRunBlocked, Answers(f.answers), None),
              [Entry(q, w, DryRunBlocked, Some(reason), None, true)], f.cache)
    else
      Outcome(Result(Blocked, [], Some(reason)), [Entry(q, w, Blocked, Some(reason), None, false)], cache)
  }

  ghost function Resolution(q: Query, w: World, cache: Cache): Outcome {
    var infra := Infrastructure(q, w, cache);
    var verdict := Verdict(DomainOf(q), PolicyOf(w), w);
    if infra.Some? then infra.value
    else if verdict.None? then Forwarded(q, w, cache)
    else Refused(q, w, verdict.value, cache)
  }

  // ---- the pipeline ----------------------------------------------------------------

  class Engine {
    var log: seq<LogEntry>
    var cache: Cache

    constructor ()
      ensures log == [] && cache == map[]
    {
      log, cache := [], map[];
    }

    method ForwardToUpstream(domain: string, typeNum: nat, w: World)
      returns (answers: Option<seq<Answer>>, cacheHit: bool)
      modifies this`cache
      ensures Fetched(answers, cacheHit, cache) == Fetch(domain, typeNum, w, old(cache))
    {
      if (domain, typeNum) in cache {
        return Some(cache[(domain, typeNum)]), true;
      }
      if w.upstream.None? || w.upstream.value.rcode in UNRESOLVABLE_RCODES {
        return None, false;
      }
      var found := w.upstream.value.answers;
      if |found| > 0 {
        if !w.cacheWritable {
          return None, false;
        }
        cache := cache[(domain, typeNum) := found];
      }
      return Some(found), false;
    }

    method DryRunForward(domain: string, typeNum: nat, w: World) returns (r: Result)
      modifies this`cache
      ensures var f := Fetch(domain, typeNum, w, old(cache));
              r == Result(DryRunBlocked, Answers(f.answers), None) && cache == f.cache
    {
      var answers, hit := ForwardToUpstream(domain, typeNum, w);
      return Result(DryRunBlocked, if answers.Some? then answers.value else [], None);
    }

    method ForwardAndLog(q: Query, w: World, entry: LogEntry) returns (r: Result)
      requires entry == Entry(q, w, Allowed, None, None, false)
      modifies this
      ensures var o := Forwarded(q, w, old(cache));
              r == o.result && log == old(log) + o.log && cache == o.cache
    {
      var answers, hit := ForwardToUpstream(entry.domain, q.typeNum, w);
      if answers.None? {
        log := log + [entry.(action := Blocked, blockReason := Some(Unresolvable))];
        return Result(Blocked, [], Some(Unresolvable));
      }
      log := log + [entry.(cacheHit := Some(hit))];
      return Result(Allowed, answers.value, None);
    }

    /** Stages 2 and 3: who asks, and the one policy that governs the query. */
    method ChoosePolicy(w: World) returns (who: Device, policy: Option<Policy>)
      ensures who == WhoOf(w) && policy == PolicyOf(w)
    {
      who := NOBODY;
      if w.device.Resolved? && w.device.value.Some? {
        who := w.device.value.value;
      }
      var networkPolicy := if w.networkPolicy.Resolved? then w.networkPolicy.value else None;
      if who.studentId != "" {
        var ouPolicy := if w.ouPolicy.Resolved? then w.ouPolicy.value else None;
        if ouPolicy.Some? && (ouPolicy.value.mode == Some(Lesson) || ouPolicy.value.mode == Some(PenaltyBox)) {
          policy := ouPolicy;
        } else {
          policy := networkPolicy;
        }
      } else {
        policy := if w.subnetPolicy.Resolved? && w.subnetPolicy.value.Some? then w.subnetPolicy.value else networkPolicy;
      }
    }

    /** Every stage either returns or falls through to the next, in the order of the source. */
    method ResolveQuery(q: Query, w: World) returns (r: Result)
      modifies this
      ensures var o := Resolution(q, w, old(cache));
              r == o.result && log == old(log) + o.log && cache == o.cache
    {
      var domain := StripDot(Lower(q.name));
      var localAnswers := if w.localAnswers.Resolved? then w.localAnswers.value else None;
      var zones := if w.forwardZones.Resolved? then w.forwardZones.value else [];
      if localAnswers.Some? {
        log := log + [LogEntry(domain, LocalAnswer, q.sourceIp, NOBODY, "", None, None, false)];
        return Result(Allowed, localAnswers.value, None);
      }
      var zone := FindZone(domain, zones);
      if zone.Some? {
        var reply := w.zoneReply(zone.value.forwardTo);
        return Result(Allowed, if reply.Some? then reply.value else [], None);
      }

      var blockedResult := DomainWalk.IsBlocked(domain, w.blocklist, w.blocklistErrors, w.blocklistUp);
      var categoryResult := DomainWalk.GetCategoryForDomain(domain, w.categories, w.categoryErrors, w.categoryUp);

      var who, policy := ChoosePolicy(w);
      var session := if policy.Some? then policy.value.lessonSessionId else "";
      var entry := LogEntry(domain, Allowed, q.sourceIp, who, session, None, None, false);
      r := FilterStages(q, w, policy, entry, blockedResult, categoryResult);
    }

    /** The allow lists, then the two modes no override code lifts; the other stages follow. */
    method FilterStages(q: Query, w: World, policy: Option<Policy>, entry: LogEntry,
                        blockedResult: Lookup<bool>, categoryResult: Lookup<Option<string>>)
      returns (r: Result)
      requires policy == PolicyOf(w) && entry == Entry(q, w, Allowed, None, None, false)
      requires blockedResult == (if BlocklistOk(DomainOf(q), w)
                                 then Resolved(Listed(DomainOf(q), w.blocklist, w.blocklistErrors)) else Rejected)
      requires categoryResult == (if CategoryOk(DomainOf(q), w)
                                  then Resolved(FirstCategory(DomainsToCheck(DomainOf(q)), w.categories, w.categoryErrors))
                                  else Rejected)
      modifies this
      ensures var verdict := Verdict(DomainOf(q), PolicyOf(w), w);
              var o := if verdict.Some? then Refused(q, w, verdict.value, old(cache)) else Forwarded(q, w, old(cache));
              r == o.result && log == old(log) + o.log && cache == o.cache
    {
      var domain := entry.domain;
      var mode := if policy.Some? && policy.value.mode.Some? then policy.value.mode.value else Standard;
      var isDryRun := w.dryRun == Resolved(true);

      var globalAllow := if w.globalAllow.Resolved? then w.globalAllow.value else [];
      if IsInAllowList(domain, globalAllow) {
        r := ForwardAndLog(q, w, entry);
        return;
      }
      if IsInAllowList(domain, if policy.Some? then policy.value.allowDomains else []) {
        r := ForwardAndLog(q, w, entry);
        return;
      }
      if mode == PenaltyBox {
        if isDryRun {
          log := log + [entry.(action := DryRunBlocked, blockReason := Some(PenaltyBoxMode), dryRun := true)];
          r := DryRunForward(domain, q.typeNum, w);
          return;
        }
        log := log + [entry.(action := Blocked, blockReason := Some(PenaltyBoxMode))];
        return Result(Blocked, [], Some(PenaltyBoxMode));
      }
      if mode == Lesson {
        if isDryRun {
          log := log + [entry.(action := DryRunBlocked, blockReason := Some(LessonMode), dryRun := true)];
          r := DryRunForward(domain, q.typeNum, w);
          return;
        }
        log := log + [entry.(action := Blocked, blockReason := Some(LessonMode))];
        return Result(Blocked, [], Some(LessonMode));
      }
      r := ModeStages(q, w, policy, entry, blockedResult, categoryResult);
    }

    /** Open mode, the override code and default deny; then the safety lookups. */
    method ModeStages(q: Query, w: World, policy: Option<Policy>, entry: LogEntry,
                      blockedResult: Lookup<bool>, categoryResult: Lookup<Option<string>>)
      returns (r: Result)
      requires policy == PolicyOf(w) && entry == Entry(q, w, Allowed, None, None, false)
      requires ModeOf(policy) !in {PenaltyBox, Lesson}
      requires blockedResult == (if BlocklistOk(DomainOf(q), w)
                                 then Resolved(Listed(DomainOf(q), w.blocklist, w.blocklistErrors)) else Rejected)
      requires categoryResult == (if CategoryOk(DomainOf(q), w)
                                  then Resolved(FirstCategory(DomainsToCheck(DomainOf(q)), w.categories, w.categoryErrors))
                                  else Rejected)
      modifies this
      ensures var verdict := if LiftedByMode(PolicyOf(w), w) then None else Objection(DomainOf(q), PolicyOf(w), w);
              var o := if verdict.Some? then Refused(q, w, verdict.value, old(cache)) else Forwarded(q, w, old(cache));
              r == o.result && log == old(log) + o.log && cache == o.cache
    {
      var domain := entry.domain;
      var mode := if policy.Some? && policy.value.mode.Some? then policy.value.mode.value else Standard;
      var isDryRun := w.dryRun == Resolved(true);
      if mode == Open {
        r := ForwardAndLog(q, w, entry);
        return;
      }
      if mode == Standard {
        if w.hasOverride == Resolved(true) {
          r := ForwardAndLog(q, w, entry);
          return;
        }
      }
      if mode == Standard && policy.Some? && policy.value.defaultAction == "block" {
        if isDryRun {
          log := log + [entry.(action := DryRunBlocked, blockReason := Some(DefaultDeny), dryRun := true)];
          r := DryRunForward(domain, q.typeNum, w);
          return;
        }
        log := log + [entry.(action := Blocked, blockReason := Some(DefaultDeny))];
        return Result(Blocked, [], Some(DefaultDeny));
      }
      r := SafetyStages(q, w, policy, entry, blockedResult, categoryResult);
    }

    /** Stages 7 to 8: the two safety lookups, each failing closed when rejected. */
    method SafetyStages(q: Query, w: World, policy: Option<Policy>, entry: LogEntry,
                        blockedResult: Lookup<bool>, categoryResult: Lookup<Option<string>>)
      returns (r: Result)
      requires policy == PolicyOf(w) && entry == Entry(q, w, Allowed, None, None, false)
      requires blockedResult == (if BlocklistOk(DomainOf(q), w)
                                 then Resolved(Listed(DomainOf(q), w.blocklist, w.blocklistErrors)) else Rejected)
      requires categoryResult == (if CategoryOk(DomainOf(q), w)
                                  then Resolved(FirstCategory(DomainsToCheck(DomainOf(q)), w.categories, w.categoryErrors))
                                  else Rejected)
      modifies this
      ensures var reason := SafetyObjection(DomainOf(q), PolicyOf(w), w);
              var o := if reason.Some? then Refused(q, w, reason.value, old(cache)) else Forwarded(q, w, old(cache));
              r == o.result && log == old(log) + o.log && cache == o.cache
    {
      var domain := entry.domain;
      var isDryRun := w.dryRun == Resolved(true);
      if blockedResult.Rejected? {
        if isDryRun {
          log := log + [entry.(action := DryRunBlocked, blockReason := Some(SafetyCheckUnavailable), dryRun := true)];
          r := DryRunForward(domain, q.typeNum, w);
          return;
        }
        log := log + [entry.(action := Blocked, blockReason := Some(SafetyCheckUnavailable))];
        return Result(Blocked, [], Some(SafetyCheckUnavailable));
      }
      if blockedResult.value {
        if isDryRun {
          log := log + [entry.(action := DryRunBlocked, blockReason := Some(OnBlocklist), dryRun := true)];
          r := DryRunForward(domain, q.typeNum, w);
          return;
        }
        log := log + [entry.(action := Blocked, blockReason := Some(OnBlocklist))];
        return Result(Blocked, [], Some(OnBlocklist));
      }
      if categoryResult.Rejected? {
        if isDryRun {
          log := log + [entry.(action := DryRunBlocked, blockReason := Some(SafetyCheckUnavailable), dryRun := true)];
          r := DryRunForward(domain, q.typeNum, w);
          return;
        }
        log := log + [entry.(action := Blocked, blockReason := Some(SafetyCheckUnavailable))];
        return Result(Blocked, [], Some(SafetyCheckUnavailable));
      }
      var category := categoryResult.value;
      var blockedCats := if policy.Some? then policy.value.blockedCategories else [];
      if category.Some? && category.value in blockedCats {
        var reason := InCategory(category.value);
        if isDryRun {
          log := log + [entry.(action := DryRunBlocked, blockReason := Some(reason), dryRun := true)];
          r := DryRunForward(domain, q.typeNum, w);
          return;
        }
        log := log + [entry.(action := Blocked, blockReason := Some(reason))];
        return Result(Blocked, [], Some(reason));
      }
      r := ForwardAndLog(q, w, entry);
    }
  }

  // ---- the answer cache ------------------------------------------------------------------

  /** A name that resolved to something resolves to the same again, from the cache, whatever has
      become of upstream; a name that did not resolve leaves no trace. */
  lemma ResolvedNamesStayResolved(domain: string, typeNum: nat, w: World, later: World, cache: Cache)
    ensures var first := Fetch(domain, typeNum, w, cache);
            var second := Fetch(domain, typeNum, later, first.cache);
            && (first.answers.Some? && first.answers.value != [] ==> second == Fetched(first.answers, true, first.cache))
            && (first.answers.None? ==> first.cache == cache && (domain, typeNum) !in cache)
            && (forall other :: other != (domain, typeNum) ==>
                  (other in first.cache <==> other in cache) && (other in cache ==> first.cache[other] == cache[other]))
  {
  }

  // ---- dry-run is an exact shadow ----------------------------------------------------

  lemma DryRunShadow(q: Query, w: World, cache: Cache)
    ensures var live := Resolution(q, w.(dryRun := Resolved(false)), cache);
            var dry := Resolution(q, w.(dryRun := Resolved(true)), cache);
            var fetched := Fetch(DomainOf(q), q.typeNum, w, cache);
            if live.result.action == Blocked && live.result.blockReason != Some(Unresolvable) then
              && live.result == Result(Blocked, [], live.result.blockReason)
              && live.cache == cache && |live.log| == 1
              && dry.log == [live.log[0].(action := DryRunBlocked, dryRun := true)]
              && dry.log[0].blockReason == live.result.blockReason
              && dry.result == Result(DryRunBlocked, Answers(fetched.answers), None)
              && dry.cache == fetched.cache
            else dry == live
  {
    hide Verdict, PolicyOf, WhoOf, Infrastructure, Fetch, SessionOf;
    DryRunChangesNothingElse(q, w, cache, false);
    DryRunChangesNothingElse(q, w, cache, true);
    VerdictIgnoresDryRun(DomainOf(q), PolicyOf(w), w, false);
    VerdictIgnoresDryRun(DomainOf(q), PolicyOf(w), w, true);
    InfrastructureNeverBlocks(q, w, cache);
  }

  lemma InfrastructureNeverBlocks(q: Query, w: World, cache: Cache)
    ensures Infrastructure(q, w, cache).Some? ==> Infrastructure(q, w, cache).value.result.action == Allowed
  {
  }

  lemma DryRunChangesNothingElse(q: Query, w: World, cache: Cache, dry: bool)
    ensures var w' := w.(dryRun := Resolved(dry));
            && PolicyOf(w') == PolicyOf(w) && WhoOf(w') == WhoOf(w)
            && Infrastructure(q, w', cache) == Infrastructure(q, w, cache)
            && Fetch(DomainOf(q), q.typeNum, w', cache) == Fetch(DomainOf(q), q.typeNum, w, cache)
  {
  }

  lemma VerdictIgnoresDryRun(domain: string, p: Option<Policy>, w: World, dry: bool)
    ensures Verdict(domain, p, w.(dryRun := Resolved(dry))) == Verdict(domain, p, w)
    ensures Verdict(domain, p, w) != Some(Unresolvable)
  {
  }

  // ---- what the stages promise ----------------------------------------------------------

  ghost predicate AllowListed(domain: string, p: Option<Policy>, w: World) {
    IsInAllowList(domain, Or(w.globalAllow, [])) || IsInAllowList(domain, AllowsOf(p))
  }

  /** Blocked exactly when not allow-listed, and either in a full-network mode (which no override
      lifts), or in a mode other than open, without a usable override, and denied by default,
      unverifiable, listed, or in a blocked category. */
  lemma BlockedExactly(domain: string, p: Option<Policy>, w: World)
    ensures var mode := ModeOf(p);
            var category := FirstCategory(DomainsToCheck(domain), w.categories, w.categoryErrors);
            Verdict(domain, p, w).Some? <==>
              && !AllowListed(domain, p, w)
              && (|| mode in {PenaltyBox, Lesson}
                  || (&& mode != Open && !(mode == Standard && Or(w.hasOverride, false))
                      && (|| (mode == Standard && p.Some? && p.value.defaultAction == "block")
                          || !BlocklistOk(domain, w) || !CategoryOk(domain, w)
                          || Listed(domain, w.blocklist, w.blocklistErrors)
                          || (category.Some? && category.value in BlockedCatsOf(p)))))
  {
    if ModeOf(p) in {PenaltyBox, Lesson} {
      assert Objection(domain, p, w).Some?;
    }
  }

  /** The safety lookups never reach a query that the modes decide: with a lesson, a penalty box,
      an open mode, an allow-list hit, a usable override or default deny, two worlds that differ
      only in blocklist, categories and their failures give one verdict. */
  lemma ModesDecideWithoutLookups(domain: string, p: Option<Policy>, w: World, w': World)
    requires w' == w.(blocklist := w'.blocklist, blocklistErrors := w'.blocklistErrors, blocklistUp := w'.blocklistUp,
                      categories := w'.categories, categoryErrors := w'.categoryErrors, categoryUp := w'.categoryUp)
    requires || Exempt(domain, p, w) || ModeOf(p) in {PenaltyBox, Lesson}
             || (ModeOf(p) == Standard && p.Some? && p.value.defaultAction == "block")
    ensures Verdict(domain, p, w') == Verdict(domain, p, w)
  {
    assert Exempt(domain, p, w') == Exempt(domain, p, w);
  }

  // ---- the verdict is monotone ---------------------------------------------------------

  ghost predicate Covers(a: seq<string>, b: seq<string>) {
    forall s :: s in a ==> s in b
  }

  /** The same policy but for a longer allow list. */
  ghost predicate AllowsMore(p: Lookup<Option<Policy>>, p': Lookup<Option<Policy>>) {
    || p == p'
    || (&& p.Resolved? && p'.Resolved? && p.value.Some? && p'.value.Some?
        && p'.value.value == p.value.value.(allowDomains := p'.value.value.allowDomains)
        && Covers(p.value.value.allowDomains, p'.value.value.allowDomains))
  }

  /** The same policy but for more blocked categories. */
  ghost predicate BlocksMore(p: Lookup<Option<Policy>>, p': Lookup<Option<Policy>>) {
    || p == p'
    || (&& p.Resolved? && p'.Resolved? && p.value.Some? && p'.value.Some?
        && p'.value.value == p.value.value.(blockedCategories := p'.value.value.blockedCategories)
        && Covers(p.value.value.blockedCategories, p'.value.value.blockedCategories))
  }

  lemma AllowListGrows(domain: string, a: seq<string>, b: seq<string>)
    requires Covers(a, b) && IsInAllowList(domain, a)
    ensures IsInAllowList(domain, b)
  {
    var k :| 0 <= k < |a| && Under(Lower(domain), Lower(a[k]));
    assert a[k] in a;
    var j :| 0 <= j < |b| && b[j] == a[k];
  }

  /** Longer allow lists, global or of any policy, never turn a forwarded query into a blocked one. */
  lemma AllowingMoreNeverBlocks(domain: string, w: World, w': World)
    requires w' == w.(ouPolicy := w'.ouPolicy, subnetPolicy := w'.subnetPolicy,
                      networkPolicy := w'.networkPolicy, globalAllow := w'.globalAllow)
    requires AllowsMore(w.ouPolicy, w'.ouPolicy) && AllowsMore(w.subnetPolicy, w'.subnetPolicy)
    requires AllowsMore(w.networkPolicy, w'.networkPolicy)
    requires Covers(Or(w.globalAllow, []), Or(w'.globalAllow, []))
    requires Verdict(domain, PolicyOf(w), w).None?
    ensures Verdict(domain, PolicyOf(w'), w').None?
  {
    var p, p' := PolicyOf(w), PolicyOf(w');
    assert ModeOf(p) == ModeOf(p') && BlockedCatsOf(p) == BlockedCatsOf(p');
    if IsInAllowList(domain, Or(w.globalAllow, [])) {
      AllowListGrows(domain, Or(w.globalAllow, []), Or(w'.globalAllow, []));
    } else if IsInAllowList(domain, AllowsOf(p)) {
      AllowListGrows(domain, AllowsOf(p), AllowsOf(p'));
    }
  }

  /** More blocklist entries or blocked categories never turn a blocked query into a forwarded one. */
  lemma BlockingMoreNeverForwards(domain: string, w: World, w': World)
    requires w' == w.(ouPolicy := w'.ouPolicy, subnetPolicy := w'.subnetPolicy,
                      networkPolicy := w'.networkPolicy, blocklist := w'.blocklist)
    requires BlocksMore(w.ouPolicy, w'.ouPolicy) && BlocksMore(w.subnetPolicy, w'.subnetPolicy)
    requires BlocksMore(w.networkPolicy, w'.networkPolicy)
    requires w.blocklist <= w'.blocklist
    requires Verdict(domain, PolicyOf(w), w).Some?
    ensures Verdict(domain, PolicyOf(w'), w').Some?
  {
    hide Exempt, Objection, PolicyOf, BlocksMore;
    var p, p' := PolicyOf(w), PolicyOf(w');
    ChosenBlocksMore(w, w');
    ObjectionGrows(domain, p, p', w, w');
  }

  lemma ChosenBlocksMore(w: World, w': World)
    requires w' == w.(ouPolicy := w'.ouPolicy, subnetPolicy := w'.subnetPolicy,
                      networkPolicy := w'.networkPolicy, blocklist := w'.blocklist)
    requires BlocksMore(w.ouPolicy, w'.ouPolicy) && BlocksMore(w.subnetPolicy, w'.subnetPolicy)
    requires BlocksMore(w.networkPolicy, w'.networkPolicy)
    ensures BlocksMore(Resolved(PolicyOf(w)), Resolved(PolicyOf(w')))
  {
  }

  lemma ObjectionGrows(domain: string, p: Option<Policy>, p': Option<Policy>, w: World, w': World)
    requires w' == w.(ouPolicy := w'.ouPolicy, subnetPolicy := w'.subnetPolicy,
                      networkPolicy := w'.networkPolicy, blocklist := w'.blocklist)
    requires BlocksMore(Resolved(p), Resolved(p')) && w.blocklist <= w'.blocklist
    ensures Exempt(domain, p, w) == Exempt(domain, p', w')
    ensures Objection(domain, p, w).Some? ==> Objection(domain, p', w').Some?
  {
    hide IsInAllowList, DomainsToCheck, FirstCategory;
    assert ModeOf(p) == ModeOf(p') && AllowsOf(p) == AllowsOf(p');
    assert Covers(BlockedCatsOf(p), BlockedCatsOf(p'));
  }

  // ---- identity ------------------------------------------------------------------------

  /** The two worlds agree on everything but who asks and which policies are theirs. */
  ghost predicate SameNetwork(w: World, w': World) {
    w' == w.(device := w'.device, ouPolicy := w'.ouPolicy, subnetPolicy := w'.subnetPolicy)
  }

  /** A known student whose own policy is not a lesson or penalty box. */
  ghost predicate OrdinaryStudent(w: World) {
    WhoOf(w).studentId != "" && !FullNetworkOverride(Or(w.ouPolicy, None))
  }

  /** Ordinary students are judged by the network floor alone, whatever their policy or subnet's. */
  lemma OrdinaryStudentsSeeTheFloor(domain: string, w: World, w': World)
    requires SameNetwork(w, w') && OrdinaryStudent(w) && OrdinaryStudent(w')
    ensures Verdict(domain, PolicyOf(w), w) == Verdict(domain, Or(w.networkPolicy, None), w)
    ensures Verdict(domain, PolicyOf(w'), w') == Verdict(domain, PolicyOf(w), w)
  {
    var p := Or(w.networkPolicy, None);
    assert PolicyOf(w) == PolicyOf(w') == p;
    assert SafetyObjection(domain, p, w) == SafetyObjection(domain, p, w');
  }

  /** So two ordinary students get the same answers for the same query. */
  lemma OrdinaryStudentsGetTheSameAnswers(q: Query, w: World, w': World, cache: Cache)
    requires SameNetwork(w, w') && OrdinaryStudent(w) && OrdinaryStudent(w')
    ensures Resolution(q, w', cache).result == Resolution(q, w, cache).result
    ensures Resolution(q, w', cache).cache == Resolution(q, w, cache).cache
  {
    OrdinaryStudentsSeeTheFloor(DomainOf(q), w, w');
    SameNetworkSameAnswers(q, w, w', cache);
    var verdict := Verdict(DomainOf(q), PolicyOf(w), w);
    if verdict.Some? {
      assert Refused(q, w, verdict.value, cache).result == Refused(q, w', verdict.value, cache).result;
    }
  }

  lemma SameNetworkSameAnswers(q: Query, w: World, w': World, cache: Cache)
    requires SameNetwork(w, w')
    ensures Infrastructure(q, w, cache) == Infrastructure(q, w', cache)
    ensures Fetch(DomainOf(q), q.typeNum, w, cache) == Fetch(DomainOf(q), q.typeNum, w', cache)
    ensures Or(w.dryRun, false) == Or(w'.dryRun, false)
  {
  }

  // ---- whose policy governs ------------------------------------------------------------------

  /** A device without a student is governed by its subnet's policy alone: the network policy and
      any other may be what they like. */
  lemma {:induction false} SubnetGovernsUnknownDevices(q: Query, w: World, w': World, cache: Cache)
    requires WhoOf(w).studentId == "" && Or(w.subnetPolicy, None).Some?
    requires w' == w.(networkPolicy := w'.networkPolicy, ouPolicy := w'.ouPolicy)
    ensures Resolution(q, w', cache) == Resolution(q, w, cache)
    ensures Verdict(DomainOf(q), PolicyOf(w), w) == Verdict(DomainOf(q), Or(w.subnetPolicy, None), w)
  {
    SamePolicySameResolution(q, w, w', cache);
  }

  /** Without a subnet policy it is governed by the network floor alone. */
  lemma {:induction false} FloorGovernsTheRest(q: Query, w: World, w': World, cache: Cache)
    requires WhoOf(w).studentId == "" && Or(w.subnetPolicy, None).None?
    requires w' == w.(ouPolicy := w'.ouPolicy)
    ensures Resolution(q, w', cache) == Resolution(q, w, cache)
    ensures Verdict(DomainOf(q), PolicyOf(w), w) == Verdict(DomainOf(q), Or(w.networkPolicy, None), w)
  {
    SamePolicySameResolution(q, w, w', cache);
  }

  /** A known student in a lesson or penalty box is governed by the own policy alone. */
  lemma {:induction false} LessonGovernsItsStudents(q: Query, w: World, w': World, cache: Cache)
    requires WhoOf(w).studentId != "" && Or(w.ouPolicy, None).Some?
    requires Or(w.ouPolicy, None).value.mode in {Some(Lesson), Some(PenaltyBox)}
    requires w' == w.(networkPolicy := w'.networkPolicy, subnetPolicy := w'.subnetPolicy)
    ensures Resolution(q, w', cache) == Resolution(q, w, cache)
    ensures Verdict(DomainOf(q), PolicyOf(w), w) == Verdict(DomainOf(q), Or(w.ouPolicy, None), w)
  {
    SamePolicySameResolution(q, w, w', cache);
  }

  lemma SamePolicySameResolution(q: Query, w: World, w': World, cache: Cache)
    requires w' == w.(networkPolicy := w'.networkPolicy, ouPolicy := w'.ouPolicy, subnetPolicy := w'.subnetPolicy)
    requires PolicyOf(w') == PolicyOf(w)
    ensures Resolution(q, w', cache) == Resolution(q, w, cache)
  {
    hide PolicyOf, Infrastructure, Fetch, Verdict;
    SameNetworkSameAnswersFor(q, w, w', cache);
    SamePolicySameVerdict(DomainOf(q), PolicyOf(w), w, w');
    assert WhoOf(w') == WhoOf(w);
  }

  lemma SamePolicySameVerdict(domain: string, p: Option<Policy>, w: World, w': World)
    requires w' == w.(networkPolicy := w'.networkPolicy, ouPolicy := w'.ouPolicy, subnetPolicy := w'.subnetPolicy)
    ensures Verdict(domain, p, w') == Verdict(domain, p, w)
  {
    hide Listed, FirstCategory, IsInAllowList, DomainsToCheck;
    assert SafetyObjection(domain, p, w) == SafetyObjection(domain, p, w');
  }

  lemma SameNetworkSameAnswersFor(q: Query, w: World, w': World, cache: Cache)
    requires w' == w.(networkPolicy := w'.networkPolicy, ouPolicy := w'.ouPolicy, subnetPolicy := w'.subnetPolicy)
    ensures Infrastructure(q, w, cache) == Infrastructure(q, w', cache)
    ensures Fetch(DomainOf(q), q.typeNum, w, cache) == Fetch(DomainOf(q), q.typeNum, w', cache)
  {
  }

  /** Queries for names that differ in the case of ASCII letters only are answered and logged alike. */
  lemma {:induction false} QueriesIgnoreCase(q: Query, name: string, w: World, cache: Cache)
    requires SameButCase(q.name, name)
    ensures Resolution(q.(name := name), w, cache) == Resolution(q, w, cache)
  {
    LowerForgetsCase(q.name, name);
    assert DomainOf(q.(name := name)) == DomainOf(q);
    hide DomainOf;
    SameDomainSameResolution(q, name, w, cache);
  }

  /** A trailing dot of the queried name never matters. */
  lemma {:induction false} QueriesIgnoreTrailingDot(q: Query, w: World, cache: Cache)
    requires !EndsWith(q.name, ".")
    ensures Resolution(q.(name := q.name + "."), w, cache) == Resolution(q, w, cache)
  {
    hide Lower, StripDot, Infrastructure, Verdict, PolicyOf, Fetch;
    TrailingDotNeverMatters(q.name);
    assert DomainOf(q.(name := q.name + ".")) == DomainOf(q);
    SameDomainSameResolution(q, q.name + ".", w, cache);
  }

  lemma SameDomainSameResolution(q: Query, name: string, w: World, cache: Cache)
    requires DomainOf(q.(name := name)) == DomainOf(q)
    ensures Resolution(q.(name := name), w, cache) == Resolution(q, w, cache)
  {
    hide DomainOf, Verdict, PolicyOf, Fetch;
  }

  /** A missing policy is one of standard mode without lists, and a missing mode is standard. */
  lemma {:induction false} MissingIsStandard(domain: string, p: Policy, w: World)
    ensures Verdict(domain, None, w) == Verdict(domain, Some(Policy(Some(Standard), "", [], "allow", [])), w)
    ensures Verdict(domain, Some(p.(mode := None)), w) == Verdict(domain, Some(p.(mode := Some(Standard))), w)
  {
    hide IsInAllowList, Listed, FirstCategory, DomainsToCheck;
    var standard := Some(Policy(Some(Standard), "", [], "allow", []));
    assert SafetyObjection(domain, None, w) == SafetyObjection(domain, standard, w);
    assert SafetyObjection(domain, Some(p.(mode := None)), w) == SafetyObjection(domain, Some(p.(mode := Some(Standard))), w);
  }

  // ---- before the filter -----------------------------------------------------------------------

  /** A local record answers whatever the filter and the zones would say: it alone decides the
      result, the log names nobody, and nothing is cached. */
  lemma {:induction false} LocalRecordsDecideAlone(q: Query, w: World, w': World, cache: Cache, local: seq<Answer>)
    requires w.localAnswers == Resolved(Some(local)) && w'.localAnswers == w.localAnswers
    ensures Resolution(q, w', cache) == Resolution(q, w, cache)
    ensures var o := Resolution(q, w, cache);
            && o.result == Result(Allowed, local, None) && o.cache == cache
            && o.log == [LogEntry(DomainOf(q), LocalAnswer, q.sourceIp, Device("", "", ""), "", None, None, false)]
  {
  }

  /** Zone i is the first whose domain is the name or above it. */
  predicate FirstZone(domain: string, zones: seq<Zone>, i: nat) {
    && i < |zones| && Under(domain, zones[i].domain)
    && forall j :: 0 <= j < i ==> !Under(domain, zones[j].domain)
  }

  lemma {:induction false} FindZoneIsFirst(domain: string, zones: seq<Zone>) returns (i: nat)
    ensures FindZone(domain, zones).Some? ==> FirstZone(domain, zones, i) && FindZone(domain, zones).value == zones[i]
    ensures FindZone(domain, zones).None? ==> forall j :: 0 <= j < |zones| ==> !Under(domain, zones[j].domain)
  {
    i := 0;
    if zones != [] && !ZoneMatches(domain, zones[0]) {
      var later := FindZoneIsFirst(domain, zones[1..]);
      i := later + 1;
      assert forall j :: 1 <= j < |zones| ==> zones[j] == zones[1..][j - 1];
    }
  }

  /** Without a local record the first matching zone's resolver answers, unfiltered, unlogged and
      uncached. */
  lemma {:induction false} ZonesBypassTheFilter(q: Query, w: World, cache: Cache, zones: seq<Zone>, i: nat)
    requires w.localAnswers in {Rejected, Resolved(None)} && w.forwardZones == Resolved(zones)
    requires FirstZone(DomainOf(q), zones, i)
    ensures var reply := w.zoneReply(zones[i].forwardTo);
            Resolution(q, w, cache) == Outcome(Result(Allowed, if reply.Some? then reply.value else [], None), [], cache)
  {
    var k := FindZoneIsFirst(DomainOf(q), zones);
    assert k == i;
  }

  // ---- what is answered and logged ---------------------------------------------------------------

  /** The query reaches the filter: no local record and no zone for it. */
  ghost predicate Filtered(q: Query, w: World) {
    && w.localAnswers in {Rejected, Resolved(None)}
    && (w.forwardZones.Resolved? ==>
          forall j :: 0 <= j < |w.forwardZones.value| ==> !Under(DomainOf(q), w.forwardZones.value[j].domain))
  }

  /** What upstream makes of a name that is not cached: failed, empty, or answered, by rcode (2 server
      failure, 3 no such name, 5 refused). */
  lemma {:induction false} UpstreamMeans(domain: string, typeNum: nat, w: World, cache: Cache)
    ensures var f := Fetch(domain, typeNum, w, cache);
            if (domain, typeNum) in cache then f == Fetched(Some(cache[(domain, typeNum)]), true, cache)
            else match w.upstream
              case None => f == Fetched(None, false, cache)
              case Some(reply) =>
                && !f.hit
                && (f.answers.None? <==> reply.rcode == 2 || reply.rcode == 3 || reply.rcode == 5
                                         || (reply.answers != [] && !w.cacheWritable))
                && (f.answers.Some? ==> f.answers.value == reply.answers)
                && f.cache == (if f.answers.Some? && reply.answers != [] then cache[(domain, typeNum) := reply.answers] else cache)
  {
  }

  /** The one log entry of an outcome names the query, the device found for its address and the
      session of the governing policy, and tells what was answered. */
  ghost predicate LogTells(q: Query, w: World, cache: Cache, o: Outcome) {
    && |o.log| == 1
    && var e := o.log[0];
       && e.action == o.result.action
       && e.domain == DomainOf(q) && e.sourceIp == q.sourceIp
       && e.lessonSessionId == (if PolicyOf(w).Some? then PolicyOf(w).value.lessonSessionId else "")
       && e.who == (if w.device.Resolved? && w.device.value.Some? then w.device.value.value else Device("", "", ""))
       && (e.dryRun <==> e.action == DryRunBlocked)
       && (e.cacheHit.Some? <==> e.action == Allowed)
       && (e.action == Allowed ==> e.cacheHit == Some((DomainOf(q), q.typeNum) in cache) && e.blockReason == None)
       && (e.action == Blocked ==> e.blockReason == o.result.blockReason && e.blockReason.Some? && o.result.answers == [])
       && (e.action == DryRunBlocked ==> o.result.blockReason == None && w.dryRun == Resolved(true))
  }

  lemma ForwardedTells(q: Query, w: World, cache: Cache)
    ensures LogTells(q, w, cache, Forwarded(q, w, cache))
  {
    hide DomainOf, PolicyOf;
    UpstreamMeans(DomainOf(q), q.typeNum, w, cache);
  }

  lemma RefusedTells(q: Query, w: World, reason: BlockReason, cache: Cache)
    ensures LogTells(q, w, cache, Refused(q, w, reason, cache))
  {
    hide DomainOf, PolicyOf, Fetch;
  }

  lemma {:induction false} OneTrueLogEntry(q: Query, w: World, cache: Cache)
    requires Filtered(q, w)
    ensures LogTells(q, w, cache, Resolution(q, w, cache))
  {
    hide Verdict, DomainOf, Infrastructure, PolicyOf, LogTells, Forwarded, Refused;
    FilteredIsNoInfrastructure(q, w, cache);
    ForwardedTells(q, w, cache);
    var verdict := Verdict(DomainOf(q), PolicyOf(w), w);
    if verdict.Some? {
      RefusedTells(q, w, verdict.value, cache);
    }
  }

  lemma {:induction false} FilteredIsNoInfrastructure(q: Query, w: World, cache: Cache)
    requires Filtered(q, w)
    ensures Infrastructure(q, w, cache).None?
  {
    var k := FindZoneIsFirst(DomainOf(q), Or(w.forwardZones, []));
  }

  /** A filtered query without objection is answered with what the cache or upstream has, and only
      an unresolvable name is refused. */
  lemma {:induction false} ForwardedTruly(q: Query, w: World, cache: Cache)
    requires Filtered(q, w) && Verdict(DomainOf(q), PolicyOf(w), w).None?
    ensures var f := Fetch(DomainOf(q), q.typeNum, w, cache);
            Resolution(q, w, cache).cache == f.cache
            && Resolution(q, w, cache).result == match f.answers
                                                 case Some(found) => Result(Allowed, found, None)
                                                 case None => Result(Blocked, [], Some(Unresolvable))
  {
    hide DomainOf, Infrastructure, PolicyOf, Fetch, Verdict;
    FilteredIsNoInfrastructure(q, w, cache);
  }

  /** A filtered query with an objection is refused, uncached, with that reason, or under dry-run
      marked with it and answered. */
  lemma {:induction false} RefusedTruly(q: Query, w: World, cache: Cache, reason: BlockReason)
    requires Filtered(q, w) && Verdict(DomainOf(q), PolicyOf(w), w) == Some(reason)
    ensures |Resolution(q, w, cache).log| == 1 && Resolution(q, w, cache).log[0].blockReason == Some(reason)
    ensures w.dryRun == Resolved(true) ==> Resolution(q, w, cache).result.action == DryRunBlocked
    ensures w.dryRun != Resolved(true) ==>
              Resolution(q, w, cache).result == Result(Blocked, [], Some(reason)) && Resolution(q, w, cache).cache == cache
  {
    hide DomainOf, Infrastructure, PolicyOf, Fetch, Verdict;
    FilteredIsNoInfrastructure(q, w, cache);
  }

  /** Exactly who is exempt: a name on the global or the policy's own allow list, open mode, and
      standard mode, spelled out or missing, with a usable override code. */
  lemma {:induction false} ExemptExactly(domain: string, p: Option<Policy>, w: World)
    ensures Exempt(domain, p, w) <==>
              || (w.globalAllow.Resolved? && IsInAllowList(domain, w.globalAllow.value))
              || (p.Some? && IsInAllowList(domain, p.value.allowDomains))
              || (p.Some? && p.value.mode == Some(Open))
              || ((p.Some? ==> p.value.mode in {None, Some(Standard)}) && w.hasOverride == Resolved(true))
    ensures Exempt(domain, p, w) ==> Verdict(domain, p, w).None?
  {
    hide Under, Lower;
    assert !IsInAllowList(domain, []);
  }

  /** Each objection of the filter has its own reason, the strongest one, and without any the query
      is forwarded. */
  lemma {:induction false} ReasonExactly(domain: string, p: Option<Policy>, w: World)
    requires !Exempt(domain, p, w)
    ensures var mode := if p.Some? && p.value.mode.Some? then p.value.mode.value else Standard;
            var denies := mode == Standard && p.Some? && p.value.defaultAction == "block";
            var category := FirstCategory(DomainsToCheck(domain), w.categories, w.categoryErrors);
            var unknown := !w.blocklistUp && |DomainsToCheck(domain)| > 0;
            var listed := w.blocklistUp && Listed(domain, w.blocklist, w.blocklistErrors);
            match Verdict(domain, p, w)
            case Some(PenaltyBoxMode) => mode == PenaltyBox
            case Some(LessonMode) => mode == Lesson
            case Some(DefaultDeny) => denies
            case Some(OnBlocklist) => mode !in {PenaltyBox, Lesson} && !denies && listed
            case Some(SafetyCheckUnavailable) =>
              mode !in {PenaltyBox, Lesson} && !denies && (unknown || (!listed && !w.categoryUp && |DomainsToCheck(domain)| > 0))
            case Some(InCategory(c)) =>
              && mode !in {PenaltyBox, Lesson} && !denies && !unknown && !listed
              && category == Some(c) && p.Some? && c in p.value.blockedCategories
            case Some(Unresolvable) => false
            case None =>
              && mode !in {PenaltyBox, Lesson} && !denies && !unknown && !listed
              && (category.Some? && p.Some? ==> category.value !in p.value.blockedCategories)
  {
    hide FirstCategory, IsInAllowList;
  }

  // ---- session tags ----------------------------------------------------------------------------

  /** The comment at resolver.js:110-113 promises the session tag of any active session that
      covers the student; the code takes it from the policy it enforces. A known student in a
      lesson or penalty box is logged with the own session, any other with the floor's. So above a
      floor without a session the own session is logged exactly when its mode is enforced or
      there is none. */
  lemma SessionTagOfStudent(q: Query, w: World, cache: Cache)
    requires WhoOf(w).studentId != ""
    ensures SessionOf(PolicyOf(w)) == SessionOf(Or(w.ouPolicy, None))
        <==> || FullNetworkOverride(Or(w.ouPolicy, None))
             || SessionOf(Or(w.networkPolicy, None)) == SessionOf(Or(w.ouPolicy, None))
    ensures Infrastructure(q, w, cache).None? ==>
              var own, floor := Or(w.ouPolicy, None), Or(w.networkPolicy, None);
              var log := Resolution(q, w, cache).log;
              && |log| == 1
              && log[0].lessonSessionId == SessionOf(if FullNetworkOverride(own) then own else floor)
              && (SessionOf(floor) == "" ==>
                    (log[0].lessonSessionId == SessionOf(own) <==> FullNetworkOverride(own) || SessionOf(own) == ""))
  {
    hide Verdict, Fetch, Infrastructure;
  }

  /** A monitor-only session: mode standard, a session id, and a log entry without it. */
  lemma MonitorOnlySessionLosesItsTag(q: Query, w: World, cache: Cache)
    requires w.device == Resolved(Some(Device("s1", "d1", "")))
    requires w.ouPolicy == Resolved(Some(Policy(Some(Standard), "class-7", [], "allow", [])))
    requires w.networkPolicy == Resolved(Some(Policy(Some(Standard), "", [], "allow", [])))
    requires Infrastructure(q, w, cache).None?
    ensures |Resolution(q, w, cache).log| == 1 && Resolution(q, w, cache).log[0].lessonSessionId == ""
  {
    assert WhoOf(w).studentId != "";
    assert PolicyOf(w) == w.networkPolicy.value;
  }

  // ---- fail closed -----------------------------------------------------------------------

  /** A mode under which an unexempted query is decided by the safety lookups. */
  ghost predicate LeftToTheLookups(p: Option<Policy>) {
    && ModeOf(p) !in {Lesson, PenaltyBox}
    && !(ModeOf(p) == Standard && p.Some? && p.value.defaultAction == "block")
  }

  /** With either lookup rejected nothing reaches upstream unexempted; but command errors under
      live pipelines forward a listed name exactly when they cover all of its listed parents and
      leave no blocked category. */
  lemma FailsClosedOnlyOnRejection(domain: string, p: Option<Policy>, w: World)
    ensures |DomainsToCheck(domain)| > 0 && !(w.blocklistUp && w.categoryUp) && Verdict(domain, p, w).None? ==> Exempt(domain, p, w)
    ensures var category := FirstCategory(DomainsToCheck(domain), w.categories, w.categoryErrors);
            w.blocklistUp && w.categoryUp && !Exempt(domain, p, w) && LeftToTheLookups(p) && Listed(domain, w.blocklist, {})
            ==> (Verdict(domain, p, w).None?
                 <==> && !(category.Some? && category.value in BlockedCatsOf(p))
                      && forall d :: d in w.blocklist && '.' in d && Under(StripDot(Lower(domain)), d) ==> d in w.blocklistErrors)
  {
    if Listed(domain, w.blocklist, {}) {
      CommandErrorsFailOpen(domain, w.blocklist, w.blocklistErrors);
    }
  }
}
