/** Automatic promotion of a standby: the quorum vote on the primary and the grace-period
    countdown that must run unbroken before an attempt. */
module AutoPromote {
  import opened Wrappers

  // ---- the vote ---------------------------------------------------------------------------

  /** How one peer's ballot comes back: not at all, as null, as a boolean, or as anything else. */
  datatype Ballot = NoAnswer | NullAnswer | Reachable | Unreachable | OtherAnswer

  datatype Probe = Probe(primaryKnown: bool, selfReachable: bool, peers: seq<Ballot>)

  function Responded(peers: seq<Ballot>): seq<Ballot> {
    if peers == [] then []
    else (if peers[0].NoAnswer? || peers[0].NullAnswer? then [] else [peers[0]]) + Responded(peers[1..])
  }

  function CountDown(ballots: seq<Ballot>): nat {
    if ballots == [] then 0 else (if ballots[0].Unreachable? then 1 else 0) + CountDown(ballots[1..])
  }

  /** `isPrimaryReachableByQuorum`: true also means "don't know". */
  function PrimaryLooksUp(p: Probe): bool {
    if !p.primaryKnown then true
    else if |p.peers| == 0 then p.selfReachable
    else
      var responded := Responded(p.peers);
      if |responded| == 0 then p.selfReachable
      else
        var unreachableVotes := CountDown(responded) + (if p.selfReachable then 0 else 1);
        var totalVotes := |responded| + 1;
        2 * unreachableVotes <= totalVotes
  }

  function Count(peers: seq<Ballot>, b: Ballot): nat {
    if peers == [] then 0 else (if peers[0] == b then 1 else 0) + Count(peers[1..], b)
  }

  lemma {:induction false} RespondedCounts(peers: seq<Ballot>)
    ensures |Responded(peers)| == Count(peers, Reachable) + Count(peers, Unreachable) + Count(peers, OtherAnswer)
    ensures CountDown(Responded(peers)) == Count(peers, Unreachable)
  {
    if peers != [] {
      RespondedCounts(peers[1..]);
      var head := if peers[0].NoAnswer? || peers[0].NullAnswer? then [] else [peers[0]];
      if head != [] {
        assert (head + Responded(peers[1..]))[1..] == Responded(peers[1..]);
      } else {
        assert head + Responded(peers[1..]) == Responded(peers[1..]);
      }
    }
  }

  /** Down means: a primary is known, and either nobody else answered and the own probe failed,
      or strictly more "unreachable" voices (own one included) than all other voices together. */
  lemma {:induction false} VoteSaysDown(p: Probe)
    ensures var down, rest := Count(p.peers, Unreachable), Count(p.peers, Reachable) + Count(p.peers, OtherAnswer);
            !PrimaryLooksUp(p) <==>
              && p.primaryKnown
              && if down + rest == 0 then !p.selfReachable
                 else if p.selfReachable then down > rest + 1
                 else down + 1 > rest
  {
    RespondedCounts(p.peers);
  }

  /** The comment at ha.js:201-204 wants a strict majority of the OTHER nodes; the code counts
      this node's own vote too. With answers in, the two readings part exactly on the two ties
      that the own vote decides. */
  lemma {:induction false} OwnVoteDecidesTies(p: Probe)
    requires p.primaryKnown
    requires Count(p.peers, Unreachable) + Count(p.peers, Reachable) + Count(p.peers, OtherAnswer) > 0
    ensures var down, rest := Count(p.peers, Unreachable), Count(p.peers, Reachable) + Count(p.peers, OtherAnswer);
            (!PrimaryLooksUp(p) <==> down > rest)
            <==> (!(down == rest && !p.selfReachable) && !(down == rest + 1 && p.selfReachable))
  {
    VoteSaysDown(p);
  }

  // ---- the countdown --------------------------------------------------------------------------

  /** One heartbeat: either it never reaches `maybeAutoPromote` (the recovery query failed), or
      it evaluates with these readings. `seenAt` and `now` are the two clock reads in order. */
  datatype Tick =
    | Skipped
    | Evaluated(enabled: bool, master: bool, probe: Probe, seenAt: int, now: int, graceSetting: Option<int>)

  /** What an evaluation does to the countdown between two awaits: clear it, start it unless it
      is running, or, once the grace period is read, measure it. */
  datatype Step = Reset | Arm(seenAt: int) | Fire(now: int, graceSetting: Option<int>)

  /** Where the countdown is measured from: `Date.now() - null` is the whole clock reading. */
  function Origin(since: Option<int>): int { if since.None? then 0 else since.value }

  predicate Fires(since: Option<int>, s: Step) {
    s.Fire? && s.now - Origin(since) >= GraceMs(s.graceSetting)
  }

  /** The countdown after a step (a zero timestamp reads as unset). */
  function After(since: Option<int>, s: Step): Option<int> {
    match s
    case Reset => None
    case Arm(seenAt) => if Origin(since) == 0 then Some(seenAt) else since
    case Fire(_, _) => if Fires(since, s) then None else since
  }

  function AfterAll(since: Option<int>, steps: seq<Step>): Option<int>
    decreases |steps|
  {
    if steps == [] then since else AfterAll(After(since, steps[0]), steps[1..])
  }

  lemma {:induction false} AfterAllConcat(since: Option<int>, a: seq<Step>, b: seq<Step>)
    ensures AfterAll(since, a + b) == AfterAll(AfterAll(since, a), b)
    decreases |a|
  {
    if a == [] {
      assert a + b == b;
    } else {
      AfterAllConcat(After(since, a[0]), a[1..], b);
      assert (a + b)[1..] == a[1..] + b;
    }
  }

  /** The steps of other evaluations while this one awaits the setting, the VRRP state, the
      quorum and the grace period. */
  datatype Meanwhile = Meanwhile(setting: seq<Step>, vrrp: seq<Step>, quorum: seq<Step>, grace: seq<Step>)

  const ALONE := Meanwhile([], [], [], [])

  /** All steps from the start of an evaluation to just before its last own one. */
  function StepsBefore(t: Tick, others: Meanwhile): seq<Step>
    requires t.Evaluated?
  {
    if !t.enabled then others.setting
    else if !t.master then others.setting + others.vrrp
    else if PrimaryLooksUp(t.probe) then others.setting + others.vrrp + others.quorum
    else others.setting + others.vrrp + others.quorum + [Arm(t.seenAt)] + others.grace
  }

  /** The last own step of an evaluation. */
  function LastStep(t: Tick): Step
    requires t.Evaluated?
  {
    if Candidate(t) then Fire(t.now, t.graceSetting) else Reset
  }

  /** `(parseInt(value, 10) || 300) * 1000` */
  function GraceMs(setting: Option<int>): int {
    (if setting.None? || setting.value == 0 then 300 else setting.value) * 1000
  }

  /** The three conditions of a promotion candidate. */
  predicate Candidate(t: Tick) {
    t.Evaluated? && t.enabled && t.master && !PrimaryLooksUp(t.probe)
  }

  /** The start of the countdown after a candidate evaluation (a zero timestamp reads as unset). */
  function Since(since: Option<int>, t: Tick): int
    requires t.Evaluated?
  {
    if since.None? || since.value == 0 then t.seenAt else since.value
  }

  predicate Attempts(since: Option<int>, t: Tick) {
    Candidate(t) && t.now - Since(since, t) >= GraceMs(t.graceSetting)
  }

  function Next(since: Option<int>, t: Tick): Option<int> {
    if t.Skipped? then since
    else if !Candidate(t) || Attempts(since, t) then None
    else Some(Since(since, t))
  }

  /** Alone, an evaluation is one step from countdown to countdown. */
  lemma AloneIsOneStep(since: Option<int>, t: Tick)
    requires t.Evaluated?
    ensures var before := AfterAll(since, StepsBefore(t, ALONE));
            After(before, LastStep(t)) == Next(since, t) && (Fires(before, LastStep(t)) <==> Attempts(since, t))
  {
    hide PrimaryLooksUp;
    if Candidate(t) {
      assert StepsBefore(t, ALONE) == [Arm(t.seenAt)];
      assert AfterAll(since, [Arm(t.seenAt)]) == AfterAll(After(since, Arm(t.seenAt)), []);
    }
  }

  class Standby {
    var autoPromoteCandidateSince: Option<int>

    constructor ()
      ensures autoPromoteCandidateSince == None
    {
      autoPromoteCandidateSince := None;
    }

    /** Other evaluations run while this one awaits. */
    method Await(others: seq<Step>)
      modifies this
      ensures autoPromoteCandidateSince == AfterAll(old(autoPromoteCandidateSince), others)
    {
      var k := 0;
      while k < |others|
        invariant 0 <= k <= |others|
        invariant AfterAll(autoPromoteCandidateSince, others[k..]) == AfterAll(old(autoPromoteCandidateSince), others)
      {
        assert others[k..][1..] == others[k + 1..];
        autoPromoteCandidateSince := After(autoPromoteCandidateSince, others[k]);
        k := k + 1;
      }
    }

    /** Whatever other evaluations do at each await: the countdown and the attempt are those of
        all steps in order. Without others they are one step of a serial run. */
    method MaybeAutoPromote(t: Tick, others: Meanwhile) returns (promoting: bool)
      requires t.Evaluated?
      modifies this
      ensures var before := AfterAll(old(autoPromoteCandidateSince), StepsBefore(t, others));
              promoting == Fires(before, LastStep(t)) && autoPromoteCandidateSince == After(before, LastStep(t))
      ensures others == ALONE ==> promoting == Attempts(old(autoPromoteCandidateSince), t)
                                  && autoPromoteCandidateSince == Next(old(autoPromoteCandidateSince), t)
    {
      hide AfterAll, PrimaryLooksUp;
      ghost var start := autoPromoteCandidateSince;
      AloneIsOneStep(start, t);
      Await(others.setting);
      if !t.enabled {
        autoPromoteCandidateSince := None;
        return false;
      }
      AfterAllConcat(start, others.setting, others.vrrp);
      Await(others.vrrp);
      if !t.master {
        autoPromoteCandidateSince := None;
        return false;
      }
      AfterAllConcat(start, others.setting + others.vrrp, others.quorum);
      Await(others.quorum);
      var primaryLooksUp := PrimaryLooksUp(t.probe);
      if primaryLooksUp {
        autoPromoteCandidateSince := None;
        return false;
      }
      ghost var seen := others.setting + others.vrrp + others.quorum;
      AfterOne(start, seen, Arm(t.seenAt));
      if autoPromoteCandidateSince.None? || autoPromoteCandidateSince.value == 0 {
        autoPromoteCandidateSince := Some(t.seenAt);
      }
      AfterAllConcat(start, seen + [Arm(t.seenAt)], others.grace);
      Await(others.grace);
      var graceMs := (if t.graceSetting.None? || t.graceSetting.value == 0 then 300 else t.graceSetting.value) * 1000;
      var elapsed := t.now - (if autoPromoteCandidateSince.None? then 0 else autoPromoteCandidateSince.value);
      if elapsed < graceMs {
        return false;
      }
      autoPromoteCandidateSince := None;
      return true;
    }

    method OnHeartbeat(t: Tick, others: Meanwhile) returns (promoting: bool)
      modifies this
      ensures t.Skipped? ==> !promoting && autoPromoteCandidateSince == old(autoPromoteCandidateSince)
      ensures t.Evaluated? ==>
                var before := AfterAll(old(autoPromoteCandidateSince), StepsBefore(t, others));
                promoting == Fires(before, LastStep(t)) && autoPromoteCandidateSince == After(before, LastStep(t))
      ensures others == ALONE ==> promoting == Attempts(old(autoPromoteCandidateSince), t)
                                  && autoPromoteCandidateSince == Next(old(autoPromoteCandidateSince), t)
    {
      promoting := false;
      if t.Evaluated? {
        promoting := MaybeAutoPromote(t, others);
      }
    }
  }

  lemma AfterOne(since: Option<int>, steps: seq<Step>, s: Step)
    ensures AfterAll(since, steps + [s]) == After(AfterAll(since, steps), s)
  {
    AfterAllConcat(since, steps, [s]);
    assert AfterAll(AfterAll(since, steps), [s]) == AfterAll(After(AfterAll(since, steps), s), []);
  }

  // ---- runs of overlapping evaluations ------------------------------------------------------------

  /** A step and the evaluation it belongs to. */
  datatype Event = Event(eval: nat, step: Step)

  /** The countdown after the first n events. */
  function Countdown(run: seq<Event>, n: nat): Option<int>
    requires n <= |run|
  {
    if n == 0 then None else After(Countdown(run, n - 1), run[n - 1].step)
  }

  predicate AttemptIn(run: seq<Event>, n: nat)
    requires n < |run|
  {
    Fires(Countdown(run, n), run[n].step)
  }

  /** An evaluation resets once, or arms and then, perhaps, fires. */
  ghost predicate Interleaving(run: seq<Event>) {
    && (forall i, j :: 0 <= i < j < |run| && run[i].eval == run[j].eval ==> run[i].step.Arm? && run[j].step.Fire?)
    && (forall j :: 0 <= j < |run| && run[j].step.Fire? ==> exists i :: 0 <= i < j && run[i].eval == run[j].eval)
  }

  /** Event k ends the countdown. */
  predicate Ends(run: seq<Event>, k: nat)
    requires k < |run|
  {
    run[k].step.Reset? || AttemptIn(run, k)
  }

  ghost predicate Undisturbed(run: seq<Event>, m: nat, n: nat)
    requires n <= |run|
  {
    forall k :: m < k < n ==> !Ends(run, k)
  }

  /** An attempt that a countdown backs: armed at least the grace period before, and neither a
      reset nor an attempt since. */
  ghost predicate BackedFrom(run: seq<Event>, m: nat, n: nat)
    requires m < n < |run| && run[n].step.Fire?
  {
    && run[m].step.Arm? && Undisturbed(run, m, n)
    && run[n].step.now - run[m].step.seenAt >= GraceMs(run[n].step.graceSetting)
  }

  ghost predicate Backed(run: seq<Event>, n: nat)
    requires n < |run| && run[n].step.Fire?
  {
    exists m :: 0 <= m < n && BackedFrom(run, m, n)
  }

  function LatestArm(run: seq<Event>, n: nat): (m: Option<nat>)
    requires n <= |run|
    ensures m.Some? ==> m.value < n && run[m.value].step.Arm? && forall k :: m.value < k < n ==> !run[k].step.Arm?
    ensures m.None? ==> forall k :: 0 <= k < n ==> !run[k].step.Arm?
  {
    if n == 0 then None else if run[n - 1].step.Arm? then Some(n - 1) else LatestArm(run, n - 1)
  }

  /** Nothing has ended the countdown since the latest arming. */
  ghost predicate Running(run: seq<Event>, n: nat)
    requires n <= |run|
  {
    LatestArm(run, n).Some? && Undisturbed(run, LatestArm(run, n).value, n)
  }

  ghost predicate ArmsAfterEpoch(run: seq<Event>) {
    forall k :: 0 <= k < |run| && run[k].step.Arm? ==> run[k].step.seenAt > 0
  }

  ghost predicate ArmsInOrder(run: seq<Event>) {
    forall j, k :: 0 <= j < k < |run| && run[j].step.Arm? && run[k].step.Arm? ==> run[j].step.seenAt <= run[k].step.seenAt
  }

  lemma {:induction false} CountdownStart(run: seq<Event>, n: nat) returns (m: nat)
    requires n <= |run| && ArmsAfterEpoch(run)
    ensures Countdown(run, n).Some? ==>
              m < n && run[m].step.Arm? && Countdown(run, n).value == run[m].step.seenAt && Undisturbed(run, m, n)
  {
    m := 0;
    if n > 0 {
      m := CountdownStart(run, n - 1);
      if Countdown(run, n - 1).None? {
        m := n - 1;
      }
    }
  }

  lemma {:induction false} ArmedKeepsRunning(run: seq<Event>, m: nat, n: nat)
    requires m < n <= |run| && ArmsAfterEpoch(run) && run[m].step.Arm? && Undisturbed(run, m, n)
    ensures Countdown(run, n).Some? && Countdown(run, n).value > 0
    ensures ArmsInOrder(run) ==> Countdown(run, n).value <= run[m].step.seenAt
  {
    if n == m + 1 {
      var start := CountdownStart(run, m);
    } else {
      ArmedKeepsRunning(run, m, n - 1);
      assert !Ends(run, n - 1);
    }
  }

  /** However evaluations overlap: an attempt is backed by an unbroken grace period exactly when
      nothing ended the countdown between the latest arming and the attempt. */
  lemma {:induction false} AttemptBackedIff(run: seq<Event>, n: nat)
    requires n < |run| && ArmsAfterEpoch(run) && AttemptIn(run, n)
    ensures Backed(run, n) <==> Running(run, n)
  {
    if m :| 0 <= m < n && BackedFrom(run, m, n) {
      assert LatestArm(run, n).Some?;
    }
    if Running(run, n) {
      ArmedKeepsRunning(run, LatestArm(run, n).value, n);
      var m := CountdownStart(run, n);
      assert BackedFrom(run, m, n);
    }
  }

  /** With a clock that never runs back, exactly when a measurement attempts: on a running
      countdown when the grace period is over, and otherwise at once. */
  lemma {:induction false} FireAttemptsIff(run: seq<Event>, n: nat)
    requires n < |run| && ArmsAfterEpoch(run) && ArmsInOrder(run) && run[n].step.Fire?
    ensures AttemptIn(run, n) <==>
              if Running(run, n) then Backed(run, n) else run[n].step.now >= GraceMs(run[n].step.graceSetting)
  {
    if Running(run, n) {
      ArmedKeepsRunning(run, LatestArm(run, n).value, n);
      if AttemptIn(run, n) {
        AttemptBackedIff(run, n);
      }
      if m :| 0 <= m < n && BackedFrom(run, m, n) {
        ArmedKeepsRunning(run, m, n);
      }
    } else {
      var m := CountdownStart(run, n);
      assert Countdown(run, n).None?;
    }
  }

  /** In a run of evaluations an attempt lacks its backing exactly when another evaluation reset
      or attempted after the latest arming. */
  lemma {:induction false} OnlyOthersBreakBacking(run: seq<Event>, n: nat)
    requires n < |run| && ArmsAfterEpoch(run) && Interleaving(run) && AttemptIn(run, n)
    ensures LatestArm(run, n).Some?
    ensures !Backed(run, n) <==> exists k :: LatestArm(run, n).value < k < n && Ends(run, k) && run[k].eval != run[n].eval
  {
    AttemptBackedIff(run, n);
    var own :| 0 <= own < n && run[own].eval == run[n].eval;
    assert run[own].step.Arm?;
  }

  /** Another evaluation's reset during the grace query makes an attempt at once. */
  lemma {:induction false} ResetWhileReadingGrace(t: int)
    requires t >= 300000
    ensures var run := [Event(1, Arm(t)), Event(2, Reset), Event(1, Fire(t + 1, Some(300)))];
            Interleaving(run) && AttemptIn(run, 2) && !Backed(run, 2)
  {
    var run := [Event(1, Arm(t)), Event(2, Reset), Event(1, Fire(t + 1, Some(300)))];
    assert Countdown(run, 1) == Some(t);
    assert Countdown(run, 2) == None;
    assert run[0].eval == run[2].eval;
    AttemptBackedIff(run, 2);
    assert LatestArm(run, 1) == Some(0);
    assert Ends(run, 1);
  }

  /** Two evaluations that both wait for the grace query attempt both. */
  lemma {:induction false} OverlapAttemptsTwice(t: int)
    requires t > 0
    ensures var run := [Event(1, Arm(t)), Event(2, Arm(t + 1)), Event(1, Fire(t + 300000, Some(300))), Event(2, Fire(t + 300001, Some(300)))];
            Interleaving(run) && AttemptIn(run, 2) && Backed(run, 2) && AttemptIn(run, 3) && !Backed(run, 3)
  {
    var run := [Event(1, Arm(t)), Event(2, Arm(t + 1)), Event(1, Fire(t + 300000, Some(300))), Event(2, Fire(t + 300001, Some(300)))];
    assert Countdown(run, 1) == Some(t);
    assert Countdown(run, 2) == Some(t);
    assert Countdown(run, 3) == None;
    assert run[0].eval == run[2].eval && run[1].eval == run[3].eval;
    AttemptBackedIff(run, 2);
    AttemptBackedIff(run, 3);
    assert LatestArm(run, 2) == Some(1);
    assert LatestArm(run, 3) == Some(1);
    assert Ends(run, 2);
  }

  // ---- serial runs ----------------------------------------------------------------------------------

  /** The countdown after the first n heartbeats of a run. */
  function StateAfter(run: seq<Tick>, n: nat): Option<int>
    requires n <= |run|
  {
    if n == 0 then None else Next(StateAfter(run, n - 1), run[n - 1])
  }

  predicate AttemptAt(run: seq<Tick>, n: nat)
    requires n < |run|
  {
    Attempts(StateAfter(run, n), run[n])
  }

  /** Heartbeats m to n-1: every evaluation among them is a candidate and none attempts. */
  ghost predicate Unbroken(run: seq<Tick>, m: nat, n: nat)
    requires m <= n <= |run|
  {
    forall k :: m <= k < n ==> (run[k].Skipped? || Candidate(run[k])) && !AttemptAt(run, k)
  }

  ghost predicate AfterEpoch(run: seq<Tick>) {
    forall k :: 0 <= k < |run| && run[k].Evaluated? ==> run[k].seenAt > 0
  }

  ghost predicate ClockNeverBack(run: seq<Tick>) {
    forall j, k :: 0 <= j < k < |run| && run[j].Evaluated? && run[k].Evaluated? ==> run[j].seenAt <= run[k].seenAt
  }

  /** The events of heartbeat k when no other evaluation runs beside it. */
  function Own(t: Tick, k: nat): seq<Event> {
    if t.Skipped? then []
    else if Candidate(t) then [Event(k, Arm(t.seenAt)), Event(k, Fire(t.now, t.graceSetting))]
    else [Event(k, Reset)]
  }

  function Events(run: seq<Tick>): seq<Event> {
    if run == [] then []
    else Events(run[..|run| - 1]) + Own(run[|run| - 1], |run| - 1)
  }

  /** Where the events of heartbeat k begin. */
  function Start(run: seq<Tick>, k: nat): nat
    requires k <= |run|
  {
    |Events(run[..k])|
  }

  lemma {:induction false} EventsGrow(run: seq<Tick>, k: nat)
    requires k <= |run|
    ensures Start(run, k) <= |Events(run)| && Events(run)[..Start(run, k)] == Events(run[..k])
    decreases |run|
  {
    hide Own;
    if k < |run| {
      var front := run[..|run| - 1];
      EventsGrow(front, k);
      assert front[..k] == run[..k];
    } else {
      assert run[..k] == run;
    }
  }

  lemma {:induction false} LocatedAll(run: seq<Tick>, k: nat)
    requires k < |run|
    ensures Start(run, k + 1) == Start(run, k) + |Own(run[k], k)| <= |Events(run)|
    ensures Events(run)[Start(run, k)..Start(run, k + 1)] == Own(run[k], k)
  {
    hide Own;
    assert run[..k + 1][..k] == run[..k];
    assert Events(run[..k + 1]) == Events(run[..k]) + Own(run[k], k);
    EventsGrow(run, k + 1);
  }

  lemma {:induction false} Located(run: seq<Tick>, k: nat)
    requires k < |run|
    ensures Start(run, k + 1) == Start(run, k) + |Own(run[k], k)| <= |Events(run)|
    ensures Candidate(run[k]) ==>
              && Start(run, k + 1) == Start(run, k) + 2
              && Events(run)[Start(run, k)] == Event(k, Arm(run[k].seenAt))
              && Events(run)[Start(run, k) + 1] == Event(k, Fire(run[k].now, run[k].graceSetting))
    ensures run[k].Evaluated? && !Candidate(run[k]) ==>
              Start(run, k + 1) == Start(run, k) + 1 && Events(run)[Start(run, k)] == Event(k, Reset)
    ensures run[k].Skipped? ==> Start(run, k + 1) == Start(run, k)
  {
    hide PrimaryLooksUp, Events, Start;
    LocatedAll(run, k);
    var own := Events(run)[Start(run, k)..Start(run, k + 1)];
    assert Candidate(run[k]) ==> Events(run)[Start(run, k)] == own[0] && Events(run)[Start(run, k) + 1] == own[1];
    assert run[k].Evaluated? && !Candidate(run[k]) ==> Events(run)[Start(run, k)] == own[0];
  }

  lemma {:induction false} StartsAscend(run: seq<Tick>, j: nat, k: nat)
    requires j <= k <= |run|
    ensures Start(run, j) <= Start(run, k)
    decreases k - j
  {
    if j < k {
      StartsAscend(run, j, k - 1);
      Located(run, k - 1);
    }
  }

  /** The heartbeat an event belongs to. */
  lemma {:induction false} Owner(run: seq<Tick>, p: nat) returns (k: nat)
    requires p < |Events(run)|
    ensures k < |run| && Start(run, k) <= p < Start(run, k) + |Own(run[k], k)|
    ensures Events(run)[p] == Own(run[k], k)[p - Start(run, k)]
    decreases |run|
  {
    var n := |run| - 1;
    if p < |Events(run[..n])| {
      k := Owner(run[..n], p);
      assert run[..n][..k] == run[..k];
    } else {
      k := n;
    }
  }

  /** A serial run is a run of events: same countdown, same attempts. */
  lemma {:induction false} SerialIsInterleaved(run: seq<Tick>, k: nat)
    requires k <= |run|
    ensures Start(run, k) <= |Events(run)| && Countdown(Events(run), Start(run, k)) == StateAfter(run, k)
    ensures k < |run| && Candidate(run[k]) ==>
              Start(run, k) + 1 < |Events(run)| && (AttemptIn(Events(run), Start(run, k) + 1) <==> AttemptAt(run, k))
  {
    hide PrimaryLooksUp, Events;
    if k > 0 {
      SerialIsInterleaved(run, k - 1);
      Located(run, k - 1);
    } else {
      assert run[..0] == [];
      NoEvents();
    }
    if k < |run| {
      Located(run, k);
    }
  }

  lemma NoEvents()
    ensures Events([]) == []
  {
  }

  lemma {:induction false} EventsInOrder(run: seq<Tick>)
    ensures AfterEpoch(run) ==> ArmsAfterEpoch(Events(run))
    ensures ClockNeverBack(run) ==> ArmsInOrder(Events(run))
  {
    hide PrimaryLooksUp, Events;
    var events := Events(run);
    if AfterEpoch(run) {
      forall p | 0 <= p < |events| && events[p].step.Arm? ensures events[p].step.seenAt > 0 {
        var k := Owner(run, p);
      }
    }
    if ClockNeverBack(run) {
      forall p, q | 0 <= p < q < |events| && events[p].step.Arm? && events[q].step.Arm?
        ensures events[p].step.seenAt <= events[q].step.seenAt
      {
        var j := Owner(run, p);
        var k := Owner(run, q);
        if k < j {
          StartsAscend(run, k + 1, j);
          Located(run, k);
        }
      }
    }
  }

  /** What a backing countdown is in heartbeats. */
  lemma {:induction false} BackingInTicks(run: seq<Tick>, p: nat, n: nat) returns (m: nat)
    requires n < |run| && Candidate(run[n]) && Start(run, n) + 1 < |Events(run)| && p < Start(run, n) + 1
    requires Events(run)[Start(run, n) + 1].step == Fire(run[n].now, run[n].graceSetting)
    requires BackedFrom(Events(run), p, Start(run, n) + 1)
    ensures m <= n && Candidate(run[m]) && Unbroken(run, m, n) && run[n].now - run[m].seenAt >= GraceMs(run[n].graceSetting)
  {
    hide PrimaryLooksUp, Events;
    m := Owner(run, p);
    if n < m {
      StartsAscend(run, n + 1, m);
      Located(run, n);
    }
    forall k | m <= k < n ensures (run[k].Skipped? || Candidate(run[k])) && !AttemptAt(run, k) {
      Located(run, k);
      StartsAscend(run, m, k);
      StartsAscend(run, k + 1, n);
      if m < k {
        Located(run, m);
        StartsAscend(run, m + 1, k);
      }
      SerialIsInterleaved(run, k);
      assert run[k].Evaluated? && !Candidate(run[k]) ==> Ends(Events(run), Start(run, k));
      assert Candidate(run[k]) && AttemptAt(run, k) ==> Ends(Events(run), Start(run, k) + 1);
    }
  }

  /** The special case of evaluations that do not overlap: an attempt implies an unbroken series
      of candidate evaluations that began at least the grace period configured now ago, with no
      earlier attempt inside it. */
  lemma {:induction false} AttemptImpliesUnbrokenGrace(run: seq<Tick>, n: nat) returns (m: nat)
    requires n < |run| && AfterEpoch(run) && AttemptAt(run, n)
    ensures m <= n && Candidate(run[m]) && Candidate(run[n]) && Unbroken(run, m, n)
    ensures run[n].now - run[m].seenAt >= GraceMs(run[n].graceSetting)
  {
    hide PrimaryLooksUp, Events;
    var events, at := Events(run), Start(run, n) + 1;
    SerialIsInterleaved(run, n);
    Located(run, n);
    EventsInOrder(run);
    assert LatestArm(events, at) == Some(at - 1);
    AttemptBackedIff(events, at);
    var p :| 0 <= p < at && BackedFrom(events, p, at);
    m := BackingInTicks(run, p, n);
  }

  lemma {:induction false} UnbrokenIsUndisturbed(run: seq<Tick>, m: nat, n: nat)
    requires m <= n < |run| && Candidate(run[m]) && Candidate(run[n]) && Unbroken(run, m, n)
    ensures Start(run, m) < Start(run, n) + 1 < |Events(run)|
    ensures Events(run)[Start(run, m)].step == Arm(run[m].seenAt)
    ensures Undisturbed(Events(run), Start(run, m), Start(run, n) + 1)
  {
    hide PrimaryLooksUp, Events;
    Located(run, m);
    Located(run, n);
    StartsAscend(run, m, n);
    forall q | Start(run, m) < q < Start(run, n) + 1 ensures !Ends(Events(run), q) {
      var k := Owner(run, q);
      if k < m {
        StartsAscend(run, k + 1, m);
        Located(run, k);
      } else if k > n {
        StartsAscend(run, n + 1, k);
      } else {
        SerialIsInterleaved(run, k);
      }
    }
  }

  /** With a clock that never runs back the condition is exact: a candidate evaluation attempts
      if and only if some unbroken series of candidates up to it spans the grace period. */
  lemma {:induction false} AttemptIffUnbrokenGrace(run: seq<Tick>, n: nat)
    requires n < |run| && AfterEpoch(run) && ClockNeverBack(run)
    ensures AttemptAt(run, n) <==>
              && Candidate(run[n])
              && exists m: nat :: m <= n && Candidate(run[m]) && Unbroken(run, m, n)
                             && run[n].now - run[m].seenAt >= GraceMs(run[n].graceSetting)
  {
    hide PrimaryLooksUp, Events;
    if AttemptAt(run, n) {
      var m := AttemptImpliesUnbrokenGrace(run, n);
    }
    if Candidate(run[n]) {
      if m: nat :| m <= n && Candidate(run[m]) && Unbroken(run, m, n)
                   && run[n].now - run[m].seenAt >= GraceMs(run[n].graceSetting)
      {
        var events, at := Events(run), Start(run, n) + 1;
        SerialIsInterleaved(run, n);
        Located(run, n);
        EventsInOrder(run);
        UnbrokenIsUndisturbed(run, m, n);
        assert BackedFrom(events, Start(run, m), at);
        assert LatestArm(events, at) == Some(at - 1);
        FireAttemptsIff(events, at);
      }
    }
  }

  /** Heartbeats m to n: every evaluation found promotion enabled, this node VRRP master and the
      primary voted down; evaluation m began the series, and none before n attempted. */
  ghost predicate SteadyFrom(run: seq<Tick>, m: nat, n: nat)
    requires m <= n < |run|
  {
    && run[m].Evaluated?
    && (forall k :: m <= k <= n && run[k].Evaluated? ==> run[k].enabled && run[k].master && !PrimaryLooksUp(run[k].probe))
    && (forall k :: m <= k < n ==> !AttemptAt(run, k))
  }

  /** The same in clock time: the grace period is 300 seconds without a setting (or with 0) and the
      setting in seconds otherwise. */
  lemma {:induction false} AttemptWaitsItsSeconds(run: seq<Tick>, n: nat, s: int)
    requires n < |run| && AfterEpoch(run) && run[n].Evaluated?
    requires if run[n].graceSetting in {None, Some(0)} then s == 300 else run[n].graceSetting == Some(s)
    ensures AttemptAt(run, n) ==> exists m: nat :: m <= n && SteadyFrom(run, m, n) && run[n].now - run[m].seenAt >= 1000 * s
    ensures ClockNeverBack(run) && (exists m: nat :: m <= n && SteadyFrom(run, m, n) && run[n].now - run[m].seenAt >= 1000 * s)
            ==> AttemptAt(run, n)
  {
    hide PrimaryLooksUp, AttemptAt;
    if AttemptAt(run, n) {
      var m := AttemptImpliesUnbrokenGrace(run, n);
      assert SteadyFrom(run, m, n);
    }
    if m: nat :| ClockNeverBack(run) && m <= n && SteadyFrom(run, m, n) && run[n].now - run[m].seenAt >= 1000 * s {
      AttemptIffUnbrokenGrace(run, n);
      assert Candidate(run[m]) && Candidate(run[n]) && Unbroken(run, m, n);
    }
  }

  /** A skipped heartbeat does not reset the countdown: the series is unbroken over evaluations
      only, and two evaluations around any number of skipped heartbeats are enough to attempt. */
  lemma {:induction false} SkippedHeartbeatsDoNotReset(first: Tick, last: Tick, gap: nat)
    requires Candidate(first) && Candidate(last) && first.seenAt > 0
    requires first.now - first.seenAt < GraceMs(first.graceSetting)
    requires last.now - first.seenAt >= GraceMs(last.graceSetting)
    ensures var run := [first] + seq(gap, _ => Skipped) + [last];
            AttemptAt(run, gap + 1) && !AttemptAt(run, 0)
  {
    var run := [first] + seq(gap, _ => Skipped) + [last];
    assert StateAfter(run, 0) == None;
    for k := 0 to gap
      invariant StateAfter(run, k + 1) == Some(first.seenAt)
    {
      assert run[k + 1].Skipped?;
    }
  }
}
