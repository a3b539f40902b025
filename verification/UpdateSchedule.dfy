/** The update-schedule table and the endpoints that change it, on the primary directly or
    through the relay of a standby. */
module UpdateSchedule {
  import opened Wrappers

  datatype Status = Pending | InProgress | Completed | Failed | Undocumented(text: string)

  datatype Row = Row(
    node: string, version: string, scheduledAt: int, status: Status, requestedBy: Option<string>,
    log: Option<string>, createdAt: int, completedAt: Option<int>)

  predicate Open(r: Row) { r.status.Pending? || r.status.InProgress? }

  predicate OpenFor(r: Row, node: string) { Open(r) && r.node == node }

  predicate HasOpen(rows: seq<Row>, node: string) {
    exists k :: 0 <= k < |rows| && OpenFor(rows[k], node)
  }

  // ---- one statement each ------------------------------------------------------------------

  function Rescheduled(r: Row, node: string, version: string, at: int): Row {
    if OpenFor(r, node) then r.(scheduledAt := at, version := version) else r
  }

  function Inserted(node: string, version: string, at: int, user: Option<string>, now: int): Row {
    Row(node, version, at, Pending, user, None, now, None)
  }

  function Reported(r: Row, node: string, status: Status, log: Option<string>, now: int): Row {
    if OpenFor(r, node) then
      r.(status := status, log := log,
         completedAt := if status.Completed? || status.Failed? then Some(now) else r.completedAt)
    else r
  }

  const CANCEL_LOG := "Cancelled by admin"

  datatype Statement =
    | Upsert(node: string, version: string, at: int, user: Option<string>, now: int)
    | Report(node: string, status: Status, log: Option<string>, now: int)
    | Cancel(node: string, now: int)

  function Apply(rows: seq<Row>, s: Statement): seq<Row> {
    match s
    case Upsert(node, version, at, user, now) =>
      if HasOpen(rows, node) then
        seq(|rows|, k requires 0 <= k < |rows| => Rescheduled(rows[k], node, version, at))
      else rows + [Inserted(node, version, at, user, now)]
    case Report(node, status, log, now) =>
      seq(|rows|, k requires 0 <= k < |rows| => Reported(rows[k], node, status, log, now))
    case Cancel(node, now) =>
      seq(|rows|, k requires 0 <= k < |rows| => Reported(rows[k], node, Failed, Some(CANCEL_LOG), now))
  }

  function ApplyAll(rows: seq<Row>, run: seq<Statement>): seq<Row>
    decreases |run|
  {
    if run == [] then rows else ApplyAll(Apply(rows, run[0]), run[1..])
  }

  // ---- what every run keeps ------------------------------------------------------------------

  ghost predicate OneOpenPerNode(rows: seq<Row>) {
    forall i, j :: 0 <= i < j < |rows| && Open(rows[i]) && Open(rows[j]) ==> rows[i].node != rows[j].node
  }

  /** Rows that are no longer open, and only those, carry a completion time. */
  ghost predicate CompletedIffTerminal(rows: seq<Row>) {
    forall k :: 0 <= k < |rows| ==> (rows[k].completedAt.Some? <==> !Open(rows[k]))
  }

  ghost predicate Consistent(rows: seq<Row>) {
    OneOpenPerNode(rows) && CompletedIffTerminal(rows)
  }

  predicate Documented(s: Statement) {
    s.Report? ==> !s.status.Undocumented?
  }

  /** Rows only join at the end, keep their node, requester and creation time, and once terminal
      never change again. */
  ghost predicate TerminalFrozen(before: seq<Row>, after: seq<Row>) {
    && |before| <= |after|
    && forall k :: 0 <= k < |before| ==>
         && after[k].node == before[k].node
         && after[k].requestedBy == before[k].requestedBy && after[k].createdAt == before[k].createdAt
         && (!Open(before[k]) ==> after[k] == before[k])
  }

  lemma {:induction false} StatementKeepsConsistent(rows: seq<Row>, s: Statement)
    requires Consistent(rows) && Documented(s)
    ensures Consistent(Apply(rows, s)) && TerminalFrozen(rows, Apply(rows, s))
  {
    var after := Apply(rows, s);
    if s.Upsert? && HasOpen(rows, s.node) {
      forall k | 0 <= k < |rows| ensures Open(after[k]) == Open(rows[k]) && after[k].node == rows[k].node {
        assert after[k] == Rescheduled(rows[k], s.node, s.version, s.at);
      }
    } else if !s.Upsert? {
      forall k | 0 <= k < |rows|
        ensures after[k].node == rows[k].node && (Open(after[k]) ==> Open(rows[k]))
        ensures after[k].completedAt.Some? <==> !Open(after[k])
        ensures !Open(rows[k]) ==> after[k] == rows[k]
      {
      }
    }
  }

  /** Over every run of scheduling, documented progress reports and cancellations: at most one
      open row per node, completion times exactly on terminal rows, terminal rows frozen. */
  lemma {:induction false} EveryRunKeepsConsistent(rows: seq<Row>, run: seq<Statement>)
    requires Consistent(rows) && forall k :: 0 <= k < |run| ==> Documented(run[k])
    ensures Consistent(ApplyAll(rows, run)) && TerminalFrozen(rows, ApplyAll(rows, run))
    decreases |run|
  {
    if run != [] {
      StatementKeepsConsistent(rows, run[0]);
      EveryRunKeepsConsistent(Apply(rows, run[0]), run[1..]);
    }
  }

  /** The endpoint checks only that a status is present. An undocumented one closes the open row
      without a completion time, so a report keeps the table consistent exactly when its status
      is documented or the node has nothing open. */
  lemma {:induction false} ReportKeepsConsistentIff(rows: seq<Row>, node: string, status: Status, log: Option<string>, now: int)
    requires Consistent(rows)
    ensures Consistent(Apply(rows, Report(node, status, log, now)))
        <==> !status.Undocumented? || !HasOpen(rows, node)
  {
    var s := Report(node, status, log, now);
    var after := Apply(rows, s);
    if !status.Undocumented? {
      StatementKeepsConsistent(rows, s);
    } else if HasOpen(rows, node) {
      var k :| 0 <= k < |rows| && OpenFor(rows[k], node);
      assert after[k] == Reported(rows[k], node, status, log, now);
    } else {
      assert after == rows;
    }
  }

  /** After scheduling, the node has an open row and every open row of it carries the new target.
      A row that was open already keeps its requester and creation time; otherwise one row joins. */
  lemma UpsertSchedules(rows: seq<Row>, node: string, version: string, at: int, user: Option<string>, now: int)
    ensures HasOpen(Apply(rows, Upsert(node, version, at, user, now)), node)
    ensures forall r :: r in Apply(rows, Upsert(node, version, at, user, now)) && OpenFor(r, node)
              ==> r.version == version && r.scheduledAt == at
    ensures var after := Apply(rows, Upsert(node, version, at, user, now));
            if HasOpen(rows, node) then
              && |after| == |rows|
              && forall k :: 0 <= k < |rows| ==>
                   after[k] == rows[k].(version := after[k].version, scheduledAt := after[k].scheduledAt)
                   && (!OpenFor(rows[k], node) ==> after[k] == rows[k])
            else
              && |after| == |rows| + 1 && after[..|rows|] == rows
              && after[|rows|].requestedBy == user && after[|rows|].createdAt == now
              && after[|rows|].status == Pending && after[|rows|].log == None && after[|rows|].completedAt == None
  {
    var after := Apply(rows, Upsert(node, version, at, user, now));
    if HasOpen(rows, node) {
      var k :| 0 <= k < |rows| && OpenFor(rows[k], node);
      assert OpenFor(after[k], node);
    } else {
      assert OpenFor(after[|rows|], node);
    }
  }

  /** After a cancellation or a terminal report nothing of the node is open. */
  lemma ClosingCloses(rows: seq<Row>, s: Statement)
    requires s.Cancel? || (s.Report? && s.status in {Completed, Failed})
    ensures !HasOpen(Apply(rows, s), s.node)
    ensures Apply(rows, s) == rows <==> !HasOpen(rows, s.node)
  {
    if k :| 0 <= k < |rows| && OpenFor(rows[k], s.node) {
      assert !Open(Apply(rows, s)[k]);
    } else {
      assert Apply(rows, s) == rows;
    }
  }

  /** A report writes exactly its status and log into the open rows of its node, and the completion
      time only with a terminal status; nothing else in the table changes. */
  lemma {:induction false} ReportWrites(rows: seq<Row>, node: string, status: Status, log: Option<string>, now: int, k: nat)
    requires k < |rows|
    ensures var after := Apply(rows, Report(node, status, log, now));
            && |after| == |rows|
            && (rows[k].node != node || rows[k].status !in {Pending, InProgress} ==> after[k] == rows[k])
            && (rows[k].node == node && rows[k].status in {Pending, InProgress} ==>
                  && after[k].status == status && after[k].log == log
                  && after[k].completedAt == (if status in {Completed, Failed} then Some(now) else rows[k].completedAt)
                  && after[k].node == node && after[k].version == rows[k].version && after[k].scheduledAt == rows[k].scheduledAt
                  && after[k].requestedBy == rows[k].requestedBy && after[k].createdAt == rows[k].createdAt)
  {
    assert Apply(rows, Report(node, status, log, now))[k] == Reported(rows[k], node, status, log, now);
  }

  /** A cancellation marks the open rows of its node failed, now, with its own log text. */
  lemma {:induction false} CancelWrites(rows: seq<Row>, node: string, now: int, k: nat)
    requires k < |rows|
    ensures var after := Apply(rows, Cancel(node, now));
            && |after| == |rows|
            && (rows[k].node != node || rows[k].status !in {Pending, InProgress} ==> after[k] == rows[k])
            && (rows[k].node == node && rows[k].status in {Pending, InProgress} ==>
                  && after[k].status == Failed && after[k].log == Some("Cancelled by admin") && after[k].completedAt == Some(now)
                  && after[k].node == node && after[k].version == rows[k].version && after[k].scheduledAt == rows[k].scheduledAt
                  && after[k].requestedBy == rows[k].requestedBy && after[k].createdAt == rows[k].createdAt)
  {
    ReportWrites(rows, node, Failed, Some("Cancelled by admin"), now, k);
    assert Apply(rows, Cancel(node, now))[k] == Reported(rows[k], node, Failed, Some("Cancelled by admin"), now);
  }

  // ---- the endpoints ------------------------------------------------------------------------------

  /** A missing or empty field is None. */
  datatype Request =
    | ScheduleRequest(at: Option<int>, version: Option<string>, user: Option<string>)
    | CancelRequest(node: string)
    | ReportRequest(status: Option<Status>, log: Option<string>)

  /** How the relay of a standby fares. */
  datatype Relay = PrimaryUnknown | NotDelivered | ReplyLost | Delivered

  function UpsertAll(nodes: seq<string>, version: string, at: int, user: Option<string>, now: int): seq<Statement> {
    seq(|nodes|, k requires 0 <= k < |nodes| => Upsert(nodes[k], version, at, user, now))
  }

  /** The table of the primary, with the clock and the active nodes of the moment. */
  class Primary {
    var rows: seq<Row>

    constructor () ensures rows == [] && Consistent(rows) { rows := []; }

    method DoScheduleUpdate(active: seq<string>, at: int, version: string, user: Option<string>, now: int)
      modifies this
      ensures rows == ApplyAll(old(rows), UpsertAll(active, version, at, user, now))
    {
      ghost var all := UpsertAll(active, version, at, user, now);
      for k := 0 to |active|
        invariant ApplyAll(rows, all[k..]) == ApplyAll(old(rows), all)
      {
        assert all[k..][0] == Upsert(active[k], version, at, user, now) && all[k..][1..] == all[k + 1..];
        var was := rows;
        if HasOpen(was, active[k]) {
          rows := seq(|was|, i requires 0 <= i < |was| => Rescheduled(was[i], active[k], version, at));
        } else {
          rows := was + [Inserted(active[k], version, at, user, now)];
        }
      }
    }

    method DoCancelSchedule(node: string, now: int) returns (any: bool)
      modifies this
      ensures rows == Apply(old(rows), Cancel(node, now)) && any == HasOpen(old(rows), node)
    {
      any := HasOpen(rows, node);
      var was := rows;
      rows := seq(|was|, i requires 0 <= i < |was| => Reported(was[i], node, Failed, Some(CANCEL_LOG), now));
    }

    /** The three internal endpoints a relay reaches; `self` is the node they speak for. */
    method HandleFor(r: Request, self: string, active: seq<string>, now: int) returns (code: nat)
      modifies this
      ensures rows == ApplyAll(old(rows), Effect(r, self, active, now))
      ensures code == DirectCode(old(rows), r)
    {
      match r
      case ScheduleRequest(at, version, user) =>
        if at.None? || version.None? { return 400; }
        DoScheduleUpdate(active, at.value, version.value, user, now);
        return 201;
      case CancelRequest(node) =>
        var any := DoCancelSchedule(node, now);
        return if any then 200 else 404;
      case ReportRequest(status, log) =>
        if status.None? { return 400; }
        var was := rows;
        rows := seq(|was|, i requires 0 <= i < |was| => Reported(was[i], self, status.value, log, now));
        return 200;
    }

    /** The public endpoints as a standby serves them: check, find the primary, relay. */
    method HandleOnStandby(r: Request, self: string, active: seq<string>, now: int, relay: Relay) returns (code: nat)
      modifies this
      ensures rows == ApplyAll(old(rows), if relay.Delivered? || relay.ReplyLost? then Effect(r, self, active, now) else [])
      ensures Malformed(r) ==> code == 400
      ensures !Malformed(r) ==> code == match relay
                                        case PrimaryUnknown => 503
                                        case NotDelivered => 500
                                        case ReplyLost => 500
                                        case Delivered => DirectCode(old(rows), r)
    {
      if r.ScheduleRequest? && (r.at.None? || r.version.None?) { return 400; }
      if r.ReportRequest? && r.status.None? { return 400; }
      if relay.PrimaryUnknown? { return 503; }
      if relay.NotDelivered? { return 500; }
      code := HandleFor(r, self, active, now);
      if relay.ReplyLost? { return 500; }
    }
  }

  predicate Malformed(r: Request) {
    (r.ScheduleRequest? && (r.at.None? || r.version.None?)) || (r.ReportRequest? && r.status.None?)
  }

  /** The statements a request stands for when it reaches the primary's table. */
  function Effect(r: Request, self: string, active: seq<string>, now: int): seq<Statement> {
    if Malformed(r) then []
    else match r
      case ScheduleRequest(at, version, user) => UpsertAll(active, version.value, at.value, user, now)
      case CancelRequest(node) => [Cancel(node, now)]
      case ReportRequest(status, log) => [Report(self, status.value, log, now)]
  }

  function DirectCode(rows: seq<Row>, r: Request): nat {
    if Malformed(r) then 400
    else match r
      case ScheduleRequest(_, _, _) => 201
      case CancelRequest(node) => if HasOpen(rows, node) then 200 else 404
      case ReportRequest(_, _) => 200
  }

  // ---- what a request does, in codes and rows ----------------------------------------------

  /** A statement touches rows of its node only, and adds none of another. */
  lemma {:induction false} OtherNodesStay(rows: seq<Row>, s: Statement)
    ensures |rows| <= |Apply(rows, s)|
    ensures forall k :: 0 <= k < |rows| ==>
              Apply(rows, s)[k].node == rows[k].node && (rows[k].node != s.node ==> Apply(rows, s)[k] == rows[k])
    ensures forall k :: |rows| <= k < |Apply(rows, s)| ==> Apply(rows, s)[k].node == s.node
  {
  }

  lemma UpsertAllSnoc(nodes: seq<string>, version: string, at: int, user: Option<string>, now: int)
    requires nodes != []
    ensures var n := |nodes| - 1;
            UpsertAll(nodes, version, at, user, now)
            == UpsertAll(nodes[..n], version, at, user, now) + [Upsert(nodes[n], version, at, user, now)]
  {
  }

  ghost predicate ScheduledFor(rows: seq<Row>, node: string, version: string, at: int) {
    && (exists k :: 0 <= k < |rows| && rows[k].node == node && rows[k].status in {Pending, InProgress})
    && (forall k :: 0 <= k < |rows| && rows[k].node == node && rows[k].status in {Pending, InProgress} ==>
          rows[k].version == version && rows[k].scheduledAt == at)
  }

  lemma {:induction false} UpsertKeepsScheduled(rows: seq<Row>, node: string, other: string, version: string, at: int, user: Option<string>, now: int)
    requires ScheduledFor(rows, node, version, at) || node == other
    ensures ScheduledFor(Apply(rows, Upsert(other, version, at, user, now)), node, version, at)
  {
    var after := Apply(rows, Upsert(other, version, at, user, now));
    UpsertSchedules(rows, other, version, at, user, now);
    if node == other {
      var k :| 0 <= k < |after| && OpenFor(after[k], node);
      assert after[k].node == node && after[k].status in {Pending, InProgress};
      forall k | 0 <= k < |after| && after[k].node == node && after[k].status in {Pending, InProgress}
        ensures after[k].version == version && after[k].scheduledAt == at
      {
        assert after[k] in after && OpenFor(after[k], node);
      }
    } else {
      var k :| 0 <= k < |rows| && rows[k].node == node && rows[k].status in {Pending, InProgress};
      assert after[k] == rows[k];
      forall k | 0 <= k < |after| && after[k].node == node ensures k < |rows| && after[k] == rows[k] {
        assert k < |rows| ==> after[k].node == rows[k].node;
      }
    }
  }

  /** A schedule request that is carried out gives every active node an open row with its target
      and time, and leaves the rows of all other nodes alone. */
  lemma {:induction false} ScheduleReachesActive(rows: seq<Row>, active: seq<string>, version: string, at: int, user: Option<string>, now: int)
    ensures var after := ApplyAll(rows, UpsertAll(active, version, at, user, now));
            && |rows| <= |after|
            && (forall n :: 0 <= n < |active| ==> ScheduledFor(after, active[n], version, at))
            && (forall k :: 0 <= k < |rows| && rows[k].node !in active ==> after[k] == rows[k])
            && (forall k :: |rows| <= k < |after| ==> after[k].node in active)
    decreases |active|
  {
    hide ScheduledFor, Apply, UpsertAll;
    if active != [] {
      var n := |active| - 1;
      var front := active[..n];
      ScheduleReachesActive(rows, front, version, at, user, now);
      var before := ApplyAll(rows, UpsertAll(front, version, at, user, now));
      var last := Upsert(active[n], version, at, user, now);
      UpsertAllSnoc(active, version, at, user, now);
      ApplyAllSnoc(rows, UpsertAll(front, version, at, user, now), last);
      OtherNodesStay(before, last);
      forall m | 0 <= m < |active| ensures ScheduledFor(Apply(before, last), active[m], version, at) {
        assert m < n ==> front[m] == active[m];
        UpsertKeepsScheduled(before, active[m], active[n], version, at, user, now);
      }
    } else {
      assert UpsertAll(active, version, at, user, now) == [] by { NoUpserts(version, at, user, now); }
    }
  }

  lemma NoUpserts(version: string, at: int, user: Option<string>, now: int)
    ensures UpsertAll([], version, at, user, now) == []
  {
  }

  lemma {:induction false} ApplyAllSnoc(rows: seq<Row>, run: seq<Statement>, s: Statement)
    ensures ApplyAll(rows, run + [s]) == Apply(ApplyAll(rows, run), s)
    decreases |run|
  {
    hide Apply;
    if run == [] {
      assert run + [s] == [s] && [s][1..] == [];
    } else {
      ApplyAllSnoc(Apply(rows, run[0]), run[1..], s);
      assert (run + [s])[1..] == run[1..] + [s];
    }
  }

  /** What each request answers and changes on the primary: 400 for a schedule without time or
      version and a report without status, which change nothing; 404 for a cancellation that finds
      nothing open; otherwise 201 for a schedule and 200. */
  lemma {:induction false} CodesTellEffects(rows: seq<Row>, r: Request, self: string, active: seq<string>, now: int)
    ensures var after := ApplyAll(rows, Effect(r, self, active, now));
            match r
            case ScheduleRequest(None, _, _) => DirectCode(rows, r) == 400 && after == rows
            case ScheduleRequest(_, None, _) => DirectCode(rows, r) == 400 && after == rows
            case ScheduleRequest(Some(at), Some(version), user) =>
              DirectCode(rows, r) == 201 && after == ApplyAll(rows, UpsertAll(active, version, at, user, now))
            case ReportRequest(None, _) => DirectCode(rows, r) == 400 && after == rows
            case ReportRequest(Some(status), log) => DirectCode(rows, r) == 200 && after == Apply(rows, Report(self, status, log, now))
            case CancelRequest(node) =>
              && after == Apply(rows, Cancel(node, now))
              && (DirectCode(rows, r) == 404 || DirectCode(rows, r) == 200)
              && (DirectCode(rows, r) == 404 <==>
                    forall k :: 0 <= k < |rows| && rows[k].node == node ==> rows[k].status !in {Pending, InProgress})
  {
    match r
    case CancelRequest(node) =>
      ApplyAllSnoc(rows, [], Cancel(node, now));
      assert HasOpen(rows, node) <==> exists k :: 0 <= k < |rows| && OpenFor(rows[k], node);
    case ReportRequest(status, log) =>
      if status.Some? { ApplyAllSnoc(rows, [], Report(self, status.value, log, now)); }
    case ScheduleRequest(_, _, _) =>
  }
}
