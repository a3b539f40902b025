/** Screen-time recording: heartbeats stitched into intervals, one open interval per student
    and device, stale ones closed at their last beat. */
module ScreenTime {
  import opened Wrappers

  datatype Key = Key(student: string, device: Option<string>)
  datatype Row = Row(key: Key, startedAt: int, endedAt: Option<int>, lastHeartbeatAt: int) {
    /** Where the interval ends; an open one ends, so far, at its last beat. */
    function End(): int { if endedAt.Some? then endedAt.value else lastHeartbeatAt }
  }
  datatype Beat = Beat(key: Key, at: int, active: bool)

  const GAP_THRESHOLD_MS := 90 * 1000

  predicate OpenOf(r: Row, key: Key) { r.key == key && r.endedAt.None? }

  /** The query for the open interval of a key. */
  function FindOpen(rows: seq<Row>, key: Key): (i: Option<nat>)
    ensures i.Some? ==> i.value < |rows| && OpenOf(rows[i.value], key)
    ensures i.None? ==> forall k :: 0 <= k < |rows| ==> !OpenOf(rows[k], key)
  {
    if rows == [] then None
    else if OpenOf(rows[0], key) then Some(0)
    else
      var later := FindOpen(rows[1..], key);
      if later.Some? then Some(later.value + 1) else None
  }

  /** The statements behind the read; a row keeps its index as long as the table lives. */
  datatype Statement =
    | Insert(key: Key, at: int)
    | Close(row: nat)
    | Extend(row: nat, at: int)
    | End(row: nat, at: int)

  /** The partial unique index refuses a second open interval of a student and device. A missing
      device is NULL there, which never equals another. */
  predicate Refused(rows: seq<Row>, key: Key) { key.device.Some? && FindOpen(rows, key).Some? }

  function Exec(rows: seq<Row>, s: Statement): seq<Row> {
    match s
    case Insert(key, at) => if Refused(rows, key) then rows else rows + [Row(key, at, None, at)]
    case Close(i) => if i < |rows| then rows[i := rows[i].(endedAt := Some(rows[i].lastHeartbeatAt))] else rows
    case Extend(i, at) => if i < |rows| then rows[i := rows[i].(lastHeartbeatAt := at)] else rows
    case End(i, at) => if i < |rows| then rows[i := rows[i].(endedAt := Some(at))] else rows
  }

  function ExecAll(rows: seq<Row>, run: seq<Statement>): seq<Row>
    decreases |run|
  {
    if run == [] then rows else ExecAll(Exec(rows, run[0]), run[1..])
  }

  /** What a heartbeat will execute, given the table it reads. */
  function Plan(rows: seq<Row>, b: Beat): seq<Statement> {
    var open := FindOpen(rows, b.key);
    var start := if b.active then [Insert(b.key, b.at)] else [];
    if open.None? then start
    else if b.at - rows[open.value].lastHeartbeatAt > GAP_THRESHOLD_MS then [Close(open.value)] + start
    else if b.active then [Extend(open.value, b.at)]
    else [End(open.value, b.at)]
  }

  /** The table after one heartbeat that no other statement comes between. */
  function Record(rows: seq<Row>, b: Beat): seq<Row> { ExecAll(rows, Plan(rows, b)) }

  /** Statements of other heartbeats while this one awaits its read and its close. */
  datatype Meanwhile = Meanwhile(read: seq<Statement>, close: seq<Statement>)

  const ALONE := Meanwhile([], [])

  function Interleaved(plan: seq<Statement>, others: Meanwhile): seq<Statement> {
    if |plan| == 0 then []
    else others.read + [plan[0]] + (if |plan| == 1 then [] else others.close + [plan[1]])
  }

  lemma {:induction false} ExecAllConcat(rows: seq<Row>, a: seq<Statement>, b: seq<Statement>)
    ensures ExecAll(rows, a + b) == ExecAll(ExecAll(rows, a), b)
    decreases |a|
  {
    if a == [] {
      assert a + b == b;
    } else {
      ExecAllConcat(Exec(rows, a[0]), a[1..], b);
      assert (a + b)[1..] == a[1..] + b;
    }
  }

  lemma ExecOne(rows: seq<Row>, s: Statement)
    ensures ExecAll(rows, [s]) == Exec(rows, s)
  {
    assert [s][1..] == [];
  }

  lemma {:induction false} ExecThen(rows: seq<Row>, others: seq<Statement>, s: Statement)
    ensures ExecAll(rows, others + [s]) == Exec(ExecAll(rows, others), s)
  {
    ExecAllConcat(rows, others, [s]);
    ExecOne(ExecAll(rows, others), s);
  }

  lemma AloneIsPlan(rows: seq<Row>, b: Beat)
    ensures Interleaved(Plan(rows, b), ALONE) == Plan(rows, b)
  {
  }

  class Intervals {
    var rows: seq<Row>

    constructor ()
      ensures rows == []
    {
      rows := [];
    }

    method Execute(s: Statement)
      modifies this
      ensures rows == Exec(old(rows), s)
    {
      match s
      case Insert(key, at) =>
        if !(key.device.Some? && FindOpen(rows, key).Some?) {
          rows := rows + [Row(key, at, None, at)];
        }
      case Close(i) =>
        if i < |rows| { rows := rows[i := rows[i].(endedAt := Some(rows[i].lastHeartbeatAt))]; }
      case Extend(i, at) =>
        if i < |rows| { rows := rows[i := rows[i].(lastHeartbeatAt := at)]; }
      case End(i, at) =>
        if i < |rows| { rows := rows[i := rows[i].(endedAt := Some(at))]; }
    }

    method Await(others: seq<Statement>)
      modifies this
      ensures rows == ExecAll(old(rows), others)
    {
      var k := 0;
      while k < |others|
        invariant 0 <= k <= |others| && ExecAll(rows, others[k..]) == ExecAll(old(rows), others)
      {
        assert others[k..][1..] == others[k + 1..];
        Execute(others[k]);
        k := k + 1;
      }
    }

    /** Whatever other heartbeats execute meanwhile: the planned statements run in between. */
    method RecordScreenTimeHeartbeat(student: string, device: Option<string>, active: bool, now: int, others: Meanwhile)
      modifies this
      ensures var b := Beat(Key(student, device), now, active);
              rows == ExecAll(old(rows), Interleaved(Plan(old(rows), b), others))
              && (others == ALONE ==> rows == Record(old(rows), b))
    {
      hide Exec, ExecAll, Interleaved;
      var key := Key(student, device);
      ghost var start, plan := rows, Plan(rows, Beat(key, now, active));
      AloneIsPlan(start, Beat(key, now, active));
      PlanInterleaved(start, plan, others);
      var open := FindOpen(rows, key);
      if open.None? {
        if active {
          Await(others.read);
          Execute(Insert(key, now));
        }
        return;
      }
      var i := open.value;
      var gapMs := now - rows[i].lastHeartbeatAt;
      Await(others.read);
      if gapMs > GAP_THRESHOLD_MS {
        Execute(Close(i));
        if active {
          Await(others.close);
          Execute(Insert(key, now));
        }
        return;
      }
      if active {
        Execute(Extend(i, now));
      } else {
        Execute(End(i, now));
      }
    }
  }

  lemma {:induction false} PlanInterleaved(rows: seq<Row>, plan: seq<Statement>, others: Meanwhile)
    ensures plan == [] ==> ExecAll(rows, Interleaved(plan, others)) == rows
    ensures |plan| == 1 ==> ExecAll(rows, Interleaved(plan, others)) == Exec(ExecAll(rows, others.read), plan[0])
    ensures |plan| == 2 ==>
              ExecAll(rows, Interleaved(plan, others)) == Exec(ExecAll(Exec(ExecAll(rows, others.read), plan[0]), others.close), plan[1])
  {
    hide Exec;
    if |plan| == 1 {
      ExecThen(rows, others.read, plan[0]);
      assert Interleaved(plan, others) == others.read + [plan[0]];
    } else if |plan| == 2 {
      ExecThen(rows, others.read, plan[0]);
      ExecAllConcat(rows, others.read + [plan[0]], others.close + [plan[1]]);
      ExecThen(ExecAll(rows, others.read + [plan[0]]), others.close, plan[1]);
    }
  }

  // ---- whole traces -------------------------------------------------------------------------

  function Run(trace: seq<Beat>): seq<Row> {
    if trace == [] then [] else Record(Run(trace[..|trace| - 1]), trace[|trace| - 1])
  }

  function LastBeat(trace: seq<Beat>, key: Key): Option<Beat> {
    if trace == [] then None
    else if trace[|trace| - 1].key == key then Some(trace[|trace| - 1])
    else LastBeat(trace[..|trace| - 1], key)
  }

  /** The gap a beat closes counts if the key's previous beat was active and at most 90 s ago. */
  function CountedGap(previous: Option<Beat>, b: Beat): int {
    if previous.Some? && previous.value.active && b.at - previous.value.at <= 90000
    then b.at - previous.value.at else 0
  }

  /** The closed form: the counted gaps between consecutive beats of the key. */
  function ActiveTime(trace: seq<Beat>, key: Key): int {
    if trace == [] then 0
    else
      var before, last := trace[..|trace| - 1], trace[|trace| - 1];
      ActiveTime(before, key) + (if last.key == key then CountedGap(LastBeat(before, key), last) else 0)
  }

  /** The total length of a key's intervals. */
  function Total(rows: seq<Row>, key: Key): int {
    if rows == [] then 0
    else (if rows[0].key == key then rows[0].End() - rows[0].startedAt else 0) + Total(rows[1..], key)
  }

  ghost predicate TimesNeverBack(trace: seq<Beat>) {
    forall i, j :: 0 <= i < j < |trace| && trace[i].key == trace[j].key ==> trace[i].at <= trace[j].at
  }

  /** At most one open interval of the key, it is the key's latest, and every earlier interval
      of the key ended before the next began. */
  ghost predicate Tidy(rows: seq<Row>, key: Key) {
    && (forall i :: 0 <= i < |rows| && rows[i].key == key ==> rows[i].startedAt <= rows[i].End())
    && (forall i, j :: 0 <= i < j < |rows| && rows[i].key == key && rows[j].key == key ==>
          rows[i].endedAt.Some? && rows[i].endedAt.value <= rows[j].startedAt)
  }

  /** How the table of a key hangs together with the key's last beat. */
  ghost predicate UpToDate(rows: seq<Row>, key: Key, last: Option<Beat>) {
    && (last.None? ==> forall i :: 0 <= i < |rows| ==> rows[i].key != key)
    && (last.Some? ==>
          && (forall i :: 0 <= i < |rows| && rows[i].key == key ==> rows[i].End() <= last.value.at)
          && (forall i :: 0 <= i < |rows| && OpenOf(rows[i], key) ==> rows[i].lastHeartbeatAt == last.value.at)
          && (last.value.active <==> exists i :: 0 <= i < |rows| && OpenOf(rows[i], key)))
  }

  function Started(b: Beat): seq<Row> {
    if b.active then [Row(b.key, b.at, None, b.at)] else []
  }

  lemma {:induction false} TotalConcat(a: seq<Row>, b: seq<Row>, key: Key)
    ensures Total(a + b, key) == Total(a, key) + Total(b, key)
  {
    if a == [] {
      assert a + b == b;
    } else {
      TotalConcat(a[1..], b, key);
      assert (a + b)[1..] == a[1..] + b;
    }
  }

  lemma {:induction false} TotalUpdate(rows: seq<Row>, i: nat, r: Row, key: Key)
    requires i < |rows| && r.key == rows[i].key
    ensures Total(rows[i := r], key)
         == Total(rows, key) + (if r.key == key then (r.End() - r.startedAt) - (rows[i].End() - rows[i].startedAt) else 0)
  {
    if i > 0 {
      TotalUpdate(rows[1..], i - 1, r, key);
      assert rows[i := r][1..] == rows[1..][i - 1 := r];
    } else {
      assert rows[i := r][1..] == rows[1..];
    }
  }

  /** Rewriting or adding rows of other keys leaves a key's intervals alone. */
  lemma {:induction false} OtherRowsIrrelevant(rows: seq<Row>, after: seq<Row>, key: Key, last: Option<Beat>)
    requires Tidy(rows, key) && UpToDate(rows, key, last) && |rows| <= |after|
    requires forall i :: 0 <= i < |rows| ==> after[i].key == rows[i].key && (rows[i].key == key ==> after[i] == rows[i])
    requires forall i :: |rows| <= i < |after| ==> after[i].key != key
    ensures Tidy(after, key) && UpToDate(after, key, last)
  {
    if last.Some? && last.value.active {
      var i :| 0 <= i < |rows| && OpenOf(rows[i], key);
      assert OpenOf(after[i], key);
    }
    forall i | 0 <= i < |after| && after[i].key == key ensures i < |rows| && after[i] == rows[i] {
    }
  }

  /** A statement about a row or a new row of key `own`. */
  ghost predicate Targets(rows: seq<Row>, s: Statement, own: Key) {
    match s
    case Insert(key, _) => key == own
    case Close(i) => i < |rows| && rows[i].key == own
    case Extend(i, _) => i < |rows| && rows[i].key == own
    case End(i, _) => i < |rows| && rows[i].key == own
  }

  /** What a statement about another key leaves as it was. */
  ghost predicate SameFor(rows: seq<Row>, after: seq<Row>, key: Key) {
    && |rows| <= |after|
    && (forall i :: 0 <= i < |rows| ==> after[i].key == rows[i].key && (rows[i].key == key ==> after[i] == rows[i]))
    && (forall i :: |rows| <= i < |after| ==> after[i].key != key)
  }

  lemma {:induction false} ExecElsewhere(rows: seq<Row>, s: Statement, own: Key, key: Key)
    requires own != key && Targets(rows, s, own)
    ensures SameFor(rows, Exec(rows, s), key) && Total(Exec(rows, s), key) == Total(rows, key)
  {
    match s
    case Insert(_, at) => TotalConcat(rows, [Row(own, at, None, at)], key);
    case Close(i) => TotalUpdate(rows, i, rows[i].(endedAt := Some(rows[i].lastHeartbeatAt)), key);
    case Extend(i, at) => TotalUpdate(rows, i, rows[i].(lastHeartbeatAt := at), key);
    case End(i, at) => TotalUpdate(rows, i, rows[i].(endedAt := Some(at)), key);
  }

  lemma {:induction false} PlanTargets(rows: seq<Row>, b: Beat)
    ensures forall k :: 0 <= k < |Plan(rows, b)| ==> Targets(rows, Plan(rows, b)[k], b.key)
  {
  }

  lemma TargetsStay(rows: seq<Row>, s: Statement, own: Key, other: Statement)
    requires Targets(rows, s, own)
    ensures Targets(Exec(rows, other), s, own)
  {
  }

  lemma {:induction false} AllElsewhere(rows: seq<Row>, run: seq<Statement>, own: Key, key: Key)
    requires own != key && forall k :: 0 <= k < |run| ==> Targets(rows, run[k], own)
    ensures SameFor(rows, ExecAll(rows, run), key) && Total(ExecAll(rows, run), key) == Total(rows, key)
    decreases |run|
  {
    hide Total, Exec, Targets;
    if run != [] {
      ExecElsewhere(rows, run[0], own, key);
      forall k | 1 <= k < |run| ensures Targets(Exec(rows, run[0]), run[k], own) {
        TargetsStay(rows, run[k], own, run[0]);
      }
      AllElsewhere(Exec(rows, run[0]), run[1..], own, key);
    }
  }

  /** A beat of another key leaves a key's intervals alone. */
  lemma {:induction false} OtherKeyUntouched(rows: seq<Row>, b: Beat, key: Key, last: Option<Beat>)
    requires b.key != key && Tidy(rows, key) && UpToDate(rows, key, last)
    ensures var after := Record(rows, b);
            Tidy(after, key) && UpToDate(after, key, last) && Total(after, key) == Total(rows, key)
  {
    hide Tidy, UpToDate, Total, ExecAll, Plan;
    PlanTargets(rows, b);
    AllElsewhere(rows, Plan(rows, b), b.key, key);
    OtherRowsIrrelevant(rows, Record(rows, b), key, last);
  }

  /** Replacing the open row by one of the same start that ends between its last beat and now. */
  lemma {:induction false} ReplaceOpen(rows: seq<Row>, i: nat, r: Row, last: Beat, b: Beat)
    requires Tidy(rows, b.key) && UpToDate(rows, b.key, Some(last)) && last.at <= b.at
    requires i < |rows| && OpenOf(rows[i], b.key)
    requires r.key == b.key && r.startedAt == rows[i].startedAt && last.at <= r.End() <= b.at
    ensures var after := rows[i := r];
            && Tidy(after, b.key)
            && (forall j :: 0 <= j < |rows| && rows[j].key == b.key ==> after[j].End() <= b.at)
            && (forall j :: 0 <= j < |rows| && OpenOf(after[j], b.key) ==> j == i)
            && Total(after, b.key) == Total(rows, b.key) + r.End() - last.at
  {
    TotalUpdate(rows, i, r, b.key);
    assert forall j :: 0 <= j < |rows| && j != i && rows[j].key == b.key ==> j < i;
  }

  /** Starting an interval, or none, behind rows that are all closed by now. */
  lemma {:induction false} AppendStarted(rows: seq<Row>, b: Beat)
    requires Tidy(rows, b.key)
    requires forall j :: 0 <= j < |rows| && rows[j].key == b.key ==> rows[j].endedAt.Some? && rows[j].End() <= b.at
    ensures var after := rows + Started(b);
            Tidy(after, b.key) && UpToDate(after, b.key, Some(b)) && Total(after, b.key) == Total(rows, b.key)
  {
    TotalConcat(rows, Started(b), b.key);
    if b.active {
      assert OpenOf((rows + Started(b))[|rows|], b.key);
    }
  }

  /** The only open row of the key replaced: it is still the open one, or all are closed. */
  lemma {:induction false} ReplacedOpen(rows: seq<Row>, i: nat, r: Row, last: Beat, b: Beat)
    requires Tidy(rows, b.key) && UpToDate(rows, b.key, Some(last)) && last.at <= b.at
    requires i < |rows| && OpenOf(rows[i], b.key)
    requires r.key == b.key && r.startedAt == rows[i].startedAt && last.at <= r.End() <= b.at
    ensures r.endedAt.Some? ==> AllClosed(rows[i := r], b)
    ensures (r.endedAt.None? <==> b.active) && (b.active ==> r.lastHeartbeatAt == b.at) ==> UpToDate(rows[i := r], b.key, Some(b))
  {
    hide Total, Tidy;
    ReplaceOpen(rows, i, r, last, b);
    assert OpenOf(rows[i := r][i], b.key) <==> r.endedAt.None?;
  }

  /** The first planned statement settles the beat, or leaves all closed with the insert to come. */
  lemma {:induction false} FirstStatement(rows: seq<Row>, b: Beat, last: Option<Beat>)
    requires Tidy(rows, b.key) && UpToDate(rows, b.key, last) && (last.Some? ==> last.value.at <= b.at)
    requires Plan(rows, b) != []
    ensures var after := Exec(rows, Plan(rows, b)[0]);
            Tidy(after, b.key) && Total(after, b.key) == Total(rows, b.key) + CountedGap(last, b)
            && if |Plan(rows, b)| == 1 then UpToDate(after, b.key, Some(b))
               else Plan(rows, b)[1..] == [Insert(b.key, b.at)] && b.active && AllClosed(after, b)
  {
    var open := FindOpen(rows, b.key);
    BeatBefore(rows, b.key, last);
    hide Total, Tidy, UpToDate, AllClosed;
    if open.None? {
      NoneOpenClosed(rows, b, last);
      AppendStarted(rows, b);
    } else {
      var i, r := open.value, rows[open.value];
      var next := if b.at - r.lastHeartbeatAt > GAP_THRESHOLD_MS then r.(endedAt := Some(r.lastHeartbeatAt))
                  else if b.active then r.(lastHeartbeatAt := b.at) else r.(endedAt := Some(b.at));
      ReplaceOpen(rows, i, next, last.value, b);
      ReplacedOpen(rows, i, next, last.value, b);
      assert Exec(rows, Plan(rows, b)[0]) == rows[i := next];
    }
  }

  lemma BeatBefore(rows: seq<Row>, key: Key, last: Option<Beat>)
    requires UpToDate(rows, key, last)
    ensures forall i :: 0 <= i < |rows| && OpenOf(rows[i], key) ==>
              last.Some? && last.value.active && rows[i].lastHeartbeatAt == last.value.at
    ensures last.Some? && last.value.active ==> FindOpen(rows, key).Some?
  {
  }

  lemma NoneOpenClosed(rows: seq<Row>, b: Beat, last: Option<Beat>)
    requires UpToDate(rows, b.key, last) && (last.Some? ==> last.value.at <= b.at) && FindOpen(rows, b.key).None?
    ensures forall j :: 0 <= j < |rows| && rows[j].key == b.key ==> rows[j].endedAt.Some? && rows[j].End() <= b.at
  {
  }

  ghost predicate AllClosed(rows: seq<Row>, b: Beat) {
    forall j :: 0 <= j < |rows| && rows[j].key == b.key ==> rows[j].endedAt.Some? && rows[j].End() <= b.at
  }

  /** The insert behind a close starts the beat's interval. */
  lemma {:induction false} InsertSettles(rows: seq<Row>, b: Beat)
    requires Tidy(rows, b.key) && AllClosed(rows, b) && b.active
    ensures var after := Exec(rows, Insert(b.key, b.at));
            Tidy(after, b.key) && UpToDate(after, b.key, Some(b)) && Total(after, b.key) == Total(rows, b.key)
  {
    AppendStarted(rows, b);
    assert Exec(rows, Insert(b.key, b.at)) == rows + Started(b);
  }

  /** A beat that plans nothing finds the key closed. */
  lemma {:induction false} NothingPlanned(rows: seq<Row>, b: Beat, last: Option<Beat>)
    requires Tidy(rows, b.key) && UpToDate(rows, b.key, last) && (last.Some? ==> last.value.at <= b.at)
    requires Plan(rows, b) == []
    ensures UpToDate(rows, b.key, Some(b)) && CountedGap(last, b) == 0
  {
  }

  /** A beat of the key extends its total by exactly the counted gap. */
  lemma {:induction false} OwnBeatCounts(rows: seq<Row>, b: Beat, last: Option<Beat>)
    requires Tidy(rows, b.key) && UpToDate(rows, b.key, last)
    requires last.Some? ==> last.value.at <= b.at
    ensures var after := Record(rows, b);
            Tidy(after, b.key) && UpToDate(after, b.key, Some(b))
            && Total(after, b.key) == Total(rows, b.key) + CountedGap(last, b)
  {
    hide Exec, Tidy, UpToDate, Total, AllClosed;
    var plan := Plan(rows, b);
    if plan == [] {
      NothingPlanned(rows, b, last);
    } else {
      FirstStatement(rows, b, last);
      var first := Exec(rows, plan[0]);
      if |plan| > 1 {
        ExecOne(first, Insert(b.key, b.at));
        InsertSettles(first, b);
      } else {
        assert plan == [plan[0]];
        ExecOne(rows, plan[0]);
      }
    }
  }

  lemma {:induction false} LastBeatAt(trace: seq<Beat>, key: Key)
    ensures LastBeat(trace, key).Some? ==> LastBeat(trace, key).value.key == key && LastBeat(trace, key).value in trace
  {
    if trace != [] && trace[|trace| - 1].key != key { LastBeatAt(trace[..|trace| - 1], key); }
  }

  /** For every trace whose times never run back per key: each key has at most one open
      interval, its intervals are ordered and disjoint, and they add up to the counted gaps. */
  lemma {:induction false} EveryTraceAddsUp(trace: seq<Beat>, key: Key)
    requires TimesNeverBack(trace)
    ensures Tidy(Run(trace), key) && UpToDate(Run(trace), key, LastBeat(trace, key))
    ensures Total(Run(trace), key) == ActiveTime(trace, key)
  {
    if trace != [] {
      var before, b := trace[..|trace| - 1], trace[|trace| - 1];
      EveryTraceAddsUp(before, key);
      if b.key != key {
        OtherKeyUntouched(Run(before), b, key, LastBeat(before, key));
      } else {
        LastBeatAt(before, key);
        OwnBeatCounts(Run(before), b, LastBeat(before, key));
      }
    }
  }

  /** At most one open interval per key, spelled out. */
  lemma {:induction false} OneOpenInterval(trace: seq<Beat>, key: Key, i: nat, j: nat)
    requires TimesNeverBack(trace)
    requires i < |Run(trace)| && j < |Run(trace)| && OpenOf(Run(trace)[i], key) && OpenOf(Run(trace)[j], key)
    ensures i == j
  {
    EveryTraceAddsUp(trace, key);
  }

  // ---- overlapping heartbeats ----------------------------------------------------------------

  ghost predicate OneOpen(rows: seq<Row>, key: Key) {
    forall i, j :: 0 <= i < j < |rows| ==> !(OpenOf(rows[i], key) && OpenOf(rows[j], key))
  }

  /** An insert the unique index cannot refuse although the key has an open interval: there is
      no device. */
  predicate Clashes(rows: seq<Row>, s: Statement, key: Key) {
    s.Insert? && s.key == key && key.device.None? && FindOpen(rows, key).Some?
  }

  lemma {:induction false} StatementKeepsOneOpenIff(rows: seq<Row>, s: Statement, key: Key)
    requires OneOpen(rows, key)
    ensures OneOpen(Exec(rows, s), key) <==> !Clashes(rows, s, key)
  {
    var after := Exec(rows, s);
    if s.Insert? {
      if Clashes(rows, s, key) {
        var i := FindOpen(rows, key).value;
        assert OpenOf(after[i], key) && OpenOf(after[|rows|], key);
      }
    } else {
      assert forall i :: 0 <= i < |after| && OpenOf(after[i], key) ==> OpenOf(rows[i], key);
    }
  }

  /** However heartbeats overlap, and whatever they read: a key keeps at most one open interval
      through the first n statements if and only if none of them clashes. With a device none can. */
  lemma {:induction false} OneOpenThroughoutIff(rows: seq<Row>, run: seq<Statement>, key: Key, n: nat)
    requires OneOpen(rows, key) && n <= |run|
    ensures (forall k :: 0 <= k <= n ==> OneOpen(ExecAll(rows, run[..k]), key))
        <==> (forall k :: 0 <= k < n ==> !Clashes(ExecAll(rows, run[..k]), run[k], key))
  {
    hide OneOpen, Clashes, Exec;
    assert run[..0] == [];
    if n > 0 {
      OneOpenThroughoutIff(rows, run, key, n - 1);
      assert run[..n] == run[..n - 1] + [run[n - 1]];
      ExecThen(rows, run[..n - 1], run[n - 1]);
      if OneOpen(ExecAll(rows, run[..n - 1]), key) {
        StatementKeepsOneOpenIff(ExecAll(rows, run[..n - 1]), run[n - 1], key);
      }
    }
  }

  /** Two first heartbeats without a device that both read before either writes open two
      intervals; with a device the second is refused and its time is lost. */
  lemma {:induction false} OverlapOfOneKey(student: string, device: string, t: int)
    ensures var key := Key(student, None);
            var plans := Plan([], Beat(key, t, true)) + Plan([], Beat(key, t + 30000, true));
            !OneOpen(ExecAll([], plans), key)
    ensures var key := Key(student, Some(device));
            var trace := [Beat(key, t, true), Beat(key, t + 30000, true)];
            var plans := Plan([], trace[0]) + Plan([], trace[1]);
            Total(ExecAll([], plans), key) == 0 && ActiveTime(trace, key) == 30000
  {
    var alone, owned := Key(student, None), Key(student, Some(device));
    var first, second := Row(alone, t, None, t), Row(alone, t + 30000, None, t + 30000);
    InsertsFromNothing(alone, t, t + 30000);
    var both := [first] + [second];
    assert OpenOf(both[0], alone) && OpenOf(both[1], alone);
    assert !OneOpen(both, alone);
    InsertsFromNothing(owned, t, t + 30000);
    var beats := [Beat(owned, t, true), Beat(owned, t + 30000, true)];
    assert beats[..1] == [Beat(owned, t, true)] && beats[..1][..0] == [];
    assert LastBeat(beats[..1], owned) == Some(beats[0]);
    assert ActiveTime(beats[..1], owned) == 0;
  }

  lemma {:induction false} InsertsFromNothing(key: Key, t: int, u: int)
    ensures var plans := Plan([], Beat(key, t, true)) + Plan([], Beat(key, u, true));
            ExecAll([], plans) == [Row(key, t, None, t)] + (if key.device.Some? then [] else [Row(key, u, None, u)])
  {
    var plans := Plan([], Beat(key, t, true)) + Plan([], Beat(key, u, true));
    assert plans == [Insert(key, t)] + [Insert(key, u)];
    ExecThen([], [Insert(key, t)], Insert(key, u));
    ExecOne([], Insert(key, t));
  }

  // ---- heartbeats of different keys may overlap freely ---------------------------------------

  /** A heartbeat reads the table and plans, or executes its next statement. */
  datatype Act = Read(b: Beat) | Write(key: Key)

  /** A heartbeat under way: what it has yet to execute, and the beats read before it. */
  datatype Pending = Pending(b: Beat, todo: seq<Statement>, before: seq<Beat>)

  datatype Table = Table(rows: seq<Row>, trace: seq<Beat>, pending: map<Key, Pending>)

  function Do(t: Table, a: Act): Table {
    match a
    case Read(b) =>
      var plan := Plan(t.rows, b);
      Table(t.rows, t.trace + [b],
            if plan == [] then t.pending - {b.key} else t.pending[b.key := Pending(b, plan, t.trace)])
    case Write(key) =>
      if key !in t.pending || t.pending[key].todo == [] then t
      else
        var p := t.pending[key];
        Table(Exec(t.rows, p.todo[0]), t.trace,
              if |p.todo| == 1 then t.pending - {key} else t.pending[key := p.(todo := p.todo[1..])])
  }

  function DoAll(acts: seq<Act>): Table {
    if acts == [] then Table([], [], map[])
    else Do(DoAll(acts[..|acts| - 1]), acts[|acts| - 1])
  }

  /** No heartbeat reads while another one of its key is under way. */
  ghost predicate KeysTakeTurns(acts: seq<Act>) {
    forall n :: 0 <= n < |acts| && acts[n].Read? ==> acts[n].b.key !in DoAll(acts[..n]).pending
  }

  ghost predicate Settled(rows: seq<Row>, trace: seq<Beat>, key: Key) {
    Tidy(rows, key) && UpToDate(rows, key, LastBeat(trace, key)) && Total(rows, key) == ActiveTime(trace, key)
  }

  /** A heartbeat of the key is under way: nothing of it is executed, or all but its insert. */
  ghost predicate UnderWay(rows: seq<Row>, trace: seq<Beat>, key: Key, p: Pending) {
    && p.b.key == key && LastBeat(trace, key) == Some(p.b)
    && ActiveTime(trace, key) == ActiveTime(p.before, key) + CountedGap(LastBeat(p.before, key), p.b)
    && (LastBeat(p.before, key).Some? ==> LastBeat(p.before, key).value.at <= p.b.at)
    && (forall k :: 0 <= k < |p.todo| ==> Targets(rows, p.todo[k], key))
    && p.todo != []
    && (|| (p.todo == Plan(rows, p.b) && Settled(rows, p.before, key))
        || (p.todo == [Insert(key, p.b.at)] && p.b.active && Tidy(rows, key) && AllClosed(rows, p.b)
            && Total(rows, key) == ActiveTime(trace, key)))
  }

  ghost predicate Good(t: Table, key: Key) {
    if key in t.pending then UnderWay(t.rows, t.trace, key, t.pending[key]) else Settled(t.rows, t.trace, key)
  }

  lemma {:induction false} TraceGrows(trace: seq<Beat>, b: Beat, key: Key)
    ensures LastBeat(trace + [b], key) == if b.key == key then Some(b) else LastBeat(trace, key)
    ensures ActiveTime(trace + [b], key)
         == ActiveTime(trace, key) + (if b.key == key then CountedGap(LastBeat(trace, key), b) else 0)
  {
    assert (trace + [b])[..|trace|] == trace;
  }

  lemma {:induction false} ReadKeepsGood(t: Table, b: Beat, key: Key)
    requires Good(t, key) && (b.key == key ==> key !in t.pending)
    requires LastBeat(t.trace, key).Some? && b.key == key ==> LastBeat(t.trace, key).value.at <= b.at
    ensures Good(Do(t, Read(b)), key)
  {
    hide Plan, Tidy, UpToDate, Total, Targets, LastBeat, ActiveTime, AllClosed;
    TraceGrows(t.trace, b, key);
    if b.key == key {
      PlanTargets(t.rows, b);
      if Plan(t.rows, b) == [] {
        NothingPlanned(t.rows, b, LastBeat(t.trace, key));
      }
    }
  }

  lemma {:induction false} SameForKeeps(rows: seq<Row>, after: seq<Row>, key: Key, b: Beat)
    requires SameFor(rows, after, key) && b.key == key
    ensures OneOpen(rows, key) ==> Plan(after, b) == Plan(rows, b)
    ensures Tidy(rows, key) ==> Tidy(after, key) && OneOpen(rows, key)
    ensures AllClosed(rows, b) ==> AllClosed(after, b)
  {
    forall i | 0 <= i < |after| && after[i].key == key ensures i < |rows| && after[i] == rows[i] {
    }
    assert FindOpen(after, key).Some? ==> OpenOf(rows[FindOpen(after, key).value], key);
    assert FindOpen(rows, key).Some? ==> OpenOf(after[FindOpen(rows, key).value], key);
  }

  lemma {:induction false} OtherWriteKeepsGood(t: Table, own: Key, key: Key)
    requires own != key && own in t.pending && UnderWay(t.rows, t.trace, own, t.pending[own]) && Good(t, key)
    ensures Good(Do(t, Write(own)), key)
  {
    hide Plan, Tidy, UpToDate, Total, Targets, LastBeat, ActiveTime, AllClosed, Exec, OneOpen, SameFor;
    var s := t.pending[own].todo[0];
    var after := Exec(t.rows, s);
    ExecElsewhere(t.rows, s, own, key);
    if key in t.pending {
      var p := t.pending[key];
      SameForKeeps(t.rows, after, key, p.b);
      forall k | 0 <= k < |p.todo| ensures Targets(after, p.todo[k], key) {
        TargetsStay(t.rows, p.todo[k], key, s);
      }
      if Settled(t.rows, p.before, key) {
        SettledStays(t.rows, after, p.before, key);
      }
    } else {
      SettledStays(t.rows, after, t.trace, key);
    }
  }

  lemma SettledStays(rows: seq<Row>, after: seq<Row>, trace: seq<Beat>, key: Key)
    requires Settled(rows, trace, key) && SameFor(rows, after, key) && Total(after, key) == Total(rows, key)
    ensures Settled(after, trace, key)
  {
    hide Tidy, UpToDate, Total, LastBeat, ActiveTime;
    OtherRowsIrrelevant(rows, after, key, LastBeat(trace, key));
  }

  lemma {:induction false} OwnWriteKeepsGood(t: Table, key: Key)
    requires key in t.pending && Good(t, key)
    ensures Good(Do(t, Write(key)), key)
  {
    hide Plan, Tidy, UpToDate, Total, LastBeat, ActiveTime, Exec, AllClosed;
    var p := t.pending[key];
    if p.todo == Plan(t.rows, p.b) && Settled(t.rows, p.before, key) {
      FirstStatement(t.rows, p.b, LastBeat(p.before, key));
    } else {
      InsertSettles(t.rows, p.b);
    }
  }

  lemma {:induction false} TraceOfPrefix(acts: seq<Act>, n: nat)
    requires n <= |acts|
    ensures |DoAll(acts[..n]).trace| <= |DoAll(acts).trace|
    ensures DoAll(acts).trace[..|DoAll(acts[..n]).trace|] == DoAll(acts[..n]).trace
  {
    hide Plan, Exec;
    if n < |acts| {
      var front := acts[..|acts| - 1];
      TraceOfPrefix(front, n);
      assert front[..n] == acts[..n];
    } else {
      assert acts[..n] == acts;
    }
  }

  lemma {:induction false} EveryKeyGood(acts: seq<Act>, key: Key)
    requires KeysTakeTurns(acts) && TimesNeverBack(DoAll(acts).trace)
    ensures Good(DoAll(acts), key)
    decreases |acts|
  {
    hide Plan, Exec, Good, UnderWay, TimesNeverBack;
    if acts == [] {
      NothingYet(key);
    } else {
      var n := |acts| - 1;
      var front, last := acts[..n], acts[n];
      TraceOfPrefix(acts, n);
      PrefixInOrder(DoAll(acts).trace, |DoAll(front).trace|);
      assert forall k :: 0 <= k < n ==> front[..k] == acts[..k];
      EveryKeyGood(front, key);
      var t := DoAll(front);
      match last {
        case Read(b) =>
          OrderOfLast(t.trace, b, key);
          ReadKeepsGood(t, b, key);
        case Write(own) =>
          if own in t.pending {
            EveryKeyGood(front, own);
            GoodIsUnderWay(t, own);
            if own == key { OwnWriteKeepsGood(t, key); } else { OtherWriteKeepsGood(t, own, key); }
          }
      }
    }
  }

  lemma NothingYet(key: Key)
    ensures Good(Table([], [], map[]), key)
  {
  }

  lemma GoodIsUnderWay(t: Table, key: Key)
    requires key in t.pending && Good(t, key)
    ensures UnderWay(t.rows, t.trace, key, t.pending[key])
  {
  }

  lemma PrefixInOrder(trace: seq<Beat>, n: nat)
    requires n <= |trace| && TimesNeverBack(trace)
    ensures TimesNeverBack(trace[..n])
  {
  }

  lemma {:induction false} OrderOfLast(trace: seq<Beat>, b: Beat, key: Key)
    requires TimesNeverBack(trace + [b])
    ensures LastBeat(trace, key).Some? && b.key == key ==> LastBeat(trace, key).value.at <= b.at
  {
    LastBeatAt(trace, key);
    if LastBeat(trace, key).Some? && b.key == key {
      var i :| 0 <= i < |trace| && trace[i] == LastBeat(trace, key).value;
      assert (trace + [b])[i] == trace[i] && (trace + [b])[|trace|] == b;
    }
  }

  /** For every interleaving of the statements of all heartbeats in which the heartbeats of one key
      take turns: a key with none under way has at most one open interval, its intervals are
      ordered and disjoint, and they add up to the counted gaps. */
  lemma {:induction false} EveryInterleavingAddsUp(acts: seq<Act>, key: Key)
    requires KeysTakeTurns(acts) && TimesNeverBack(DoAll(acts).trace) && key !in DoAll(acts).pending
    ensures var t := DoAll(acts);
            && Tidy(t.rows, key) && UpToDate(t.rows, key, LastBeat(t.trace, key))
            && Total(t.rows, key) == ActiveTime(t.trace, key) && OneOpen(t.rows, key)
  {
    EveryKeyGood(acts, key);
  }

  /** In a run of interleaved statements a heartbeat whose writes directly follow its read leaves
      exactly the recorded table, and is no longer under way. */
  lemma {:induction false} UndisturbedIsRecorded(acts: seq<Act>, b: Beat)
    requires b.key !in DoAll(acts).pending
    ensures var t, after := DoAll(acts), DoAll(acts + [Read(b)] + [Write(b.key)] + [Write(b.key)]);
            after == Table(Record(t.rows, b), t.trace + [b], t.pending)
  {
    hide Exec, Plan;
    var t := DoAll(acts);
    var plan := Plan(t.rows, b);
    DoAllThen(acts, Read(b));
    DoAllThen(acts + [Read(b)], Write(b.key));
    DoAllThen(acts + [Read(b)] + [Write(b.key)], Write(b.key));
    PlanIsShort(t.rows, b);
    if |plan| == 1 {
      assert plan == [plan[0]];
      ExecOne(t.rows, plan[0]);
    } else if |plan| == 2 {
      assert plan == [plan[0]] + [plan[1]];
      ExecThen(t.rows, [plan[0]], plan[1]);
      ExecOne(t.rows, plan[0]);
    }
  }

  lemma DoAllThen(acts: seq<Act>, a: Act)
    ensures DoAll(acts + [a]) == Do(DoAll(acts), a)
  {
    assert (acts + [a])[..|acts|] == acts;
  }

  lemma PlanIsShort(rows: seq<Row>, b: Beat)
    ensures |Plan(rows, b)| <= 2
  {
  }
}
