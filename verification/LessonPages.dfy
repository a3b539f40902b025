/** Page order of a lesson: appending, the two-phase reorder, deleting with gap closing, and a
    session's way through the pages. The table is a sequence in the order the database scans
    it; UNIQUE(lesson_id, position) is not deferrable, so it is checked after every row. */
module LessonPages {
  import opened Wrappers

  datatype Page = Page(id: string, pos: int)

  ghost predicate DistinctIds(rows: seq<Page>) {
    forall i, j :: 0 <= i < j < |rows| ==> rows[i].id != rows[j].id
  }

  ghost predicate UniquePositions(rows: seq<Page>) {
    forall i, j :: 0 <= i < j < |rows| ==> rows[i].pos != rows[j].pos
  }

  /** Positions are exactly 1..n. */
  ghost predicate Numbered(rows: seq<Page>) {
    && DistinctIds(rows) && UniquePositions(rows)
    && forall k :: 0 <= k < |rows| ==> 1 <= rows[k].pos <= |rows|
  }

  /** A statement that ran, or one that the database refused. */
  datatype Outcome = Updated(rows: seq<Page>) | Conflict

  predicate Taken(rows: seq<Page>, k: nat, pos: int)
    requires k < |rows|
  {
    exists j :: 0 <= j < |rows| && j != k && rows[j].pos == pos
  }

  /** A bulk UPDATE of positions: rows from k on, in scan order, each checked at once. */
  function Sweep(rows: seq<Page>, k: nat, target: Page -> int): Outcome
    requires k <= |rows|
    decreases |rows| - k
  {
    if k == |rows| then Updated(rows)
    else if Taken(rows, k, target(rows[k])) then Conflict
    else Sweep(rows[k := rows[k].(pos := target(rows[k]))], k + 1, target)
  }

  function FindPage(rows: seq<Page>, id: string): (k: Option<nat>)
    ensures k.Some? ==> k.value < |rows| && rows[k.value].id == id
    ensures k.None? ==> forall j :: 0 <= j < |rows| ==> rows[j].id != id
  {
    if rows == [] then None
    else if rows[0].id == id then Some(0)
    else
      var k := FindPage(rows[1..], id);
      if k.Some? then Some(k.value + 1) else None
  }

  /** Phase 2 from index i on: one single-row UPDATE per listed id; unknown ids update nothing. */
  function Assign(rows: seq<Page>, order: seq<string>, i: nat): Outcome
    requires i <= |order|
    decreases |order| - i
  {
    if i == |order| then Updated(rows)
    else
      var k := FindPage(rows, order[i]);
      if k.None? then Assign(rows, order, i + 1)
      else if Taken(rows, k.value, i + 1) then Conflict
      else Assign(rows[k.value := rows[k.value].(pos := i + 1)], order, i + 1)
  }

  const MAX_PAGES := 200
  const SHIFT := 1000000

  /** An entry of a reorder request: the id that UUID text denotes (null denotes no page's), or
      anything else, which the database cannot read as a UUID. */
  datatype Listed = Uuid(id: string) | NotUuid

  function Capped(request: seq<Listed>): seq<Listed> {
    if |request| <= MAX_PAGES then request else request[..MAX_PAGES]
  }

  /** The ids the first entries of a request list, if they all are UUIDs. */
  function Requested(request: seq<Listed>): (order: Option<seq<string>>)
    ensures order.Some? ==> |order.value| <= MAX_PAGES
  {
    var listed := Capped(request);
    if forall k :: 0 <= k < |listed| ==> listed[k].Uuid? then
      Some(seq(|listed|, k requires 0 <= k < |listed| => listed[k].id))
    else None
  }

  function Shifted(order: seq<string>): Page -> int {
    (p: Page) => if p.id in order then p.pos + SHIFT else p.pos
  }

  /** Both phases of a reorder. */
  function Rearranged(rows: seq<Page>, order: seq<string>): Outcome {
    var phase1 := Sweep(rows, 0, Shifted(order));
    if phase1.Conflict? then Conflict else Assign(phase1.rows, order, 0)
  }

  /** The transaction of a reorder; an entry that is no UUID, or a conflict, rolls it back. */
  function Reordered(rows: seq<Page>, request: seq<Listed>): Outcome {
    var order := Requested(request);
    if order.None? then Conflict else Rearranged(rows, order.value)
  }

  function Committed(rows: seq<Page>, o: Outcome): seq<Page> {
    if o.Updated? then o.rows else rows
  }

  function GapClosed(gap: int): Page -> int {
    (p: Page) => if p.pos > gap then p.pos - 1 else p.pos
  }

  /** The transaction of a delete. */
  function Deleted(rows: seq<Page>, id: string): Outcome {
    var k := FindPage(rows, id);
    if k.None? then Updated(rows)
    else Sweep(rows[..k.value] + rows[k.value + 1..], 0, GapClosed(rows[k.value].pos))
  }

  function MaxPosition(rows: seq<Page>): int {
    if rows == [] then 0
    else var rest := MaxPosition(rows[1..]); if rows[0].pos > rest then rows[0].pos else rest
  }

  predicate Held(rows: seq<Page>, pos: int) {
    exists k :: 0 <= k < |rows| && rows[k].pos == pos
  }

  /** The second statement of a create: an insert behind the greatest position once read. */
  function Inserted(rows: seq<Page>, id: string, maxPos: int): Outcome {
    if Held(rows, maxPos + 1) then Conflict else Updated(rows + [Page(id, maxPos + 1)])
  }

  class Lesson {
    var rows: seq<Page>

    constructor ()
      ensures rows == []
    {
      rows := [];
    }

    /** A create reads the greatest position and then inserts; `meanwhile` is the table as other
        requests have left it by then. */
    method CreatePage(id: string, meanwhile: seq<Page>) returns (ok: bool)
      modifies this
      ensures var o := Inserted(meanwhile, id, MaxPosition(old(rows)));
              ok == o.Updated? && rows == Committed(meanwhile, o)
    {
      var maxPos := MaxPosition(rows);
      rows := meanwhile;
      if Held(rows, maxPos + 1) {
        return false;
      }
      rows := rows + [Page(id, maxPos + 1)];
      return true;
    }

    method Reorder(request: seq<Listed>) returns (ok: bool)
      modifies this
      ensures var o := Reordered(old(rows), request);
              ok == o.Updated? && rows == Committed(old(rows), o)
    {
      var ids := Requested(request);
      if ids.None? {
        return false;
      }
      var order := ids.value;
      var phase1 := Sweep(rows, 0, Shifted(order));
      if phase1.Conflict? {
        return false;
      }
      var work := phase1.rows;
      var i := 0;
      while i < |order|
        invariant 0 <= i <= |order|
        invariant Assign(work, order, i) == Assign(phase1.rows, order, 0)
      {
        var k := FindPage(work, order[i]);
        if k.Some? {
          if Taken(work, k.value, i + 1) {
            return false;
          }
          work := work[k.value := work[k.value].(pos := i + 1)];
        }
        i := i + 1;
      }
      rows := work;
      return true;
    }

    method DeletePage(id: string) returns (ok: bool)
      modifies this
      ensures var o := Deleted(old(rows), id);
              ok == o.Updated? && rows == Committed(old(rows), o)
    {
      var k := FindPage(rows, id);
      if k.None? {
        return true;
      }
      var gap := rows[k.value].pos;
      var closed := Sweep(rows[..k.value] + rows[k.value + 1..], 0, GapClosed(gap));
      if closed.Conflict? {
        return false;
      }
      rows := closed.rows;
      return true;
    }
  }

  // ---- bulk updates, row by row ------------------------------------------------------------------

  function Moved(rows: seq<Page>, target: Page -> int): seq<Page> {
    seq(|rows|, k requires 0 <= k < |rows| => rows[k].(pos := target(rows[k])))
  }

  /** Rows before k already moved, the others still where they were. */
  function Midway(rows: seq<Page>, target: Page -> int, k: nat): seq<Page>
    requires k <= |rows|
  {
    Moved(rows, target)[..k] + rows[k..]
  }

  /** Row k can move when its turn comes: no moved row and no waiting row is in its way. */
  ghost predicate CanMove(rows: seq<Page>, target: Page -> int, k: nat)
    requires k < |rows|
  {
    && (forall j :: 0 <= j < k ==> target(rows[j]) != target(rows[k]))
    && (forall j :: k < j < |rows| ==> rows[j].pos != target(rows[k]))
  }

  lemma {:induction false} MidwayRows(rows: seq<Page>, target: Page -> int, k: nat)
    requires k < |rows|
    ensures var mid := Midway(rows, target, k);
            && |mid| == |rows| && mid[k] == rows[k]
            && (Taken(mid, k, target(rows[k])) <==> !CanMove(rows, target, k))
            && mid[k := rows[k].(pos := target(rows[k]))] == Midway(rows, target, k + 1)
  {
    var mid := Midway(rows, target, k);
    assert forall j :: 0 <= j < k ==> mid[j].pos == target(rows[j]);
    assert forall j :: k <= j < |rows| ==> mid[j] == rows[j];
  }

  lemma {:induction false} SweepFrom(rows: seq<Page>, target: Page -> int, k: nat)
    requires k <= |rows|
    ensures Sweep(Midway(rows, target, k), k, target)
         == if forall i :: k <= i < |rows| ==> CanMove(rows, target, i) then Updated(Moved(rows, target)) else Conflict
    decreases |rows| - k
  {
    hide Taken, CanMove;
    if k == |rows| {
      assert Midway(rows, target, k) == Moved(rows, target);
    } else {
      MidwayRows(rows, target, k);
      SweepFrom(rows, target, k + 1);
    }
  }

  /** A bulk update goes through exactly when every row can move at its turn in scan order. */
  lemma {:induction false} SweepExactly(rows: seq<Page>, target: Page -> int)
    ensures Sweep(rows, 0, target)
         == if forall i :: 0 <= i < |rows| ==> CanMove(rows, target, i) then Updated(Moved(rows, target)) else Conflict
  {
    assert Midway(rows, target, 0) == rows;
    SweepFrom(rows, target, 0);
  }

  /** If every row can move, positions are unique at every step of the sweep. */
  lemma {:induction false} MidwayUnique(rows: seq<Page>, target: Page -> int, k: nat)
    requires k <= |rows| && UniquePositions(rows)
    requires forall i :: 0 <= i < |rows| ==> CanMove(rows, target, i)
    ensures UniquePositions(Midway(rows, target, k))
  {
    var mid := Midway(rows, target, k);
    forall i, j | 0 <= i < j < |rows| ensures mid[i].pos != mid[j].pos {
      assert i < k ==> CanMove(rows, target, i);
      assert j < k ==> CanMove(rows, target, j);
      assert mid[i].pos == (if i < k then target(rows[i]) else rows[i].pos);
      assert mid[j].pos == (if j < k then target(rows[j]) else rows[j].pos);
    }
  }

  // ---- create ---------------------------------------------------------------------------------------

  lemma {:induction false} MaxOfNumbered(rows: seq<Page>)
    ensures forall k :: 0 <= k < |rows| ==> rows[k].pos <= MaxPosition(rows)
    ensures MaxPosition(rows) == 0 || exists k :: 0 <= k < |rows| && rows[k].pos == MaxPosition(rows)
  {
    if rows != [] {
      MaxOfNumbered(rows[1..]);
      assert forall k :: 1 <= k < |rows| ==> rows[k] == rows[1..][k - 1];
      if MaxPosition(rows) == rows[0].pos {
      } else if MaxPosition(rows) != 0 {
        var k :| 0 <= k < |rows[1..]| && rows[1..][k].pos == MaxPosition(rows);
        assert rows[k + 1].pos == MaxPosition(rows);
      }
    }
  }

  /** Every position 1..n is held by some page. */
  lemma {:induction false} NumberedIsOnto(rows: seq<Page>, p: int)
    requires Numbered(rows) && 1 <= p <= |rows|
    ensures exists k :: 0 <= k < |rows| && rows[k].pos == p
  {
    var held := set k | 0 <= k < |rows| :: rows[k].pos;
    var all := UpTo(|rows|);
    HeldCount(rows, |rows|);
    SubsetOfSameSize(held, all);
    assert p in held;
  }

  lemma {:induction false} HeldCount(rows: seq<Page>, n: nat)
    requires n <= |rows| && UniquePositions(rows)
    ensures |set k | 0 <= k < n :: rows[k].pos| == n
  {
    if n > 0 {
      HeldCount(rows, n - 1);
      assert (set k | 0 <= k < n :: rows[k].pos) == (set k | 0 <= k < n - 1 :: rows[k].pos) + {rows[n - 1].pos};
    }
  }

  /** The positions 1..n. */
  function UpTo(n: nat): (all: set<int>)
    ensures |all| == n && forall q :: q in all <==> 1 <= q <= n
  {
    if n == 0 then {} else UpTo(n - 1) + {n}
  }

  lemma {:induction false} SubsetOfSameSize<T>(a: set<T>, b: set<T>)
    requires a <= b && |a| == |b|
    ensures a == b
  {
    if x :| x in b && x !in a {
      SubsetNoLarger(a, b - {x});
    }
  }

  lemma {:induction false} SubsetNoLarger<T>(a: set<T>, b: set<T>)
    requires a <= b
    ensures |a| <= |b|
  {
    if x :| x in a {
      SubsetNoLarger(a - {x}, b - {x});
    }
  }

  /** An insert keeps the numbering 1..n exactly when the lesson has not shrunk since the greatest
      position was read: it appends if the lesson is as long as then, and is refused if longer. */
  lemma {:induction false} CreateKeepsNumberedIff(before: seq<Page>, rows: seq<Page>, id: string)
    requires Numbered(before) && Numbered(rows) && FindPage(rows, id).None?
    ensures MaxPosition(before) == |before|
    ensures var o := Inserted(rows, id, MaxPosition(before));
            && (Numbered(Committed(rows, o)) <==> |before| <= |rows|)
            && o == if |before| < |rows| then Conflict else Updated(rows + [Page(id, |before| + 1)])
  {
    MaxOfNumbered(before);
    if |before| > 0 {
      NumberedIsOnto(before, |before|);
    }
    if |before| < |rows| {
      NumberedIsOnto(rows, |before| + 1);
    } else {
      var after := rows + [Page(id, |before| + 1)];
      assert after[|rows|].pos == |before| + 1;
    }
  }

  /** Appending after the last page keeps the numbering 1..n. */
  lemma {:induction false} CreateKeepsNumbered(rows: seq<Page>, id: string)
    requires Numbered(rows) && FindPage(rows, id).None?
    ensures var after := rows + [Page(id, |rows| + 1)];
            Inserted(rows, id, MaxPosition(rows)) == Updated(after) && Numbered(after)
  {
    CreateKeepsNumberedIff(rows, rows, id);
  }

  /** A delete between the two statements of a create leaves a gap. */
  lemma {:induction false} DeleteDuringCreateLeavesGap()
    ensures var rows, rest := [Page("a", 1), Page("b", 2)], [Page("b", 1)];
            && Numbered(rows) && Deleted(rows, "a") == Updated(rest)
            && Inserted(rest, "c", MaxPosition(rows)) == Updated(rest + [Page("c", 3)])
            && !Numbered(rest + [Page("c", 3)])
  {
    hide Deleted, Inserted, MaxPosition;
    FirstOfTwoDeleted();
    CreateKeepsNumberedIff([Page("a", 1), Page("b", 2)], [Page("b", 1)], "c");
  }

  lemma {:induction false} FirstOfTwoDeleted()
    ensures var rows, rest := [Page("a", 1), Page("b", 2)], [Page("b", 1)];
            Numbered(rows) && Numbered(rest) && Deleted(rows, "a") == Updated(rest)
  {
    hide Sweep;
    var rows := [Page("a", 1), Page("b", 2)];
    assert FindPage(rows, "a") == Some(0);
    assert rows[..0] + rows[1..] == [Page("b", 2)];
    SecondCloses();
  }

  lemma SecondCloses()
    ensures Sweep([Page("b", 2)], 0, GapClosed(1)) == Updated([Page("b", 1)])
  {
    SweepExactly([Page("b", 2)], GapClosed(1));
    assert Moved([Page("b", 2)], GapClosed(1)) == [Page("b", 1)];
  }

  // ---- delete -----------------------------------------------------------------------------------------

  /** The rows above the gap stand, in scan order, behind the row just below them. */
  ghost predicate ScannedUpwards(rows: seq<Page>, gap: int) {
    forall i, j :: 0 <= i < |rows| && 0 <= j < |rows| && rows[i].pos > gap && rows[j].pos == rows[i].pos + 1 ==> i < j
  }

  /** The pages a delete leaves: a numbering 1..n+1 with one position missing. */
  ghost predicate GapAt(rest: seq<Page>, gap: int) {
    && DistinctIds(rest) && UniquePositions(rest) && 1 <= gap <= |rest| + 1
    && forall k :: 0 <= k < |rest| ==> 1 <= rest[k].pos <= |rest| + 1 && rest[k].pos != gap
  }

  lemma {:induction false} GapClosesIff(rest: seq<Page>, gap: int)
    requires GapAt(rest, gap)
    ensures Sweep(rest, 0, GapClosed(gap))
         == if ScannedUpwards(rest, gap) then Updated(Moved(rest, GapClosed(gap))) else Conflict
  {
    var target := GapClosed(gap);
    SweepExactly(rest, target);
    if ScannedUpwards(rest, gap) {
      forall i | 0 <= i < |rest| ensures CanMove(rest, target, i) {
        forall j | 0 <= j < |rest| && j != i ensures rest[j].pos != rest[i].pos && rest[j].pos != gap {
        }
      }
    } else {
      var i, j :| 0 <= i < |rest| && 0 <= j < |rest| && rest[i].pos > gap && rest[j].pos == rest[i].pos + 1 && !(i < j);
      assert target(rest[j]) == rest[i].pos;
      assert !CanMove(rest, target, j);
    }
  }

  lemma {:induction false} GapClosedIsNumbered(rest: seq<Page>, gap: int)
    requires GapAt(rest, gap)
    ensures Numbered(Moved(rest, GapClosed(gap)))
  {
    var closed := Moved(rest, GapClosed(gap));
    forall i, j | 0 <= i < j < |closed| ensures closed[i].pos != closed[j].pos && closed[i].id != closed[j].id {
      assert rest[i].pos != rest[j].pos && rest[i].pos != gap && rest[j].pos != gap;
    }
  }

  /** A delete of an existing page commits exactly when the scan meets the pages above the gap
      upwards; then the others close up in order. Otherwise it is rolled back. Either way the
      numbering stays 1..n. */
  lemma {:induction false} DeleteKeepsNumbered(rows: seq<Page>, id: string, at: nat)
    requires Numbered(rows) && at < |rows| && rows[at].id == id
    ensures var rest, gap := rows[..at] + rows[at + 1..], rows[at].pos;
            if ScannedUpwards(rest, gap) then
              Deleted(rows, id) == Updated(Moved(rest, GapClosed(gap))) && Numbered(Moved(rest, GapClosed(gap)))
            else Deleted(rows, id) == Conflict
  {
    assert FindPage(rows, id) == Some(at);
    RestOfNumbered(rows, at);
    GapClosesIff(rows[..at] + rows[at + 1..], rows[at].pos);
    GapClosedIsNumbered(rows[..at] + rows[at + 1..], rows[at].pos);
  }

  lemma {:induction false} RestOfNumbered(rows: seq<Page>, at: nat)
    requires Numbered(rows) && at < |rows|
    ensures GapAt(rows[..at] + rows[at + 1..], rows[at].pos)
  {
    var rest := rows[..at] + rows[at + 1..];
    assert forall k :: 0 <= k < |rest| ==> rest[k] == rows[if k < at then k else k + 1];
  }

  /** A scan that meets the upper page first makes the delete fail. */
  lemma {:induction false} DownwardScanFails()
    ensures Numbered([Page("a", 1), Page("c", 3), Page("b", 2)])
    ensures Deleted([Page("a", 1), Page("c", 3), Page("b", 2)], "a") == Conflict
  {
    var rows := [Page("a", 1), Page("c", 3), Page("b", 2)];
    DeleteKeepsNumbered(rows, "a", 0);
    var rest := rows[..0] + rows[1..];
    assert rest[1].pos == 2 && rest[0].pos == 3;
  }

  // ---- reorder ------------------------------------------------------------------------------------------

  /** The last index at which an id is listed from i on. */
  function LastIndex(order: seq<string>, i: nat, id: string): Option<nat>
    requires i <= |order|
    decreases |order| - i
  {
    if i == |order| then None
    else
      var later := LastIndex(order, i + 1, id);
      if later.Some? then later else if order[i] == id then Some(i) else None
  }

  lemma {:induction false} LastIndexIs(order: seq<string>, i: nat, id: string)
    requires i <= |order|
    ensures LastIndex(order, i, id).None? <==> forall j :: i <= j < |order| ==> order[j] != id
    ensures LastIndex(order, i, id).Some? ==>
              i <= LastIndex(order, i, id).value < |order| && order[LastIndex(order, i, id).value] == id
              && forall j :: LastIndex(order, i, id).value < j < |order| ==> order[j] != id
    decreases |order| - i
  {
    if i < |order| { LastIndexIs(order, i + 1, id); }
  }

  /** Where an id ends up when its page stood at `pos` before phase 2. */
  function FinalPos(order: seq<string>, i: nat, p: Page): int
    requires i <= |order|
  {
    var at := LastIndex(order, i, p.id); if at.Some? then at.value + 1 else p.pos
  }

  /** Phase 2, when it commits, puts each listed page at its last listed index, counted from 1,
      touches no other, and keeps positions unique. */
  lemma {:induction false} AssignMeans(rows: seq<Page>, order: seq<string>, i: nat)
    requires i <= |order| && DistinctIds(rows) && UniquePositions(rows)
    ensures Assign(rows, order, i).Updated? ==>
              var after := Assign(rows, order, i).rows;
              |after| == |rows| && UniquePositions(after)
              && forall k :: 0 <= k < |rows| ==> after[k] == Page(rows[k].id, FinalPos(order, i, rows[k]))
    decreases |order| - i
  {
    if i < |order| {
      var k := FindPage(rows, order[i]);
      if k.None? {
        AssignMeans(rows, order, i + 1);
      } else if !Taken(rows, k.value, i + 1) {
        var next := rows[k.value := rows[k.value].(pos := i + 1)];
        AssignMeans(next, order, i + 1);
        forall j | 0 <= j < |rows| ensures FinalPos(order, i, rows[j]) == FinalPos(order, i + 1, next[j]) {
        }
      }
    }
  }

  /** Phase 1 never conflicts on a table of at most a million pages, whatever ids are listed,
      and keeps positions unique after every single row. */
  lemma {:induction false} ShiftNeverConflicts(rows: seq<Page>, order: seq<string>, k: nat)
    requires Numbered(rows) && |rows| <= 1000000 && k <= |rows|
    ensures Sweep(rows, 0, Shifted(order)) == Updated(Moved(rows, Shifted(order)))
    ensures forall j :: 0 <= j < |rows| ==>
              Moved(rows, Shifted(order))[j] == Page(rows[j].id, if rows[j].id in order then rows[j].pos + 1000000 else rows[j].pos)
    ensures UniquePositions(Midway(rows, Shifted(order), k)) && UniquePositions(Moved(rows, Shifted(order)))
  {
    var target := Shifted(order);
    forall i | 0 <= i < |rows| ensures CanMove(rows, target, i) {
    }
    SweepExactly(rows, target);
    MidwayUnique(rows, target, k);
    MidwayUnique(rows, target, |rows|);
    assert Midway(rows, target, |rows|) == Moved(rows, target);
  }

  /** Some known page is listed for a position that an unlisted page holds. */
  ghost predicate Blocked(rows: seq<Page>, order: seq<string>, from: nat) {
    exists i, k :: from <= i < |order| && 0 <= k < |rows|
                && rows[k].id !in order && rows[k].pos == i + 1 && FindPage(rows, order[i]).Some?
  }

  /** Listed pages stand either where phase 2 put them before index i, or far above. */
  ghost predicate ListedAside(rows: seq<Page>, order: seq<string>, i: nat) {
    forall k :: 0 <= k < |rows| && rows[k].id in order ==> rows[k].pos <= i || rows[k].pos > SHIFT
  }

  /** One update of phase 2 finds its position taken exactly when an unlisted page holds it. */
  lemma {:induction false} AssignOne(rows: seq<Page>, order: seq<string>, i: nat, at: nat)
    requires i < |order| <= MAX_PAGES && ListedAside(rows, order, i)
    requires FindPage(rows, order[i]) == Some(at)
    ensures Taken(rows, at, i + 1) ==> Blocked(rows, order, i)
    ensures var next := rows[at := rows[at].(pos := i + 1)];
            ListedAside(next, order, i + 1)
            && (!Taken(rows, at, i + 1) ==> (Blocked(rows, order, i) <==> Blocked(next, order, i + 1)))
  {
    var next := rows[at := rows[at].(pos := i + 1)];
    SameKnown(rows, next, order);
    assert rows[at].id in order;
    if j, k :| i <= j < |order| && 0 <= k < |rows|
               && rows[k].id !in order && rows[k].pos == j + 1 && FindPage(rows, order[j]).Some?
    {
      assert j == i ==> Taken(rows, at, i + 1);
      assert next[k] == rows[k] && FindPage(next, order[j]).Some?;
    }
    if j, k :| i + 1 <= j < |order| && 0 <= k < |next|
               && next[k].id !in order && next[k].pos == j + 1 && FindPage(next, order[j]).Some?
    {
      assert next[k] == rows[k] && FindPage(rows, order[j]).Some?;
    }
  }

  lemma SameKnown(rows: seq<Page>, next: seq<Page>, order: seq<string>)
    requires |rows| == |next| && forall k :: 0 <= k < |rows| ==> rows[k].id == next[k].id
    ensures forall j :: 0 <= j < |order| ==> (FindPage(rows, order[j]).Some? <==> FindPage(next, order[j]).Some?)
  {
  }

  lemma {:induction false} AssignCommitsIff(rows: seq<Page>, order: seq<string>, i: nat)
    requires i <= |order| <= MAX_PAGES && ListedAside(rows, order, i)
    ensures Assign(rows, order, i).Updated? <==> !Blocked(rows, order, i)
    decreases |order| - i
  {
    hide Blocked, ListedAside, Taken;
    if i < |order| {
      var k := FindPage(rows, order[i]);
      if k.None? {
        SkipUnknown(rows, order, i);
        AssignCommitsIff(rows, order, i + 1);
      } else {
        AssignOne(rows, order, i, k.value);
        AssignCommitsIff(rows[k.value := rows[k.value].(pos := i + 1)], order, i + 1);
      }
    } else {
      NoneLeft(rows, order);
    }
  }

  lemma SkipUnknown(rows: seq<Page>, order: seq<string>, i: nat)
    requires i < |order| && ListedAside(rows, order, i) && FindPage(rows, order[i]).None?
    ensures ListedAside(rows, order, i + 1) && (Blocked(rows, order, i) <==> Blocked(rows, order, i + 1))
  {
  }

  lemma NoneLeft(rows: seq<Page>, order: seq<string>)
    ensures !Blocked(rows, order, |order|)
  {
  }

  lemma {:induction false} RearrangeCommitsIff(rows: seq<Page>, order: seq<string>)
    requires Numbered(rows) && |rows| <= 1000000 && |order| <= MAX_PAGES
    ensures Rearranged(rows, order).Updated? <==> !Blocked(rows, order, 0)
  {
    ShiftNeverConflicts(rows, order, 0);
    var shifted := Moved(rows, Shifted(order));
    AssignCommitsIff(shifted, order, 0);
    SameKnown(rows, shifted, order);
    if i, k :| 0 <= i < |order| && 0 <= k < |rows|
               && rows[k].id !in order && rows[k].pos == i + 1 && FindPage(rows, order[i]).Some?
    {
      assert shifted[k] == rows[k] && FindPage(shifted, order[i]).Some?;
    }
    if i, k :| 0 <= i < |order| && 0 <= k < |shifted|
               && shifted[k].id !in order && shifted[k].pos == i + 1 && FindPage(shifted, order[i]).Some?
    {
      assert shifted[k] == rows[k] && FindPage(rows, order[i]).Some?;
    }
  }

  /** For any request at all: the reorder commits exactly when it lists UUIDs only and no known
      page for a position that a page outside the list holds. */
  lemma {:induction false} ReorderCommitsIff(rows: seq<Page>, request: seq<Listed>)
    requires Numbered(rows) && |rows| <= 1000000
    ensures Reordered(rows, request).Updated?
        <==> Requested(request).Some? && !Blocked(rows, Requested(request).value, 0)
  {
    if Requested(request).Some? {
      RearrangeCommitsIff(rows, Requested(request).value);
    }
  }

  /** No known page is listed at an index of n or more. */
  predicate WithinPages(rows: seq<Page>, order: seq<string>) {
    forall i :: |rows| <= i < |order| ==> FindPage(rows, order[i]).None?
  }

  lemma {:induction false} CommittedKeepsNumberedIff(rows: seq<Page>, order: seq<string>)
    requires Numbered(rows) && |rows| <= 1000000 && Rearranged(rows, order).Updated?
    ensures var after := Rearranged(rows, order).rows;
            |after| == |rows| && UniquePositions(after) && DistinctIds(after)
            && (Numbered(after) <==> WithinPages(rows, order))
  {
    ShiftNeverConflicts(rows, order, 0);
    var shifted := Moved(rows, Shifted(order));
    AssignMeans(shifted, order, 0);
    var after := Rearranged(rows, order).rows;
    forall k | 0 <= k < |rows|
      ensures after[k].id == rows[k].id
      ensures after[k].pos == if LastIndex(order, 0, rows[k].id).Some? then LastIndex(order, 0, rows[k].id).value + 1 else rows[k].pos
    {
      LastIndexIs(order, 0, rows[k].id);
    }
    if WithinPages(rows, order) {
      forall k | 0 <= k < |rows| ensures 1 <= after[k].pos <= |rows| {
        LastIndexIs(order, 0, rows[k].id);
      }
    } else {
      var i :| |rows| <= i < |order| && FindPage(rows, order[i]).Some?;
      var k := FindPage(rows, order[i]).value;
      LastIndexIs(order, 0, rows[k].id);
      assert after[k].pos > |rows|;
    }
  }

  /** Why a request is rolled back, in terms of the request. */
  ghost predicate RolledBack(rows: seq<Page>, request: seq<Listed>) {
    Requested(request).None? || Blocked(rows, Requested(request).value, 0)
  }

  /** For any request at all, in terms of the request: positions stay unique, and they stay
      exactly 1..n if and only if the request is rolled back or lists no known page beyond the
      last position. */
  lemma {:induction false} ReorderKeepsNumberedIff(rows: seq<Page>, request: seq<Listed>)
    requires Numbered(rows) && |rows| <= 1000000
    ensures var after := Committed(rows, Reordered(rows, request));
            |after| == |rows| && UniquePositions(after) && DistinctIds(after)
            && (Numbered(after) <==> RolledBack(rows, request) || WithinPages(rows, Requested(request).value))
  {
    ReorderCommitsIff(rows, request);
    if Reordered(rows, request).Updated? {
      CommittedKeepsNumberedIff(rows, Requested(request).value);
    }
  }

  /** The smallest request that is carried out and loses the numbering. */
  lemma {:induction false} ReorderBeyondLastLosesNumbering()
    ensures Numbered([Page("a", 1)])
    ensures Reordered([Page("a", 1)], [Uuid("x"), Uuid("a")]) == Updated([Page("a", 2)]) && !Numbered([Page("a", 2)])
  {
    var rows, request := [Page("a", 1)], [Uuid("x"), Uuid("a")];
    assert Requested(request).value == ["x", "a"];
    ShiftNeverConflicts(rows, ["x", "a"], 0);
    assert Moved(rows, Shifted(["x", "a"])) == [Page("a", 1 + SHIFT)];
    assert Assign([Page("a", 2)], ["x", "a"], 2) == Updated([Page("a", 2)]);
    assert Assign([Page("a", 1 + SHIFT)], ["x", "a"], 1) == Updated([Page("a", 2)]);
    assert [Page("a", 2)][0].pos > |[Page("a", 2)]|;
  }

  ghost predicate Permutation(rows: seq<Page>, order: seq<string>) {
    && |order| == |rows|
    && (forall i, j :: 0 <= i < j < |order| ==> order[i] != order[j])
    && (forall k :: 0 <= k < |rows| ==> rows[k].id in order)
    && (forall i :: 0 <= i < |order| ==> FindPage(rows, order[i]).Some?)
  }

  /** Midway through phase 2: listed pages up to i are in place, the others still far above. */
  ghost predicate PlacedUpTo(rows: seq<Page>, order: seq<string>, i: nat)
    requires i <= |order|
  {
    forall k :: 0 <= k < |rows| ==>
      if rows[k].id in order[..i] then 1 <= rows[k].pos <= i && order[rows[k].pos - 1] == rows[k].id else rows[k].pos > SHIFT
  }

  lemma {:induction false} PlaceOne(rows: seq<Page>, order: seq<string>, i: nat, at: nat)
    requires i < |order| <= MAX_PAGES && DistinctIds(rows) && PlacedUpTo(rows, order, i)
    requires FindPage(rows, order[i]) == Some(at) && order[i] !in order[..i]
    ensures !Taken(rows, at, i + 1)
    ensures var next := rows[at := rows[at].(pos := i + 1)];
            DistinctIds(next) && PlacedUpTo(next, order, i + 1)
  {
    assert order[..i + 1] == order[..i] + [order[i]];
  }

  lemma {:induction false} SkipOne(rows: seq<Page>, order: seq<string>, i: nat)
    requires i < |order| && PlacedUpTo(rows, order, i) && FindPage(rows, order[i]).None?
    ensures PlacedUpTo(rows, order, i + 1)
  {
    assert order[..i + 1] == order[..i] + [order[i]];
  }

  lemma {:induction false} AssignSucceeds(rows: seq<Page>, order: seq<string>, i: nat)
    requires i <= |order| <= MAX_PAGES && DistinctIds(rows) && PlacedUpTo(rows, order, i)
    requires forall a, b :: 0 <= a < b < |order| ==> order[a] != order[b]
    ensures Assign(rows, order, i).Updated?
    ensures PlacedUpTo(Assign(rows, order, i).rows, order, |order|)
    decreases |order| - i
  {
    hide PlacedUpTo, DistinctIds, Taken;
    if i < |order| {
      var k := FindPage(rows, order[i]);
      if k.None? {
        SkipOne(rows, order, i);
        AssignSucceeds(rows, order, i + 1);
      } else {
        PlaceOne(rows, order, i, k.value);
        AssignSucceeds(rows[k.value := rows[k.value].(pos := i + 1)], order, i + 1);
      }
    }
  }

  /** Of a longer request only the first 200 entries are read. */
  lemma {:induction false} FirstTwoHundredDecide(rows: seq<Page>, request: seq<Listed>)
    requires |request| >= 200
    ensures Reordered(rows, request) == Reordered(rows, request[..200])
  {
    assert Capped(request) == request[..200] == Capped(request[..200]);
  }

  function Request(order: seq<string>): seq<Listed> {
    seq(|order|, k requires 0 <= k < |order| => Uuid(order[k]))
  }

  lemma RequestedOf(order: seq<string>)
    requires |order| <= MAX_PAGES
    ensures Requested(Request(order)) == Some(order)
  {
    assert Capped(Request(order)) == Request(order);
    assert Requested(Request(order)).value == order;
  }

  /** A reorder by a full permutation of at most 200 pages always commits, lists the pages in
      the requested order, and keeps the numbering 1..n. */
  lemma {:induction false} PermutationReorders(rows: seq<Page>, order: seq<string>)
    requires Numbered(rows) && |rows| <= 200 && Permutation(rows, order)
    ensures var o := Reordered(rows, Request(order));
            o.Updated? && Numbered(o.rows) && |o.rows| == |rows|
    ensures forall k :: 0 <= k < |rows| ==>
              var after := Reordered(rows, Request(order)).rows;
              after[k].id == rows[k].id && 1 <= after[k].pos <= |order| && order[after[k].pos - 1] == after[k].id
  {
    hide Sweep, Assign, Numbered, Requested;
    RequestedOf(order);
    NumberedParts(rows);
    ShiftNeverConflicts(rows, order, 0);
    var shifted := Moved(rows, Shifted(order));
    ShiftedIsPlaced(rows, order);
    AssignSucceeds(shifted, order, 0);
    AssignMeans(shifted, order, 0);
    CommittedKeepsNumberedIff(rows, order);
    assert order[..|order|] == order;
  }

  lemma NumberedParts(rows: seq<Page>)
    requires Numbered(rows)
    ensures DistinctIds(rows) && forall k :: 0 <= k < |rows| ==> rows[k].pos >= 1
  {
  }

  lemma ShiftedIsPlaced(rows: seq<Page>, order: seq<string>)
    requires DistinctIds(rows) && forall k :: 0 <= k < |rows| ==> rows[k].pos >= 1 && rows[k].id in order
    ensures PlacedUpTo(Moved(rows, Shifted(order)), order, 0) && DistinctIds(Moved(rows, Shifted(order)))
  {
    assert order[..0] == [];
  }

  // ---- whole runs -----------------------------------------------------------------------------------------

  /** A create is two operations of a run; its insert carries the greatest position read before. */
  datatype Op = Insert(id: string, maxPos: int) | Delete(id: string) | Reorder(request: seq<Listed>)

  function Apply(rows: seq<Page>, op: Op): seq<Page> {
    match op
    case Insert(id, maxPos) => Committed(rows, Inserted(rows, id, maxPos))
    case Delete(id) => Committed(rows, Deleted(rows, id))
    case Reorder(request) => Committed(rows, Reordered(rows, request))
  }

  /** The lesson has not shrunk since an insert's read; a reorder is rolled back or lists no known
      page beyond index n - 1. */
  ghost predicate Allowed(rows: seq<Page>, op: Op) {
    match op
    case Insert(_, maxPos) => maxPos <= |rows|
    case Delete(_) => true
    case Reorder(request) => RolledBack(rows, request) || WithinPages(rows, Requested(request).value)
  }

  /** The tables of a run: each operation leaves its rows in whatever scan order the database
      picks next; an insert follows a read of the greatest position and brings a fresh id. */
  ghost predicate IsRun(tables: seq<seq<Page>>, ops: seq<Op>) {
    && |tables| == |ops| + 1
    && (forall j :: 0 <= j < |tables| ==> |tables[j]| <= 1000000)
    && (forall j :: 0 <= j < |ops| ==> SameRows(tables[j + 1], Apply(tables[j], ops[j])))
    && (forall j :: 0 <= j < |ops| && ops[j].Insert? ==> FindPage(tables[j], ops[j].id).None? && WasRead(tables, j, ops[j].maxPos))
  }

  /** Some table up to number j had this greatest position. */
  ghost predicate WasRead(tables: seq<seq<Page>>, j: nat, maxPos: int)
    requires j < |tables|
  {
    exists r :: 0 <= r <= j && maxPos == MaxPosition(tables[r])
  }

  ghost predicate SameRows(a: seq<Page>, b: seq<Page>) {
    multiset(a) == multiset(b)
  }

  lemma {:induction false} DistinctIffCounts<T>(s: seq<T>)
    ensures (forall i, j :: 0 <= i < j < |s| ==> s[i] != s[j]) <==> forall x :: x in s ==> multiset(s)[x] == 1
  {
    if s != [] {
      var n := |s| - 1;
      var rest := s[..n];
      assert s == rest + [s[n]];
      DistinctIffCounts(rest);
      if forall i, j :: 0 <= i < j < |s| ==> s[i] != s[j] {
        assert s[n] !in rest;
      } else if forall x :: x in s ==> multiset(s)[x] == 1 {
        assert multiset(s)[s[n]] == multiset(rest)[s[n]] + 1;
        assert s[n] !in rest;
        assert forall x :: x in rest ==> x in s && multiset(rest)[x] == multiset(s)[x];
        assert false;
      }
    }
  }

  /** The numbering does not depend on the scan order. */
  lemma {:induction false} NumberedInAnyOrder(a: seq<Page>, b: seq<Page>)
    requires Numbered(a) && SameRows(a, b)
    ensures Numbered(b) && |a| == |b|
  {
    assert |multiset(a)| == |multiset(b)|;
    assert forall p :: p in b <==> p in multiset(a);
    DistinctIffCounts(a);
    assert forall x :: x in b ==> multiset(b)[x] == 1;
    DistinctIffCounts(b);
    forall i, j | 0 <= i < j < |b| ensures b[i].pos != b[j].pos && b[i].id != b[j].id {
      assert b[i] in multiset(b) && b[j] in multiset(b);
      assert b[i] in a && b[j] in a;
    }
    forall k | 0 <= k < |b| ensures 1 <= b[k].pos <= |b| {
      assert b[k] in multiset(b);
      assert b[k] in a;
    }
  }

  lemma {:induction false} OpKeepsNumberedIff(rows: seq<Page>, op: Op, before: seq<Page>)
    requires Numbered(rows) && |rows| <= 1000000
    requires op.Insert? ==> FindPage(rows, op.id).None? && Numbered(before) && op.maxPos == MaxPosition(before)
    ensures Numbered(Apply(rows, op)) <==> Allowed(rows, op)
  {
    match op {
      case Insert(id, _) => CreateKeepsNumberedIff(before, rows, id);
      case Delete(id) =>
        var k := FindPage(rows, id);
        if k.Some? { DeleteKeepsNumbered(rows, id, k.value); }
      case Reorder(request) => ReorderKeepsNumberedIff(rows, request);
    }
  }

  /** Whatever is read, inserted, deleted and reordered in between, in whatever order the rows are
      scanned at each operation: the positions stay exactly 1..n through the first n operations
      of a run if and only if each of these is allowed. */
  lemma {:induction false} EveryRunStaysNumbered(tables: seq<seq<Page>>, ops: seq<Op>, n: nat)
    requires IsRun(tables, ops) && Numbered(tables[0]) && n <= |ops|
    ensures (forall j :: 0 <= j <= n ==> Numbered(tables[j])) <==> (forall j :: 0 <= j < n ==> Allowed(tables[j], ops[j]))
  {
    hide Numbered, Allowed, Apply, MaxPosition;
    if n > 0 {
      EveryRunStaysNumbered(tables, ops, n - 1);
      if forall j :: 0 <= j < n ==> Numbered(tables[j]) {
        var before := tables[0];
        if ops[n - 1].Insert? {
          assert WasRead(tables, n - 1, ops[n - 1].maxPos);
          var r :| 0 <= r < n && ops[n - 1].maxPos == MaxPosition(tables[r]);
          before := tables[r];
        }
        OpKeepsNumberedIff(tables[n - 1], ops[n - 1], before);
        SameNumbering(Apply(tables[n - 1], ops[n - 1]), tables[n]);
      }
    }
  }

  lemma SameNumbering(a: seq<Page>, b: seq<Page>)
    requires SameRows(a, b)
    ensures Numbered(a) <==> Numbered(b)
  {
    if Numbered(a) { NumberedInAnyOrder(a, b); }
    if Numbered(b) { NumberedInAnyOrder(b, a); }
  }

  // ---- navigation ---------------------------------------------------------------------------------------------

  /** `position > cur ORDER BY position LIMIT 1` */
  function NextPage(rows: seq<Page>, cur: int): Option<Page> {
    if rows == [] then None
    else
      var rest := NextPage(rows[1..], cur);
      if rows[0].pos > cur && (rest.None? || rows[0].pos < rest.value.pos) then Some(rows[0]) else rest
  }

  /** `position < cur ORDER BY position DESC LIMIT 1` */
  function PreviousPage(rows: seq<Page>, cur: int): Option<Page> {
    if rows == [] then None
    else
      var rest := PreviousPage(rows[1..], cur);
      if rows[0].pos < cur && (rest.None? || rows[0].pos > rest.value.pos) then Some(rows[0]) else rest
  }

  lemma {:induction false} NextIsLeastAbove(rows: seq<Page>, cur: int)
    ensures NextPage(rows, cur).None? <==> forall p :: p in rows ==> p.pos <= cur
    ensures NextPage(rows, cur).Some? ==>
              NextPage(rows, cur).value in rows && NextPage(rows, cur).value.pos > cur
              && forall p :: p in rows && p.pos > cur ==> NextPage(rows, cur).value.pos <= p.pos
  {
    if rows != [] { NextIsLeastAbove(rows[1..], cur); }
  }

  lemma {:induction false} PreviousIsGreatestBelow(rows: seq<Page>, cur: int)
    ensures PreviousPage(rows, cur).None? <==> forall p :: p in rows ==> p.pos >= cur
    ensures PreviousPage(rows, cur).Some? ==>
              PreviousPage(rows, cur).value in rows && PreviousPage(rows, cur).value.pos < cur
              && forall p :: p in rows && p.pos < cur ==> PreviousPage(rows, cur).value.pos >= p.pos
  {
    if rows != [] { PreviousIsGreatestBelow(rows[1..], cur); }
  }

  /** Wherever positions are unique, previous undoes next and next undoes previous. */
  lemma {:induction false} PreviousUndoesNext(rows: seq<Page>, here: Page)
    requires UniquePositions(rows) && here in rows
    ensures NextPage(rows, here.pos).Some? ==> PreviousPage(rows, NextPage(rows, here.pos).value.pos) == Some(here)
    ensures PreviousPage(rows, here.pos).Some? ==> NextPage(rows, PreviousPage(rows, here.pos).value.pos) == Some(here)
  {
    NextIsLeastAbove(rows, here.pos);
    PreviousIsGreatestBelow(rows, here.pos);
    if NextPage(rows, here.pos).Some? {
      PreviousIsGreatestBelow(rows, NextPage(rows, here.pos).value.pos);
    }
    if PreviousPage(rows, here.pos).Some? {
      NextIsLeastAbove(rows, PreviousPage(rows, here.pos).value.pos);
    }
  }

  /** The position a session navigates from: that of its current page, or the given default
      when it has none or the page is gone. */
  function PositionOf(rows: seq<Page>, current: Option<string>, default: int): int {
    if current.None? then default
    else
      var k := FindPage(rows, current.value);
      if k.Some? then rows[k.value].pos else default
  }

  /** The current page after one press of next. */
  function AfterNext(rows: seq<Page>, current: Option<string>): Option<string> {
    var next := NextPage(rows, PositionOf(rows, current, 0));
    if next.None? then current else Some(next.value.id)
  }

  function AfterPresses(rows: seq<Page>, current: Option<string>, presses: nat): Option<string> {
    if presses == 0 then current else AfterNext(rows, AfterPresses(rows, current, presses - 1))
  }

  class Session {
    var current: Option<string>

    constructor (first: Option<string>)
      ensures current == first
    {
      current := first;
    }

    /** A press reads the session and then writes it; `meanwhile` is the current page as other
        presses have left it by then. */
    method Next(rows: seq<Page>, meanwhile: Option<string>) returns (atEnd: bool)
      modifies this
      ensures atEnd <==> forall p :: p in rows ==> p.pos <= PositionOf(rows, old(current), 0)
      ensures meanwhile == old(current) ==> current == AfterNext(rows, old(current))
      ensures atEnd ==> current == meanwhile
      ensures !atEnd ==> var next := NextPage(rows, PositionOf(rows, old(current), 0));
                         next.Some? && current == Some(next.value.id)
    {
      var here := PositionOf(rows, current, 0);
      var nextPage := NextPage(rows, here);
      NextIsLeastAbove(rows, here);
      current := meanwhile;
      if nextPage.None? {
        return true;
      }
      current := Some(nextPage.value.id);
      return false;
    }

    method Previous(rows: seq<Page>, meanwhile: Option<string>) returns (atStart: bool)
      modifies this
      ensures atStart <==> forall p :: p in rows ==> p.pos >= PositionOf(rows, old(current), 1)
      ensures atStart ==> current == meanwhile
      ensures !atStart ==> var previous := PreviousPage(rows, PositionOf(rows, old(current), 1));
                           previous.Some? && current == Some(previous.value.id)
    {
      var here := PositionOf(rows, current, 1);
      var prevPage := PreviousPage(rows, here);
      PreviousIsGreatestBelow(rows, here);
      current := meanwhile;
      if prevPage.None? {
        return true;
      }
      current := Some(prevPage.value.id);
      return false;
    }

    /** Next, when it moves, is undone by previous. */
    method NextThenPrevious(rows: seq<Page>) returns (moved: bool)
      requires DistinctIds(rows) && UniquePositions(rows)
      requires current.Some? && FindPage(rows, current.value).Some?
      modifies this
      ensures current == old(current)
      ensures !moved <==> forall p :: p in rows ==> p.pos <= PositionOf(rows, old(current), 0)
    {
      ghost var k := FindPage(rows, current.value).value;
      PreviousUndoesNext(rows, rows[k]);
      NextIsLeastAbove(rows, rows[k].pos);
      var atEnd := Next(rows, current);
      if atEnd {
        return false;
      }
      ghost var next := NextPage(rows, rows[k].pos).value;
      FindsById(rows, next);
      PreviousIsGreatestBelow(rows, next.pos);
      var atStart := Previous(rows, current);
      return true;
    }
  }

  lemma {:induction false} FindsById(rows: seq<Page>, p: Page)
    requires DistinctIds(rows) && p in rows
    ensures FindPage(rows, p.id).Some? && rows[FindPage(rows, p.id).value] == p
  {
    var k :| 0 <= k < |rows| && rows[k] == p;
    var j := FindPage(rows, p.id);
    assert j.Some?;
    assert rows[j.value].id == rows[k].id;
  }

  lemma {:induction false} PositionInNumbered(rows: seq<Page>, current: Option<string>)
    requires Numbered(rows)
    ensures 0 <= PositionOf(rows, current, 0) <= |rows|
    ensures forall q :: q in rows ==> PositionOf(rows, Some(q.id), 0) == q.pos
  {
    forall q | q in rows ensures PositionOf(rows, Some(q.id), 0) == q.pos {
      FindsById(rows, q);
    }
  }

  lemma {:induction false} NextMovesOn(rows: seq<Page>, current: Option<string>)
    requires Numbered(rows)
    ensures var here := PositionOf(rows, current, 0);
            if here == |rows| then AfterNext(rows, current) == current
            else exists q :: q in rows && q.pos == here + 1 && AfterNext(rows, current) == Some(q.id)
  {
    var here := PositionOf(rows, current, 0);
    PositionInNumbered(rows, current);
    NextIsLeastAbove(rows, here);
    if here < |rows| {
      NumberedIsOnto(rows, here + 1);
      var k :| 0 <= k < |rows| && rows[k].pos == here + 1;
      assert rows[k] in rows;
      assert NextPage(rows, here).value.pos == here + 1;
    }
  }

  /** Presses of next in a numbered lesson: each page after the starting one is shown by exactly
      one press, in order of position, and then the session stays on the last. */
  lemma {:induction false} WalkVisitsEachOnce(rows: seq<Page>, current: Option<string>, presses: nat)
    requires Numbered(rows)
    ensures var start, after := PositionOf(rows, current, 0), AfterPresses(rows, current, presses);
            && 0 <= start <= |rows|
            && PositionOf(rows, after, 0) == (if start + presses <= |rows| then start + presses else |rows|)
            && (presses > |rows| - start ==> after == AfterPresses(rows, current, presses - 1))
            && forall q :: q in rows && q.pos > start && presses <= |rows| - start ==>
                 (after == Some(q.id) <==> presses == q.pos - start)
  {
    hide Numbered, PositionOf, AfterNext;
    PositionInNumbered(rows, current);
    if presses > 0 {
      WalkVisitsEachOnce(rows, current, presses - 1);
      var before := AfterPresses(rows, current, presses - 1);
      PositionInNumbered(rows, before);
      NextMovesOn(rows, before);
      SamePositionSamePage(rows);
    }
  }

  /** A press of next that saw the session at `seen` moves it one page on from `current` exactly
      when no other press has moved it since. */
  lemma {:induction false} PressMovesOnIff(rows: seq<Page>, seen: Option<string>, current: Option<string>)
    requires Numbered(rows) && PositionOf(rows, seen, 0) < |rows|
    ensures PositionOf(rows, AfterNext(rows, seen), 0) == PositionOf(rows, current, 0) + 1
        <==> PositionOf(rows, seen, 0) == PositionOf(rows, current, 0)
  {
    hide Numbered, PositionOf, AfterNext;
    PositionInNumbered(rows, seen);
    NextMovesOn(rows, seen);
  }

  lemma SamePositionSamePage(rows: seq<Page>)
    requires Numbered(rows)
    ensures forall p, q :: p in rows && q in rows && p.pos == q.pos ==> p == q
  {
  }
}
