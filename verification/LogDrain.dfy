/** The query log: an in-place ring that drops its oldest entry when full, and a background
    drain that sends the ring's contents chunk by chunk while new entries keep arriving. */
module LogDrain {

  datatype Slot<+T> = Empty | Full(entry: T)

  // ---- specification: one state, four events -------------------------------------------

  /** `held` is the ring, oldest first; `items[at..]` is what the running flush has yet to
      send; `sent` is what ever reached the stream, whose first `gone` entries have left it again;
      `dropped` and `lost` count entries that never reach it. */
  datatype Drain<T> = Drain(
    held: seq<T>, draining: bool, items: seq<T>, at: nat, sent: seq<T>, gone: nat, dropped: nat, lost: nat)

  /** A log call, a timer tick, the chunk in flight coming back, and the stream losing its oldest
      entries (its length is capped, and the backend consumes it). Of a chunk the commands at the
      indices `written` took effect; the errors of single commands are not looked at, so `ok` is
      false only if the whole call was rejected. */
  datatype Event<+T> = Log(entry: T) | Tick | ChunkDone(ok: bool, written: set<nat>) | Trim(count: nat)

  /** The entries of a chunk whose commands took effect; the chunk starts at index `from`. */
  function Picked<T>(chunk: seq<T>, from: nat, written: set<nat>): (out: seq<T>)
    ensures |out| <= |chunk|
  {
    if chunk == [] then []
    else (if from in written then [chunk[0]] else []) + Picked(chunk[1..], from + 1, written)
  }

  function Newest<T>(s: seq<T>, cap: nat): seq<T> {
    if |s| <= cap then s else s[|s| - cap..]
  }

  function ChunkEnd(at: nat, batch: nat, n: nat): nat {
    if at + batch < n then at + batch else n
  }

  function Step<T>(d: Drain<T>, e: Event<T>, cap: nat, batch: nat): Drain<T> {
    match e
    case Log(x) =>
      d.(held := Newest(d.held + [x], cap), dropped := d.dropped + (if |d.held| >= cap then 1 else 0))
    case Tick =>
      if d.draining || d.held == [] then d
      else d.(held := [], draining := true, items := d.held, at := 0)
    case ChunkDone(ok, written) =>
      if !d.draining || d.at > |d.items| then d
      else
        var end := ChunkEnd(d.at, batch, |d.items|);
        var arrived := Picked(d.items[d.at..end], 0, written);
        var settled := d.(sent := d.sent + arrived, lost := d.lost + (end - d.at) - |arrived|);
        if ok && end < |d.items| then settled.(at := end)
        else settled.(draining := false, items := [], at := 0, lost := settled.lost + |d.items| - end)
    case Trim(count) => d.(gone := if d.gone + count < |d.sent| then d.gone + count else |d.sent|)
  }

  /** The slot `k` places after `from`, going round. */
  function Place(from: nat, k: nat, n: nat): int {
    if from + k < n then from + k else from + k - n
  }

  /** `(i + 1) % RING_SIZE` */
  function Next(i: nat, n: nat): (j: nat)
    requires i < n
    ensures j == Place(i, 1, n)
  {
    (i + 1) % n
  }

  // ---- the program state --------------------------------------------------------------------

  class Logger<T> {
    const batch: nat
    const ring: array<Slot<T>>
    var ringHead: nat
    var ringTail: nat
    var ringCount: nat
    var drainRunning: bool
    var items: seq<T>
    var at: nat
    var stream: seq<T>
    /** What has left the stream. */
    ghost var trimmed: seq<T>
    ghost var held: seq<T>
    ghost var dropped: nat
    ghost var lost: nat

    ghost predicate Valid()
      reads this, ring
    {
      && batch >= 1 && ringTail < ring.Length && ringCount <= ring.Length
      && ringHead == Place(ringTail, ringCount, ring.Length)
      && |held| == ringCount
      && (forall k :: 0 <= k < ringCount ==> ring[Place(ringTail, k, ring.Length)] == Full(held[k]))
      && (drainRunning ==> at < |items|)
      && (!drainRunning ==> items == [] && at == 0)
    }

    ghost function Model(): Drain<T>
      reads this
    {
      Drain(held, drainRunning, items, at, trimmed + stream, |trimmed|, dropped, lost)
    }

    constructor (capacity: nat, batchSize: nat)
      requires capacity >= 1 && batchSize >= 1
      ensures Valid() && fresh(ring) && ring.Length == capacity && batch == batchSize
      ensures Model() == Drain([], false, [], 0, [], 0, 0, 0)
    {
      batch := batchSize;
      ring := new Slot<T>[capacity](_ => Empty);
      ringHead, ringTail, ringCount := 0, 0, 0;
      drainRunning, items, at, stream := false, [], 0, [];
      trimmed, held, dropped, lost := [], [], 0, 0;
    }

    method Enqueue(entry: T)
      requires Valid()
      modifies this, ring
      ensures Valid() && Model() == Step(old(Model()), Log(entry), ring.Length, batch)
    {
      if ringCount >= ring.Length {
        DropOldest();
      }
      Append(entry);
    }

    method DropOldest()
      requires Valid() && ringCount > 0
      modifies this`ringTail, this`ringCount, this`held, this`dropped
      ensures Valid() && held == old(held)[1..] && dropped == old(dropped) + 1 && ringCount == old(ringCount) - 1
    {
      PlaceShifts(ringTail, ring.Length);
      ringTail := Next(ringTail, ring.Length);
      ringCount := ringCount - 1;
      held, dropped := held[1..], dropped + 1;
    }

    method Append(entry: T)
      requires Valid() && ringCount < ring.Length
      modifies this`ringHead, this`ringCount, this`held, ring
      ensures Valid() && held == old(held) + [entry]
    {
      PlaceDistinct(ringTail, ringCount, ring.Length);
      ring[ringHead] := Full(entry);
      ringHead := Next(ringHead, ring.Length);
      ringCount := ringCount + 1;
      held := held + [entry];
    }

    method DequeueAll() returns (taken: seq<T>)
      requires Valid()
      modifies this`ringTail, this`ringCount, this`held, ring
      ensures Valid() && held == [] && taken == old(held)
    {
      taken := [];
      while ringCount > 0
        invariant Valid() && taken + held == old(held)
        decreases ringCount
      {
        var entry := TakeOldest();
        taken := taken + [entry];
      }
    }

    method TakeOldest() returns (entry: T)
      requires Valid() && ringCount > 0
      modifies this`ringTail, this`ringCount, this`held, ring
      ensures Valid() && [entry] + held == old(held) && ringCount == old(ringCount) - 1
    {
      PlaceShifts(ringTail, ring.Length);
      assert ringTail == Place(ringTail, 0, ring.Length);
      entry := ring[ringTail].entry;
      ring[ringTail] := Empty;
      ringTail := Next(ringTail, ring.Length);
      ringCount := ringCount - 1;
      held := held[1..];
    }

    /** The synchronous head of `flushToRedis`, up to the first chunk being in flight. */
    method OnTick()
      requires Valid()
      modifies this, ring
      ensures Valid() && Model() == Step(old(Model()), Tick, ring.Length, batch)
    {
      if drainRunning {
        return;
      }
      var taken := DequeueAll();
      if |taken| == 0 {
        return;
      }
      drainRunning, items, at := true, taken, 0;
    }

    /** The chunk in flight settles: on to the next one, or, when rejected, the rest is abandoned. */
    method OnChunk(ok: bool, written: set<nat>)
      requires Valid() && drainRunning
      modifies this
      ensures Valid() && Model() == Step(old(Model()), ChunkDone(ok, written), ring.Length, batch)
    {
      var end := if at + batch < |items| then at + batch else |items|;
      var arrived := Picked(items[at..end], 0, written);
      stream := stream + arrived;
      lost := lost + (end - at) - |arrived|;
      assert trimmed + stream == old(trimmed + stream) + arrived;
      if ok {
        at := at + batch;
        if at >= |items| {
          drainRunning, items, at := false, [], 0;
        }
      } else {
        lost := lost + |items| - end;
        drainRunning, items, at := false, [], 0;
      }
    }

    /** The stream loses its oldest entries. */
    method OnTrim(count: nat)
      requires Valid()
      modifies this
      ensures Valid() && Model() == Step(old(Model()), Trim(count), ring.Length, batch)
      ensures stream == old(Model()).sent[Model().gone..]
    {
      var out := if count < |stream| then count else |stream|;
      trimmed, stream := trimmed + stream[..out], stream[out..];
      assert trimmed + stream == old(trimmed + stream);
    }
  }

  lemma PlaceShifts(from: nat, n: nat)
    requires from < n
    ensures forall k :: 0 <= k < n - 1 ==> Place(Place(from, 1, n), k, n) == Place(from, k + 1, n)
  {
  }

  lemma PlaceDistinct(from: nat, k: nat, n: nat)
    requires from < n && k < n
    ensures forall j :: 0 <= j < k ==> Place(from, j, n) != Place(from, k, n)
  {
  }

  // ---- over whole runs --------------------------------------------------------------------------

  /** An entry together with its place in the order of log calls. */
  datatype Tagged<+E> = Tagged(serial: nat, entry: E)

  function Logged<E>(events: seq<Event<E>>): seq<E> {
    if events == [] then []
    else
      var last := events[|events| - 1];
      Logged(events[..|events| - 1]) + (if last.Log? then [last.entry] else [])
  }

  function Tag<E>(e: Event<E>, serial: nat): Event<Tagged<E>> {
    match e
    case Log(x) => Log(Tagged(serial, x))
    case Tick => Tick
    case ChunkDone(ok, written) => ChunkDone(ok, written)
    case Trim(count) => Trim(count)
  }

  /** Any interleaving of log calls, ticks and chunk outcomes, from the empty logger. */
  function Run<E>(events: seq<Event<E>>, cap: nat, batch: nat): Drain<Tagged<E>> {
    if events == [] then Drain([], false, [], 0, [], 0, 0, 0)
    else
      var before := events[..|events| - 1];
      Step(Run(before, cap, batch), Tag(events[|events| - 1], |Logged(before)|), cap, batch)
  }

  /** What reached the stream, then what the running flush still has to send, then the ring. */
  function Alive<T>(d: Drain<T>): seq<T> {
    d.sent + (if d.at <= |d.items| then d.items[d.at..] else []) + d.held
  }

  /** Entries of the log, in log order, none twice. */
  ghost predicate OrderedSubsequence<E>(s: seq<Tagged<E>>, logged: seq<E>) {
    && (forall i :: 0 <= i < |s| ==> s[i].serial < |logged| && logged[s[i].serial] == s[i].entry)
    && (forall i, j :: 0 <= i < j < |s| ==> s[i].serial < s[j].serial)
  }

  ghost predicate Sound<E>(d: Drain<Tagged<E>>, logged: seq<E>, cap: nat) {
    && OrderedSubsequence(Alive(d), logged)
    && |d.held| <= cap && d.gone <= |d.sent|
    && (d.draining ==> d.at < |d.items|)
    && (!d.draining ==> d.items == [] && d.at == 0)
    && |logged| == |d.sent| + d.lost + d.dropped + |d.held| + (|d.items| - d.at)
  }

  lemma CutKeepsOrder<E>(s: seq<Tagged<E>>, i: nat, j: nat, logged: seq<E>)
    requires i <= j <= |s| && OrderedSubsequence(s, logged)
    ensures OrderedSubsequence(s[..i] + s[j..], logged)
  {
  }

  lemma AppendKeepsOrder<E>(s: seq<Tagged<E>>, x: E, logged: seq<E>)
    requires OrderedSubsequence(s, logged)
    ensures OrderedSubsequence(s + [Tagged(|logged|, x)], logged + [x])
  {
  }

  lemma {:induction false} LogKeepsSound<E>(d: Drain<Tagged<E>>, x: E, logged: seq<E>, cap: nat, batch: nat)
    requires cap >= 1 && Sound(d, logged, cap)
    ensures Sound(Step(d, Log(Tagged(|logged|, x)), cap, batch), logged + [x], cap)
  {
    hide OrderedSubsequence;
    var tag := Tagged(|logged|, x);
    var d' := Step(d, Log(tag), cap, batch);
    var front := d.sent + d.items[d.at..];
    var cut := if |d.held| >= cap then 1 else 0;
    assert d'.held == d.held[cut..] + [tag];
    CutKeepsOrder(Alive(d), |front|, |front| + cut, logged);
    AppendKeepsOrder(front + d.held[cut..], x, logged);
    assert Alive(d)[..|front|] + Alive(d)[|front| + cut..] == front + d.held[cut..];
    assert Alive(d') == front + d.held[cut..] + [tag];
  }

  /** Leaving out entries in the middle keeps the order. */
  lemma {:induction false} ThinningKeepsOrder<E>(
    front: seq<Tagged<E>>, chunk: seq<Tagged<E>>, back: seq<Tagged<E>>, from: nat, written: set<nat>, logged: seq<E>)
    requires OrderedSubsequence(front + chunk + back, logged)
    ensures OrderedSubsequence(front + Picked(chunk, from, written) + back, logged)
    decreases |chunk|
  {
    hide OrderedSubsequence;
    if chunk != [] {
      var all := front + chunk + back;
      var rest := Picked(chunk[1..], from + 1, written);
      if from in written {
        assert all == (front + [chunk[0]]) + chunk[1..] + back;
        ThinningKeepsOrder(front + [chunk[0]], chunk[1..], back, from + 1, written, logged);
        assert front + [chunk[0]] + rest + back == front + ([chunk[0]] + rest) + back;
      } else {
        CutKeepsOrder(all, |front|, |front| + 1, logged);
        assert all[..|front|] + all[|front| + 1..] == front + chunk[1..] + back;
        ThinningKeepsOrder(front, chunk[1..], back, from + 1, written, logged);
        assert Picked(chunk, from, written) == rest;
      }
    }
  }

  lemma {:induction false} TickKeepsSound<E>(d: Drain<Tagged<E>>, logged: seq<E>, cap: nat, batch: nat)
    requires Sound(d, logged, cap)
    ensures Sound(Step(d, Tick, cap, batch), logged, cap)
  {
    hide OrderedSubsequence;
    assert Alive(Step(d, Tick, cap, batch)) == Alive(d);
  }

  lemma {:induction false} ChunkKeepsSound<E>(
    d: Drain<Tagged<E>>, ok: bool, written: set<nat>, logged: seq<E>, cap: nat, batch: nat)
    requires batch >= 1 && Sound(d, logged, cap)
    ensures Sound(Step(d, ChunkDone(ok, written), cap, batch), logged, cap)
  {
    hide OrderedSubsequence, Picked;
    if d.draining {
      var d' := Step(d, ChunkDone(ok, written), cap, batch);
      var end := ChunkEnd(d.at, batch, |d.items|);
      var chunk, rest := d.items[d.at..end], d.items[end..];
      assert Alive(d) == d.sent + chunk + (rest + d.held);
      ThinningKeepsOrder(d.sent, chunk, rest + d.held, 0, written, logged);
      var thinned := d.sent + Picked(chunk, 0, written) + (rest + d.held);
      if d'.draining {
        assert Alive(d') == thinned;
      } else {
        CutKeepsOrder(thinned, |d'.sent|, |d'.sent| + |rest|, logged);
        assert Alive(d') == thinned[..|d'.sent|] + thinned[|d'.sent| + |rest|..];
      }
    }
  }

  lemma {:induction false} SettleKeepsSound<E>(d: Drain<Tagged<E>>, e: Event<Tagged<E>>, logged: seq<E>, cap: nat, batch: nat)
    requires batch >= 1 && Sound(d, logged, cap) && !e.Log?
    ensures Sound(Step(d, e, cap, batch), logged, cap)
  {
    match e
    case Tick => TickKeepsSound(d, logged, cap, batch);
    case ChunkDone(ok, written) => ChunkKeepsSound(d, ok, written, logged, cap, batch);
    case Trim(count) => assert Alive(Step(d, e, cap, batch)) == Alive(d);
  }

  /** In every run: what reached the stream, the unsent chunks and the ring together are an
      ordered subsequence of the entries logged, none twice, and every entry logged was sent, lost
      with a failed command or an abandoned flush, dropped on overflow, or is still held. */
  lemma {:induction false} EveryRunIsSound<E>(events: seq<Event<E>>, cap: nat, batch: nat)
    requires cap >= 1 && batch >= 1
    ensures Sound(Run(events, cap, batch), Logged(events), cap)
  {
    if events != [] {
      var before, last := events[..|events| - 1], events[|events| - 1];
      EveryRunIsSound(before, cap, batch);
      var d := Run(before, cap, batch);
      if last.Log? {
        LogKeepsSound(d, last.entry, Logged(before), cap, batch);
      } else {
        SettleKeepsSound(d, Tag(last, |Logged(before)|), Logged(before), cap, batch);
      }
    }
  }

  /** A running flush keeps its items and its position, whatever is logged or trimmed and however
      often the timer fires, until a chunk of it comes back. */
  lemma {:induction false} RunningFlushUndisturbed<T>(d: Drain<T>, events: seq<Event<T>>, cap: nat, batch: nat)
    requires d.draining
    requires forall k :: 0 <= k < |events| ==> !events[k].ChunkDone?
    ensures var d' := RunFrom(d, events, cap, batch);
            d'.draining && d'.items == d.items && d'.at == d.at && d'.sent == d.sent && d'.lost == d.lost
    decreases |events|
  {
    if events != [] {
      RunningFlushUndisturbed(Step(d, events[0], cap, batch), events[1..], cap, batch);
    }
  }

  function RunFrom<T>(d: Drain<T>, events: seq<Event<T>>, cap: nat, batch: nat): Drain<T>
    decreases |events|
  {
    if events == [] then d else RunFrom(Step(d, events[0], cap, batch), events[1..], cap, batch)
  }

  function LogCalls<T>(entries: seq<T>): seq<Event<T>> {
    seq(|entries|, k requires 0 <= k < |entries| => Log(entries[k]))
  }

  /** A burst between two ticks leaves the newest `cap` of what was held and what arrived. */
  lemma {:induction false} BurstKeepsNewest<T>(d: Drain<T>, entries: seq<T>, cap: nat, batch: nat)
    requires cap >= 1 && |d.held| <= cap
    ensures RunFrom(d, LogCalls(entries), cap, batch).held == Newest(d.held + entries, cap)
    ensures RunFrom(d, LogCalls(entries), cap, batch).dropped
         == d.dropped + |d.held| + |entries| - |Newest(d.held + entries, cap)|
    decreases |entries|
  {
    hide Newest;
    if entries == [] {
      assert d.held + entries == d.held;
      NewestOfShort(d.held, cap);
    } else {
      var next := Step(d, Log(entries[0]), cap, batch);
      assert LogCalls(entries)[1..] == LogCalls(entries[1..]);
      NewestOfShort(d.held + [entries[0]], cap);
      BurstKeepsNewest(next, entries[1..], cap, batch);
      assert d.held + entries == (d.held + [entries[0]]) + entries[1..];
      NewestTwice(d.held + [entries[0]], entries[1..], cap);
    }
  }

  lemma NewestOfShort<T>(s: seq<T>, cap: nat)
    ensures |Newest(s, cap)| == if |s| <= cap then |s| else cap
    ensures |s| <= cap ==> Newest(s, cap) == s
  {
  }

  lemma NewestTwice<T>(a: seq<T>, b: seq<T>, cap: nat)
    ensures Newest(Newest(a, cap) + b, cap) == Newest(a + b, cap)
  {
  }

  ghost predicate AllWritten<T>(e: Event<T>, batch: nat) {
    e.ChunkDone? && e.ok && forall k :: 0 <= k < batch ==> k in e.written
  }

  lemma {:induction false} PickedAll<T>(chunk: seq<T>, from: nat, written: set<nat>)
    requires forall k :: from <= k < from + |chunk| ==> k in written
    ensures Picked(chunk, from, written) == chunk
    decreases |chunk|
  {
    if chunk != [] { PickedAll(chunk[1..], from + 1, written); }
  }

  /** An undisturbed flush whose commands all succeed appends exactly what it took, in order. */
  lemma {:induction false} QuietFlushSendsAll<T>(d: Drain<T>, cap: nat, batch: nat, replies: seq<Event<T>>)
    requires batch >= 1 && d.draining && d.at < |d.items| && |replies| >= |d.items| - d.at
    requires forall k :: 0 <= k < |replies| ==> AllWritten(replies[k], batch)
    ensures RunFrom(d, replies, cap, batch)
         == d.(sent := d.sent + d.items[d.at..], draining := false, items := [], at := 0)
    decreases |replies|
  {
    var end := ChunkEnd(d.at, batch, |d.items|);
    assert AllWritten(replies[0], batch);
    PickedAll(d.items[d.at..end], 0, replies[0].written);
    var next := Step(d, replies[0], cap, batch);
    assert next.sent == d.sent + d.items[d.at..end];
    if next.draining {
      QuietFlushSendsAll(next, cap, batch, replies[1..]);
      assert d.sent + d.items[d.at..end] + d.items[end..] == d.sent + d.items[d.at..];
    } else {
      IdleIgnoresChunks(next, cap, batch, replies[1..]);
      assert d.items[d.at..end] == d.items[d.at..];
    }
  }

  lemma {:induction false} IdleIgnoresChunks<T>(d: Drain<T>, cap: nat, batch: nat, replies: seq<Event<T>>)
    requires !d.draining && forall k :: 0 <= k < |replies| ==> replies[k].ChunkDone?
    ensures RunFrom(d, replies, cap, batch) == d
    decreases |replies|
  {
    if replies != [] {
      IdleIgnoresChunks(d, cap, batch, replies[1..]);
    }
  }

  /** A rejected chunk ends its flush: of all that was left, only what took effect of that chunk
      ever reaches the stream, whatever replies come later, and everything else is lost. */
  lemma {:induction false} RejectedChunkEndsFlush<T>(
    d: Drain<T>, written: set<nat>, cap: nat, batch: nat, replies: seq<Event<T>>)
    requires d.draining && d.at < |d.items| && forall k :: 0 <= k < |replies| ==> replies[k].ChunkDone?
    ensures var arrived := Picked(d.items[d.at..ChunkEnd(d.at, batch, |d.items|)], 0, written);
            RunFrom(Step(d, ChunkDone(false, written), cap, batch), replies, cap, batch)
            == d.(sent := d.sent + arrived, draining := false, items := [], at := 0,
                  lost := d.lost + (|d.items| - d.at) - |arrived|)
  {
    IdleIgnoresChunks(Step(d, ChunkDone(false, written), cap, batch), cap, batch, replies);
  }

  /** A tick on an idle logger followed by chunk replies without failures sends all that was held,
      in order, and leaves the logger idle and empty. */
  lemma {:induction false} TickSendsWhatWasHeld<T>(d: Drain<T>, cap: nat, batch: nat, replies: seq<Event<T>>)
    requires batch >= 1 && !d.draining && d.items == [] && d.at == 0 && |replies| >= |d.held|
    requires forall k :: 0 <= k < |replies| ==> AllWritten(replies[k], batch)
    ensures RunFrom(Step(d, Tick, cap, batch), replies, cap, batch) == d.(sent := d.sent + d.held, held := [])
  {
    var next := Step(d, Tick, cap, batch);
    if d.held == [] {
      assert d.sent + d.held == d.sent;
      IdleIgnoresChunks(next, cap, batch, replies);
    } else {
      QuietFlushSendsAll(next, cap, batch, replies);
      assert next.items[0..] == d.held;
    }
  }

  /** The stream loses its oldest entries: trimming twice adds up, and never goes past the end. */
  lemma {:induction false} TrimsAddUp<T>(d: Drain<T>, a: nat, b: nat, cap: nat, batch: nat)
    requires d.gone <= |d.sent|
    ensures Step(Step(d, Trim(a), cap, batch), Trim(b), cap, batch) == Step(d, Trim(a + b), cap, batch)
    ensures Step(d, Trim(0), cap, batch) == d
    ensures Step(d, Trim(|d.sent| - d.gone), cap, batch) == d.(gone := |d.sent|)
    ensures d.gone < |d.sent| ==> Step(d, Trim(1), cap, batch) == d.(gone := d.gone + 1)
  {
  }
}
