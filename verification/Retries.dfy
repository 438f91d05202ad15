/** What becomes of a symbol whose attach met a break: it idles through retries until a new snapshot. */
module Retries {
  import opened Basics
  import opened Exchange
  import N = Normalize
  import opened Attach
  import opened Ring
  import opened Collector
  import opened Runs

  /** Past the bridge, the last id applied ends a diff of the history and lies before the end of the next to apply. */
  ghost predicate Advancing(w: World, t: Task) {
    t.Attaching? && !t.bridging ==>
      t.rest != [] && t.lastU < t.rest[0].final && exists k :: 0 <= k < |w.hist| && w.hist[k].final == t.lastU
  }

  lemma AdvancingStep(c: Config, w: World, s: State, a: Action)
    requires Valid(w) && Ordered(c, w, s) && Advancing(w, s.task)
    ensures Advancing(w, Step(c, w, s, a).task)
  {
    hide Push, RestSnapshot, SnapshotReach, ApplyDiff, ReachAfter, FromSnapshot, Valid, BridgeStep, AttachStep, Linked;
    match a {
      case RunAttach => if s.task.Draining? { StartsBridging(s); }
      case AttachNext => if s.task.Attaching? { NextAdvances(c, w, s); }
      case _ =>
    }
  }

  lemma StartsBridging(s: State)
    requires s.task.Draining?
    ensures BridgeStep(s).task.Attaching? ==> BridgeStep(s).task.bridging
  {
    hide N.Normalized, N.Listing, N.Chosen;
  }

  lemma NextAdvances(c: Config, w: World, s: State)
    requires Queued(w, s) && FromHistory(w, Batch(s)) && s.task.Attaching? && s.task.rest != []
    ensures Advancing(w, AttachStep(c, s).task)
  {
    hide ApplyDiff, ReachAfter, Behind;
    var rest, q := s.task.rest, Consumed(s) + Held(s);
    if |rest| > 1 {
      assert q[|Consumed(s)|] == rest[0] && q[|Consumed(s)| + 1] == rest[1];
      var k := PositionOf(w, rest[0]);
    }
  }

  lemma {:induction false} AdvancingRun(c: Config, w: World, sent: nat, acts: seq<Action>)
    requires Valid(w) && Along(c, w, sent, acts, QuietInOrder)
    ensures Ordered(c, w, Run(c, w, sent, acts)) && Advancing(w, Run(c, w, sent, acts).task)
  {
    hide Ordered, Advancing, Step, QuietInOrder, Valid;
    OrderedRun(c, w, sent, acts);
    if acts == [] {
      NotAttaching(w, Init(sent));
    } else {
      AdvancingRun(c, w, sent, acts[..|acts| - 1]);
      AdvancingStep(c, w, Run(c, w, sent, acts[..|acts| - 1]), acts[|acts| - 1]);
    }
  }

  lemma NotAttaching(w: World, s: State)
    requires !s.task.Attaching?
    ensures Advancing(w, s.task)
  {
  }

  /** Everything held or still to come starts past the book's id, and nothing is under way that could move it. */
  ghost predicate Doomed(w: World, s: State, b: Book) {
    && s.book == Some(b) && s.phase != Live && !Busy(s)
    && (s.task == Idle || s.task == Fetching || s.task.Draining?)
    && PastBook(w, s.sent, Batch(s), b.id) && PastBook(w, s.sent, s.ring, b.id)
  }

  ghost predicate PastBook(w: World, sent: nat, ds: seq<Diff>, id: nat) {
    (forall d :: d in ds ==> d.prev > id) && forall i :: sent <= i < |w.hist| ==> w.hist[i].prev > id
  }

  lemma LaterPast(w: World, sent: nat, later: nat, ds: seq<Diff>, id: nat)
    requires PastBook(w, sent, ds, id) && sent <= later
    ensures PastBook(w, later, ds, id)
  {
  }

  lemma NoneHeld(w: World, sent: nat, ds: seq<Diff>, id: nat)
    requires PastBook(w, sent, ds, id)
    ensures PastBook(w, sent, [], id)
  {
  }

  /** A diff that ends at or after another one starts no earlier than the one before that ends. */
  lemma StartsPast(w: World, k: nat, d: Diff, e: Diff)
    requires Valid(w) && k < |w.hist| && d in w.hist && e in w.hist
    requires w.hist[k].final < d.final <= e.final && d.prev != w.hist[k].final
    ensures e.prev > w.hist[k].final
  {
    hide Valid;
    var j := PositionOf(w, d);
    var l := PositionOf(w, e);
    if j <= k { PositionsRise(w, j, k); }
    if l < j { HistoryIncreases(w, l, j); }
    HistoryIncreases(w, k, j);
    if j < l { HistoryIncreases(w, j, l); }
  }

  lemma QueuePast(w: World, sent: nat, k: nat, q: seq<Diff>, ds: seq<Diff>)
    requires Valid(w) && k < |w.hist| && N.Rising(q) && Behind(w, sent, q) && q != [] && q[0] in w.hist
    requires w.hist[k].final < q[0].final && q[0].prev != w.hist[k].final
    requires FromHistory(w, ds) && |ds| < |q| && ds == q[|q| - |ds|..]
    ensures PastBook(w, sent, ds, w.hist[k].final)
  {
    hide Valid;
    forall e | e in ds ensures e.prev > w.hist[k].final {
      var i :| 0 <= i < |ds| && ds[i] == e;
      assert q[|q| - |ds| + i] == e;
      StartsPast(w, k, q[0], e);
    }
    forall i | sent <= i < |w.hist| ensures w.hist[i].prev > w.hist[k].final {
      assert q[0] in q;
      StartsPast(w, k, q[0], w.hist[i]);
    }
  }

  /** At a break the ring holds and the exchange will send nothing that starts at or before the last id applied. */
  lemma BreakPast(w: World, s: State)
    requires Valid(w) && Queued(w, s) && FromHistory(w, s.ring) && FromHistory(w, Batch(s)) && Advancing(w, s.task)
    requires s.task.Attaching? && s.task.rest != [] && s.phase != Live && Broken(s.task)
    ensures PastBook(w, s.sent, s.ring, s.task.lastU)
  {
    hide Valid, PastBook, N.Rising, Behind;
    var q := Held(s);
    assert Consumed(s) + q == q && q[0] == s.task.rest[0] && q[0] in w.hist;
    var k :| 0 <= k < |w.hist| && w.hist[k].final == s.task.lastU;
    assert s.ring == q[|q| - |s.ring|..];
    QueuePast(w, s.sent, k, q, s.ring);
  }

  lemma BreakDooms(c: Config, w: World, s: State)
    requires Valid(w) && Ordered(c, w, s) && Advancing(w, s.task)
    requires s.task.Attaching? && s.task.rest != [] && Broken(s.task) && s.book.Some?
    ensures Doomed(w, AttachStep(c, s), s.book.value)
  {
    hide Valid, Queued, Linked, FromSnapshot, FromHistory, PastBook, Advancing;
    BreakPast(w, s);
    NoneHeld(w, s.sent, s.ring, s.task.lastU);
  }

  lemma PushPastBook(c: Config, w: World, s: State, i: nat, now: int, id: nat)
    requires PastBook(w, s.sent, s.ring, id) && s.sent <= i < |w.hist|
    ensures PastBook(w, i + 1, Push(s.ring, w.hist[i], c.capacity, c.maxMillis, now), id)
  {
    var k := PushIsSuffix(s.ring, w.hist[i], c.capacity, c.maxMillis, now);
  }

  lemma FirstNormalized(batch: seq<Diff>)
    ensures N.Normalized(batch) == [] <==> batch == []
    ensures batch != [] ==> N.Normalized(batch)[0] in batch
  {
    hide N.Normalized;
    N.NormalizedContents(batch);
    var ms := N.Normalized(batch);
    assert ms != [] ==> ms[0] in ms;
    assert batch != [] ==> batch[0] in batch;
  }

  /** The next attempt with anything to bridge finds the snapshot too old. */
  lemma DoomedIsTooOld(w: World, s: State, b: Book)
    requires Doomed(w, s, b) && s.task.Draining?
    ensures AttachOutcome(b.id, s.task.batch) == if s.task.batch == [] then Empty else TooOld
    ensures BridgeStep(s) == s.(task := Idle, phase := if s.task.batch == [] then s.phase else Initializing)
  {
    hide N.Normalized;
    FirstNormalized(s.task.batch);
  }

  /** Neither a fresh snapshot nor a removal. */
  ghost predicate KeepsBook(a: Action) {
    !a.Snapshot? && a != RemoveStale && a != Delist
  }

  lemma DoomedStep(c: Config, w: World, s: State, a: Action, b: Book)
    requires Doomed(w, s, b) && KeepsBook(a) && InOrderArrival(s, a)
    ensures Doomed(w, Step(c, w, s, a), b)
  {
    hide Push, Receive, BridgeStep, AttachStep, PastBook;
    match a {
      case Arrive(i, now) =>
        if i < |w.hist| {
          PushPastBook(c, w, s, i, now, b.id);
          LaterPast(w, s.sent, i + 1, Batch(s), b.id);
        }
      case RunAttach => if s.task.Draining? { DoomedIsTooOld(w, s, b); NoneHeld(w, s.sent, s.ring, b.id); }
      case DrainForAttach => NoneHeld(w, s.sent, s.ring, b.id);
      case _ =>
    }
  }

  /** AN ABORTED ATTACH IS NOT RETRIED TO SUCCESS. In every run with in-order arrivals and quiet sweeps: once an attach
      meets a break, then until another snapshot is taken or the symbol is removed the book stays where it is, no
      further diff is applied, and every non-empty batch drained finds the snapshot too old. */
  lemma {:induction false} AbortIsFinal(c: Config, w: World, sent: nat, acts: seq<Action>, more: seq<Action>)
    requires Valid(w) && Along(c, w, sent, acts + [AttachNext] + more, QuietInOrder)
    requires var s := Run(c, w, sent, acts);
             s.task.Attaching? && s.task.rest != [] && Broken(s.task) && s.book.Some?
    requires forall a :: a in more ==> KeepsBook(a)
    ensures Doomed(w, Run(c, w, sent, acts + [AttachNext] + more), Run(c, w, sent, acts).book.value)
  {
    hide Run, Along, Step, Doomed, Ordered, Advancing, Valid, QuietInOrder, KeepsBook, Broken;
    var all := acts + [AttachNext] + more;
    AlongPrefix(c, w, sent, all, QuietInOrder);
    if more == [] {
      assert all == acts + [AttachNext];
      assert all[..|all| - 1] == acts;
      AdvancingRun(c, w, sent, acts);
      BreakDooms(c, w, Run(c, w, sent, acts));
      RunSnoc(c, w, sent, acts, AttachNext);
      AttachNextStep(c, w, Run(c, w, sent, acts));
    } else {
      var init, a := more[..|more| - 1], more[|more| - 1];
      assert all[..|all| - 1] == acts + [AttachNext] + init;
      AbortIsFinal(c, w, sent, acts, init);
      assert all == (acts + [AttachNext] + init) + [a];
      RunSnoc(c, w, sent, acts + [AttachNext] + init, a);
      InOrderPart(Run(c, w, sent, acts + [AttachNext] + init), a);
      DoomedStep(c, w, Run(c, w, sent, acts + [AttachNext] + init), a, Run(c, w, sent, acts).book.value);
    }
  }

  lemma AttachNextStep(c: Config, w: World, s: State)
    requires s.task.Attaching? && s.task.rest != []
    ensures Step(c, w, s, AttachNext) == AttachStep(c, s)
  {
  }

  lemma AlongPrefix(c: Config, w: World, sent: nat, acts: seq<Action>, ok: (State, Action) -> bool)
    requires Along(c, w, sent, acts, ok) && acts != []
    ensures Along(c, w, sent, acts[..|acts| - 1], ok)
    ensures ok(Run(c, w, sent, acts[..|acts| - 1]), acts[|acts| - 1])
  {
    hide Run;
  }

  lemma InOrderPart(s: State, a: Action)
    requires QuietInOrder(s, a)
    ensures InOrderArrival(s, a)
  {
  }

  // ---------------------------------------------------------------- a run that meets a break

  /** Two arrivals close enough in time to be kept both. */
  lemma PushTwo(c: Config, d: Diff, e: Diff)
    requires c.capacity > 1
    ensures var now := d.eventTime + c.maxMillis; Push(Push([], d, c.capacity, c.maxMillis, now),
                                                       e, c.capacity, c.maxMillis, now) == [d, e]
  {
    PushOne(c, d, d.eventTime + c.maxMillis);
    assert [d] + [e] == [d, e];
  }

  /** Two drained diffs of which the first starts at the snapshot: an attach under way with both to apply. */
  lemma TwoDiffsBridge(s: State, d: Diff, e: Diff)
    requires s.task == Draining([d, e]) && SnapshotId(s.book) == d.prev && d.prev < d.first <= d.final < e.final
    ensures BridgeStep(s) == s.(task := Attaching([d, e], true, d.prev))
  {
    hide N.Chosen, N.Listing, N.Normalized;
    assert N.Rising([d, e]);
    N.RisingIsNormalized([d, e]);
    assert [d, e][0..] == [d, e];
  }

  lemma FirstAndThird(w: World)
    requires Valid(w) && |w.hist| > 2
    ensures var d, e := w.hist[0], w.hist[2];
            d.prev < d.first <= d.final < e.prev < e.final < |w.truth| && d.prev < |w.truth|
  {
    assert Describes(w.truth, w.hist[0]) && Describes(w.truth, w.hist[1]) && Describes(w.truth, w.hist[2]);
    assert Follows(w.hist, 1) && Follows(w.hist, 2);
  }

  /** Every exchange with three diffs admits an in-order run that meets a break with a book: fetch next to the first,
      lose the second, and drain the first and the third together. */
  lemma BreakIsReached(c: Config, w: World) returns (acts: seq<Action>)
    requires Valid(w) && |w.hist| > 2 && c.capacity > 1
    ensures Along(c, w, 0, acts, QuietInOrder)
    ensures var s := Run(c, w, 0, acts); s.task.Attaching? && s.task.rest != [] && Broken(s.task) && s.book.Some?
  {
    FirstAndThird(w);
    hide Valid, Run, Along, Push, RestSnapshot, SnapshotReach, BridgeStep, AttachStep;
    acts := BothDrained(c, w);
    acts := FirstApplied(c, w, acts, w.hist[0], w.hist[2]);
  }

  lemma BothDrained(c: Config, w: World) returns (acts: seq<Action>)
    requires |w.hist| > 2 && c.capacity > 1 && w.hist[0].prev < |w.truth|
    ensures Along(c, w, 0, acts, QuietInOrder)
    ensures var s := Run(c, w, 0, acts);
            && s.task == Draining([w.hist[0], w.hist[2]])
            && s.book == Some(RestSnapshot(w.truth, w.hist[0].prev, c.depth))
  {
    hide Run, Along, Push, RestSnapshot, SnapshotReach, BridgeStep, AttachStep, Receive;
    var now := w.hist[0].eventTime + c.maxMillis;
    PushTwo(c, w.hist[0], w.hist[2]);
    acts := [];
    NoActions(c, w);
    OneMore(c, w, acts, BeginFetch);
    acts := acts + [BeginFetch];
    OneMore(c, w, acts, Snapshot(w.hist[0].prev));
    acts := acts + [Snapshot(w.hist[0].prev)];
    OneMore(c, w, acts, Stored(true));
    acts := acts + [Stored(true)];
    OneMore(c, w, acts, Arrive(0, now));
    acts := acts + [Arrive(0, now)];
    OneMore(c, w, acts, Arrive(2, now));
    acts := acts + [Arrive(2, now)];
    OneMore(c, w, acts, DrainForAttach);
    acts := acts + [DrainForAttach];
  }

  lemma FirstApplied(c: Config, w: World, before: seq<Action>, d: Diff, e: Diff) returns (acts: seq<Action>)
    requires Along(c, w, 0, before, QuietInOrder) && d.prev < d.first <= d.final < e.prev < e.final
    requires var s := Run(c, w, 0, before);
             s.task == Draining([d, e]) && s.book.Some? && s.book.value.id == d.prev
    ensures Along(c, w, 0, acts, QuietInOrder)
    ensures var s := Run(c, w, 0, acts);
            s.task == Attaching([e], false, d.final) && Broken(s.task) && s.book.Some?
  {
    hide Run, Along, BridgeStep, ApplyDiff, ReachAfter, QuietInOrder;
    TwoDiffsBridge(Run(c, w, 0, before), d, e);
    OneMore(c, w, before, RunAttach);
    acts := before + [RunAttach];
    OneMore(c, w, acts, AttachNext);
    acts := acts + [AttachNext];
    assert [d, e][1..] == [e];
  }

  // ---------------------------------------------------------------- a new snapshot is always in reach

  lemma Refetched(c: Config, w: World, sent: nat, before: seq<Action>, n: nat) returns (acts: seq<Action>)
    requires n < |w.truth|
    requires var s := Run(c, w, sent, before);
             s.task == Fetching || (s.task == Idle && (s.phase == Initializing || s.phase == FetchingSnapshot))
    ensures var s := Run(c, w, sent, before + acts);
            s.phase == Syncing && s.task == Idle && s.book == Some(RestSnapshot(w.truth, n, c.depth))
  {
    hide Run, RestSnapshot, SnapshotReach;
    acts := [];
    assert before + acts == before;
    if Run(c, w, sent, before).task == Idle {
      RunSnoc(c, w, sent, before, BeginFetch);
      acts := [BeginFetch];
    }
    RunSnoc(c, w, sent, before + acts, Snapshot(n));
    assert before + acts + [Snapshot(n)] == before + (acts + [Snapshot(n)]);
    acts := acts + [Snapshot(n)];
    RunSnoc(c, w, sent, before + acts, Stored(true));
    assert before + acts + [Stored(true)] == before + (acts + [Stored(true)]);
    acts := acts + [Stored(true)];
  }

  /** An attempt about to start comes to an end. */
  lemma AttemptEnds(c: Config, w: World, sent: nat, before: seq<Action>) returns (acts: seq<Action>)
    requires Run(c, w, sent, before).task.Draining? && Run(c, w, sent, before).phase != Live
    ensures var s := Run(c, w, sent, before + acts);
            s.task == Promoting || (s.task == Idle && s.phase != Live)
  {
    hide Run, BridgeStep, AttachStep, Finish, TryAttach;
    RunSnoc(c, w, sent, before, RunAttach);
    var more := FinishIsRun(c, w, sent, before + [RunAttach]);
    FinishIsTryAttach(c, Run(c, w, sent, before));
    acts := [RunAttach] + more;
    assert before + acts == before + [RunAttach] + more;
  }

  /** From an idle or fetching manager, giving up on a bridge that does not come. */
  lemma RefetchedFrom(c: Config, w: World, sent: nat, before: seq<Action>, n: nat) returns (acts: seq<Action>)
    requires n < |w.truth|
    requires var s := Run(c, w, sent, before); s.task == Fetching || (s.task == Idle && s.phase != Live)
    ensures var s := Run(c, w, sent, before + acts);
            s.phase == Syncing && s.task == Idle && s.book == Some(RestSnapshot(w.truth, n, c.depth))
  {
    hide Run, RestSnapshot, SnapshotReach, BridgeStep, AttachStep;
    var s := Run(c, w, sent, before);
    if s.task == Idle && s.phase == Syncing {
      RunSnoc(c, w, sent, before, BridgeTimeout);
      var more := Refetched(c, w, sent, before + [BridgeTimeout], n);
      acts := [BridgeTimeout] + more;
      assert before + acts == before + [BridgeTimeout] + more;
    } else {
      acts := Refetched(c, w, sent, before, n);
    }
  }

  /** Whatever a symbol that is not Live is waiting for - a fetch, its rows, a bridge that does not come, an attempt
      about to start - some continuation brings it to any new snapshot, or to a finished attach. */
  lemma SnapshotInReach(c: Config, w: World, sent: nat, before: seq<Action>, n: nat) returns (acts: seq<Action>)
    requires n < |w.truth|
    requires var s := Run(c, w, sent, before);
             s.phase != Live && (s.task == Idle || s.task == Fetching || s.task == Storing || s.task.Draining?)
    ensures var s := Run(c, w, sent, before + acts);
            s.task == Promoting ||
            (s.phase == Syncing && s.task == Idle && s.book == Some(RestSnapshot(w.truth, n, c.depth)))
  {
    hide Run, RestSnapshot, SnapshotReach, BridgeStep, AttachStep;
    var s := Run(c, w, sent, before);
    var first: seq<Action> := [];
    assert before + first == before;
    if s.task == Storing {
      RunSnoc(c, w, sent, before, Stored(false));
      first := [Stored(false)];
    } else if s.task.Draining? {
      first := AttemptEnds(c, w, sent, before);
    }
    hide Step;
    acts := first;
    if Run(c, w, sent, before + first).task != Promoting {
      var more := RefetchedFrom(c, w, sent, before + first, n);
      acts := first + more;
      assert before + first + more == before + acts;
    }
  }
}
