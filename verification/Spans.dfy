/** The exact condition before Live, over runs. What a run does is decided by the ids and event times of the diffs
    alone, so it can be repeated in any exchange with the same ids; the books are right in all of them if and only if
    every diff applied spans its book's id. */
module Spans {
  import opened Basics
  import opened Ladder
  import opened Exchange
  import N = Normalize
  import opened Attach
  import opened Ring
  import opened Collector
  import opened Runs

  // ---------------------------------------------------------------- the same ids

  predicate SameIds(d: Diff, e: Diff) {
    d.first == e.first && d.final == e.final && d.prev == e.prev && d.eventTime == e.eventTime
  }

  predicate Twins(xs: seq<Diff>, ys: seq<Diff>) {
    |xs| == |ys| && forall i :: 0 <= i < |xs| ==> SameIds(xs[i], ys[i])
  }

  /** Another exchange whose diffs carry the same ids and event times; books and level lists are its own. */
  predicate TwinWorlds(w: World, v: World) {
    |w.truth| == |v.truth| && Twins(w.hist, v.hist)
  }

  predicate TwinTasks(a: Task, b: Task) {
    match (a, b)
    case (Draining(xs), Draining(ys)) => Twins(xs, ys)
    case (Attaching(xs, j, n), Attaching(ys, k, m)) => Twins(xs, ys) && j == k && n == m
    case _ => a == b
  }

  predicate TwinBooks(a: Option<Book>, b: Option<Book>) {
    (a.Some? <==> b.Some?) && (a.Some? ==> a.value.id == b.value.id)
  }

  /** The same state but for what the diffs said. */
  ghost predicate TwinStates(s: State, t: State) {
    && s.phase == t.phase && TwinTasks(s.task, t.task) && TwinBooks(s.book, t.book) && Twins(s.ring, t.ring)
    && s.clock == t.clock && s.touched == t.touched && s.swept == t.swept && s.listed == t.listed
    && Twins(s.pending, t.pending) && s.sent == t.sent
  }

  lemma TwinSlices(xs: seq<Diff>, ys: seq<Diff>, k: nat)
    requires Twins(xs, ys) && k <= |xs|
    ensures Twins(xs[k..], ys[k..]) && Twins(xs[..k], ys[..k])
  {
  }

  lemma TwinsIf(xs: seq<Diff>, ys: seq<Diff>)
    requires |xs| == |ys| && forall i :: 0 <= i < |xs| ==> SameIds(xs[i], ys[i])
    ensures Twins(xs, ys)
  {
  }

  lemma {:induction false} TwinEvictions(xs: seq<Diff>, ys: seq<Diff>, maxMillis: int, now: int)
    requires Twins(xs, ys)
    ensures Twins(EvictOld(xs, maxMillis, now), EvictOld(ys, maxMillis, now))
  {
    if |xs| > 1 && now - xs[0].eventTime > maxMillis {
      assert SameIds(xs[0], ys[0]);
      TwinEvictions(xs[1..], ys[1..], maxMillis, now);
    }
  }

  lemma TwinPushes(xs: seq<Diff>, ys: seq<Diff>, d: Diff, e: Diff, capacity: nat, maxMillis: int, now: int)
    requires Twins(xs, ys) && SameIds(d, e)
    ensures Twins(Push(xs, d, capacity, maxMillis, now), Push(ys, e, capacity, maxMillis, now))
  {
    hide EvictOld;
    TwinEvictions(EvictOver(xs + [d], capacity), EvictOver(ys + [e], capacity), maxMillis, now);
  }

  lemma {:induction false} TwinKeeps(xs: seq<Diff>, ys: seq<Diff>)
    requires Twins(xs, ys)
    ensures N.Keep(xs) == N.Keep(ys)
  {
    hide Twins;
    if xs == [] {
      SameLength(xs, ys);
    } else {
      SameLength(xs, ys);
      var n := |xs| - 1;
      var kept := N.Keep(xs[..n]);
      TwinSlices(xs, ys, n);
      TwinKeeps(xs[..n], ys[..n]);
      TwinAt(xs, ys, n);
      if xs[n].final in kept { TwinAt(xs, ys, kept[xs[n].final]); }
      KeepUnfolds(xs);
      KeepUnfolds(ys);
      hide N.Keep;
    }
  }

  lemma KeepUnfolds(xs: seq<Diff>)
    requires xs != []
    ensures var n := |xs| - 1;
            var kept, u := N.Keep(xs[..n]), xs[n].final;
            N.Keep(xs) == if u !in kept || N.Beats(xs[n], xs[kept[u]]) then kept[u := n] else kept
  {
  }

  lemma SameLength(xs: seq<Diff>, ys: seq<Diff>)
    requires Twins(xs, ys)
    ensures |xs| == |ys|
  {
  }

  lemma TwinAt(xs: seq<Diff>, ys: seq<Diff>, i: nat)
    requires Twins(xs, ys) && i < |xs|
    ensures |ys| == |xs| && SameIds(xs[i], ys[i])
  {
  }

  /** If `out` lists what `keep` picks from `xs`, the same positions of `ys` list what it picks from `ys`. */
  lemma TwinListing(xs: seq<Diff>, ys: seq<Diff>, keep: map<nat, nat>, out: seq<Diff>) returns (twin: seq<Diff>)
    requires Twins(xs, ys) && forall u :: u in keep ==> keep[u] < |xs| && xs[keep[u]].final == u
    requires N.Listing(map u | u in keep :: xs[keep[u]], out)
    ensures Twins(out, twin) && N.Listing(map u | u in keep :: ys[keep[u]], twin)
  {
    assert forall i :: 0 <= i < |out| ==> out[i] in out && out[i].final in keep && xs[keep[out[i].final]] == out[i];
    forall u | u in keep ensures SameIds(xs[keep[u]], ys[keep[u]]) { TwinAt(xs, ys, keep[u]); }
    hide Twins;
    SameLength(xs, ys);
    twin := seq(|out|, i requires 0 <= i < |out| => ys[keep[out[i].final]]);
    assert forall i :: 0 <= i < |out| ==> SameIds(out[i], twin[i]);
    TwinsIf(out, twin);
    forall d ensures d in twin <==> d.final in keep && ys[keep[d.final]] == d {
      if d.final in keep && ys[keep[d.final]] == d { ListedAt(out, xs[keep[d.final]]); }
    }
  }

  lemma ListedAt(out: seq<Diff>, e: Diff)
    requires e in out
    ensures exists i :: 0 <= i < |out| && out[i] == e
  {
  }

  /** Sorting and de-duplicating look at ids and event times only. */
  lemma TwinNormalized(xs: seq<Diff>, ys: seq<Diff>)
    requires Twins(xs, ys)
    ensures Twins(N.Normalized(xs), N.Normalized(ys))
  {
    hide N.Keep, N.Normalized, N.Listing, Twins;
    TwinKeeps(xs, ys);
    SameLength(xs, ys);
    var twin := TwinListing(xs, ys, N.Keep(xs), N.Normalized(xs));
    N.ListingUnique(N.Chosen(ys), twin, N.Normalized(ys));
  }

  lemma {:induction false} TwinBridges(n: nat, xs: seq<Diff>, ys: seq<Diff>)
    requires Twins(xs, ys)
    ensures BridgeIndex(n, xs) == BridgeIndex(n, ys)
  {
    if xs != [] {
      assert SameIds(xs[0], ys[0]);
      TwinBridges(n, xs[1..], ys[1..]);
    }
  }

  lemma TwinBridgeStep(s: State, t: State)
    requires TwinStates(s, t) && s.task.Draining?
    ensures t.task.Draining? && TwinStates(BridgeStep(s), BridgeStep(t))
  {
    hide N.Normalized, N.Listing, N.Chosen, BridgeIndex;
    TwinNormalized(s.task.batch, t.task.batch);
    var xs, ys, n := N.Normalized(s.task.batch), N.Normalized(t.task.batch), SnapshotId(s.book);
    TwinBridges(n, xs, ys);
    if BridgeIndex(n, xs) < |xs| { TwinSlices(xs, ys, BridgeIndex(n, xs)); }
  }

  lemma TwinReceives(c: Config, s: State, t: State, d: Diff, e: Diff)
    requires TwinStates(s, t) && SameIds(d, e)
    ensures TwinStates(Receive(c, s, d), Receive(c, t, e))
  {
    hide Twins, ReachAfter, Trim, ApplyLevels;
  }

  lemma TwinAttachStep(c: Config, s: State, t: State)
    requires TwinStates(s, t) && s.task.Attaching? && s.task.rest != []
    ensures t.task.Attaching? && t.task.rest != [] && (Broken(s.task) <==> Broken(t.task))
    ensures TwinStates(AttachStep(c, s), AttachStep(c, t))
  {
    hide Receive;
    assert SameIds(s.task.rest[0], t.task.rest[0]);
    TwinSlices(s.task.rest, t.task.rest, 1);
    TwinReceives(c, s, t, s.task.rest[0], t.task.rest[0]);
  }

  lemma TwinStep(c: Config, w: World, v: World, s: State, t: State, a: Action)
    requires TwinWorlds(w, v) && TwinStates(s, t)
    ensures TwinStates(Step(c, w, s, a), Step(c, v, t, a))
  {
    hide Push, Receive, BridgeStep, AttachStep, SnapshotReach, Twins, Trim;
    match a {
      case Arrive(i, now) => TwinArrival(c, w, v, s, t, i, now);
      case RunAttach => TwinStart(c, w, v, s, t);
      case AttachNext => TwinNext(c, w, v, s, t);
      case ApplyLive => TwinApply(c, w, v, s, t);
      case _ => TwinOther(c, w, v, s, t, a);
    }
  }

  lemma TwinArrival(c: Config, w: World, v: World, s: State, t: State, i: nat, now: int)
    requires TwinWorlds(w, v) && TwinStates(s, t)
    ensures TwinStates(Step(c, w, s, Arrive(i, now)), Step(c, v, t, Arrive(i, now)))
  {
    hide Push;
    if i < |w.hist| {
      assert SameIds(w.hist[i], v.hist[i]);
      TwinPushes(s.ring, t.ring, w.hist[i], v.hist[i], c.capacity, c.maxMillis, now);
    }
  }

  lemma TwinNext(c: Config, w: World, v: World, s: State, t: State)
    requires TwinStates(s, t)
    ensures TwinStates(Step(c, w, s, AttachNext), Step(c, v, t, AttachNext))
  {
    hide AttachStep;
    if s.task.Attaching? && s.task.rest != [] { TwinAttachStep(c, s, t); }
  }

  lemma TwinStart(c: Config, w: World, v: World, s: State, t: State)
    requires TwinStates(s, t)
    ensures TwinStates(Step(c, w, s, RunAttach), Step(c, v, t, RunAttach))
  {
    hide BridgeStep;
    if s.task.Draining? { TwinBridgeStep(s, t); }
  }

  lemma TwinApply(c: Config, w: World, v: World, s: State, t: State)
    requires TwinStates(s, t)
    ensures TwinStates(Step(c, w, s, ApplyLive), Step(c, v, t, ApplyLive))
  {
    hide Receive;
    if s.pending != [] {
      assert SameIds(s.pending[0], t.pending[0]);
      TwinSlices(s.pending, t.pending, 1);
      TwinReceives(c, s, t, s.pending[0], t.pending[0]);
    }
  }

  lemma TwinOther(c: Config, w: World, v: World, s: State, t: State, a: Action)
    requires TwinWorlds(w, v) && TwinStates(s, t)
    requires !(a.Arrive? || a.RunAttach? || a.AttachNext? || a.ApplyLive?)
    ensures TwinStates(Step(c, w, s, a), Step(c, v, t, a))
  {
    hide Receive, BridgeStep, AttachStep, SnapshotReach, Trim, Push, Twins;
    TwinsIf([], []);
    SameLength(s.pending, t.pending);
  }

  /** The same actions in an exchange with the same ids lead to the same state but for what the diffs said. */
  lemma {:induction false} TwinRun(c: Config, w: World, v: World, sent: nat, acts: seq<Action>)
    requires TwinWorlds(w, v)
    ensures TwinStates(Run(c, w, sent, acts), Run(c, v, sent, acts))
  {
    hide Step, TwinStates;
    if acts == [] {
      TwinInit(sent);
    } else {
      TwinRun(c, w, v, sent, acts[..|acts| - 1]);
      TwinStep(c, w, v, Run(c, w, sent, acts[..|acts| - 1]), Run(c, v, sent, acts[..|acts| - 1]), acts[|acts| - 1]);
    }
  }

  lemma TwinInit(sent: nat)
    ensures TwinStates(Init(sent), Init(sent))
  {
  }

  lemma TwinSpans(c: Config, s: State, t: State, a: Action)
    requires TwinStates(s, t)
    ensures AppliesInSpan(s, a) <==> AppliesInSpan(t, a)
  {
    if s.pending != [] { assert SameIds(s.pending[0], t.pending[0]); }
    if s.task.Attaching? && s.task.rest != [] {
      hide AttachStep, Receive;
      assert SameIds(s.task.rest[0], t.task.rest[0]);
      TwinAttachStep(c, s, t);
    }
  }

  lemma {:induction false} TwinAlong(c: Config, w: World, v: World, sent: nat, acts: seq<Action>)
    requires TwinWorlds(w, v) && Along(c, w, sent, acts, AppliesInSpan)
    ensures Along(c, v, sent, acts, AppliesInSpan)
  {
    hide Run, AppliesInSpan, TwinStates;
    if acts != [] {
      var init := acts[..|acts| - 1];
      TwinAlong(c, w, v, sent, init);
      TwinRun(c, w, v, sent, init);
      TwinSpans(c, Run(c, w, sent, init), Run(c, v, sent, init), acts[|acts| - 1]);
    }
  }

  // ---------------------------------------------------------------- a market that tells ids apart

  /** A single bid that is there up to id `cut`, or from then on. */
  predicate HasBid(cut: nat, before: bool, k: nat) {
    (k <= cut) == before
  }

  ghost function BidAt(cut: nat, before: bool, k: nat): Sides {
    if HasBid(cut, before, k) then WITH_BID else QUIET
  }

  /** Only a diff that spans the change lists the bid. */
  ghost function Retold(cut: nat, before: bool, d: Diff): (e: Diff)
    ensures SameIds(d, e)
  {
    d.(bids := if HasBid(cut, before, d.prev) == HasBid(cut, before, d.final) then []
               else [Level(100, if HasBid(cut, before, d.final) then 1 else 0)],
       asks := [])
  }

  /** The same ids in that market. */
  ghost function OneBidMarket(w: World, cut: nat, before: bool): (v: World)
    ensures TwinWorlds(w, v)
    ensures forall i :: 0 <= i < |v.hist| ==> v.hist[i] == Retold(cut, before, w.hist[i])
    ensures forall k :: 0 <= k < |v.truth| ==> v.truth[k] == BidAt(cut, before, k)
  {
    World(seq(|w.truth|, k requires 0 <= k < |w.truth| => BidAt(cut, before, k)),
          seq(|w.hist|, i requires 0 <= i < |w.hist| => Retold(cut, before, w.hist[i])))
  }

  lemma RetoldDescribes(truth: seq<Sides>, cut: nat, before: bool, d: Diff)
    requires d.prev < d.first <= d.final < |truth|
    requires forall k :: 0 <= k < |truth| ==> truth[k] == BidAt(cut, before, k)
    ensures Describes(truth, Retold(cut, before, d))
  {
    var e := Retold(cut, before, d);
    if e.bids != [] { assert e.bids[0].price == 100; assert Lists(e.Of(Bid), 100); }
    forall s: Side, p, n | e.prev <= n <= e.final && !Lists(e.Of(s), p)
      ensures Same(truth[n].Of(s), truth[e.final].Of(s), p) {
      if e.bids == [] { assert HasBid(cut, before, n) == HasBid(cut, before, e.final); }
    }
  }

  lemma OneBidMarketIsValid(w: World, cut: nat, before: bool)
    requires Valid(w)
    ensures Valid(OneBidMarket(w, cut, before))
  {
    var v := OneBidMarket(w, cut, before);
    forall k, s: Side | 0 <= k < |v.truth| ensures Positive(v.truth[k].Of(s)) {}
    forall i | 0 <= i < |v.hist| ensures Describes(v.truth, v.hist[i]) {
      assert Describes(w.truth, w.hist[i]);
      RetoldDescribes(v.truth, cut, before, w.hist[i]);
    }
    forall i | 0 < i < |v.hist| ensures Follows(v.hist, i) { assert Follows(w.hist, i); }
  }

  /** No side of the true book is ever longer than `depth`. */
  ghost predicate Thin(truth: seq<Sides>, depth: nat) {
    forall n, s: Side :: 0 <= n < |truth| ==> |truth[n].Of(s)| <= depth
  }

  lemma OneBidIsThin(w: World, cut: nat, before: bool, depth: nat)
    requires depth > 0
    ensures Thin(OneBidMarket(w, cut, before).truth, depth)
  {
    var only: Levels := map[100 := 1];
    assert only.Keys == {100} && |only| == |only.Keys| == 1;
  }

  /** Before Live, nothing has been cut off. */
  ghost predicate Complete(s: State) {
    s.phase != Live && s.book.Some? ==> s.reach == COMPLETE
  }

  lemma HeldFits(s: Side, m: Levels, t: Levels, h: Horizon, depth: nat)
    requires Exact(s, m, t, h) && |t| <= depth
    ensures |m| <= depth && Trim(s, m, depth) == m && TrimHorizon(s, m, depth, h) == h
  {
    assert forall p :: p in m.Keys ==> p in t.Keys;
    SubsetSize(m.Keys, t.Keys);
    assert |m.Keys| == |m| && |t.Keys| == |t|;
  }

  lemma SnapshotComplete(truth: seq<Sides>, n: nat, depth: nat)
    requires Thin(truth, depth) && n < |truth|
    ensures SnapshotReach(truth, n, depth) == COMPLETE
  {
    assert |truth[n].Of(Bid)| <= depth && |truth[n].Of(Ask)| <= depth;
  }

  lemma ReceiveComplete(c: Config, v: World, s: State, d: Diff)
    requires Valid(v) && Thin(v.truth, c.depth) && d in v.hist && InSpan(s.book, d)
    requires s.book.Some? ==> BookExact(v.truth, s.book.value, s.reach) && s.reach == COMPLETE
    ensures s.book.Some? ==> Receive(c, s, d).reach == COMPLETE
  {
    if s.book.Some? {
      var i := PositionOf(v, d);
      assert Describes(v.truth, v.hist[i]);
      hide Valid, Describes;
      SideComplete(v.truth, s.book.value, d, c.depth, Bid);
      SideComplete(v.truth, s.book.value, d, c.depth, Ask);
      hide TrimHorizon, Trim, ApplyLevels, BookExact;
    }
  }

  lemma SideComplete(truth: seq<Sides>, b: Book, d: Diff, depth: nat, s: Side)
    requires AllPositive(truth) && Thin(truth, depth) && Describes(truth, d) && BookExact(truth, b, COMPLETE)
    requires d.prev <= b.id <= d.final
    ensures TrimHorizon(s, ApplyLevels(b.sides.Of(s), d.Of(s)), depth, Everything) == Everything
  {
    hide Describes, ApplyLevels, TrimHorizon;
    ApplyLevelsExact(truth, b.id, d, s, b.sides.Of(s), Everything);
    assert d.final < |truth| by { FinalInTruth(truth, d); }
    assert |truth[d.final].Of(s)| <= depth;
    HeldFits(s, ApplyLevels(b.sides.Of(s), d.Of(s)), truth[d.final].Of(s), Everything, depth);
  }

  lemma CompleteStep(c: Config, v: World, s: State, a: Action)
    requires Valid(v) && Thin(v.truth, c.depth) && ExactUntilLive(v, s) && Complete(s) && AppliesInSpan(s, a)
    ensures Complete(Step(c, v, s, a))
  {
    hide Valid, Thin, Push, ApplyDiff, ReachAfter, RestSnapshot, SnapshotReach, BookExact, BridgeStep, InSpan;
    ShapesKept(c, s);
    match a {
      case Snapshot(n) => if n < |v.truth| { SnapshotComplete(v.truth, n, c.depth); }
      case AttachNext =>
        if s.phase != Live && s.task.Attaching? && s.task.rest != [] && !Broken(s.task) {
          ReceiveComplete(c, v, s, s.task.rest[0]);
        }
      case ApplyLive => if s.phase != Live && s.pending != [] { ReceiveComplete(c, v, s, s.pending[0]); }
      case RunAttach => if s.task.Draining? { BridgeKeepsReach(s); }
      case _ =>
    }
  }

  lemma BridgeKeepsReach(s: State)
    requires s.task.Draining?
    ensures BridgeStep(s).reach == s.reach
  {
    hide N.Normalized, N.Listing, N.Chosen;
  }

  /** In a thin market a book that is not Live is the whole true book at its id. */
  lemma {:induction false} CompleteRun(c: Config, v: World, sent: nat, acts: seq<Action>)
    requires Valid(v) && Thin(v.truth, c.depth) && Along(c, v, sent, acts, AppliesInSpan)
    ensures ExactUntilLive(v, Run(c, v, sent, acts)) && Complete(Run(c, v, sent, acts))
  {
    hide Valid, Thin, ExactUntilLive, Complete, AppliesInSpan, Step;
    ExactBeforeLive(c, v, sent, acts);
    if acts == [] {
      NoBookYet(sent);
    } else {
      var init := acts[..|acts| - 1];
      CompleteRun(c, v, sent, init);
      CompleteStep(c, v, Run(c, v, sent, init), acts[|acts| - 1]);
    }
  }

  lemma NoBookYet(sent: nat)
    ensures Complete(Init(sent))
  {
  }

  // ---------------------------------------------------------------- the exact condition

  ghost predicate RightBeforeLive(v: World, s: State) {
    s.phase != Live && s.book.Some? ==> BookExact(v.truth, s.book.value, s.reach)
  }

  /** In every exchange with the same ids, the book is exact up to its recorded reach whenever it is not Live. */
  ghost predicate RightInEveryExchange(c: Config, w: World, sent: nat, acts: seq<Action>) {
    forall v: World :: Valid(v) && TwinWorlds(w, v) ==>
      Throughout(c, v, sent, acts, (s: State) => RightBeforeLive(v, s))
  }

  lemma {:induction false} InSpanIsRight(c: Config, v: World, sent: nat, acts: seq<Action>)
    requires Valid(v) && Along(c, v, sent, acts, AppliesInSpan)
    ensures Throughout(c, v, sent, acts, (s: State) => RightBeforeLive(v, s))
  {
    hide Run, Valid, AppliesInSpan;
    ExactBeforeLive(c, v, sent, acts);
    if acts != [] { InSpanIsRight(c, v, sent, acts[..|acts| - 1]); }
  }

  /** The bid stays in the book past the id at which the market has it no more. */
  lemma StrayBid(c: Config, w: World, cut: nat, before: bool, t: State, e: Diff)
    requires c.depth > 0 && t.book.Some? && e.bids == [] && e.final < |w.truth|
    requires BookExact(OneBidMarket(w, cut, before).truth, t.book.value, COMPLETE)
    requires HasBid(cut, before, t.book.value.id) && !HasBid(cut, before, e.final)
    ensures forall r :: !BookExact(OneBidMarket(w, cut, before).truth, Receive(c, t, e).book.value, r)
  {
    var truth, b := OneBidMarket(w, cut, before).truth, t.book.value;
    assert truth[b.id] == WITH_BID && truth[e.final] == QUIET;
    assert Exact(Bid, b.sides.Of(Bid), WITH_BID.Of(Bid), Everything);
    assert 100 in WITH_BID.Of(Bid) && 100 in b.sides.Of(Bid);
    OneBidIsThin(w, cut, before, c.depth);
    HeldFits(Bid, b.sides.Of(Bid), WITH_BID.Of(Bid), Everything, c.depth);
    assert ApplyLevels(b.sides.bids, []) == b.sides.bids;
    var after := Receive(c, t, e).book.value;
    hide Trim, ApplyLevels;
    assert 100 in after.sides.Of(Bid) && 100 !in truth[after.id].Of(Bid);
    forall r ensures !BookExact(truth, after, r) {
      assert !Exact(Bid, after.sides.Of(Bid), truth[after.id].Of(Bid), r.Of(Bid));
    }
  }

  /** The diff an action is about to apply. */
  ghost function Next(s: State, a: Action): Diff
    requires if a == ApplyLive then s.pending != [] else s.task.Attaching? && s.task.rest != []
  {
    if a == ApplyLive then s.pending[0] else s.task.rest[0]
  }

  ghost predicate Applies(s: State, a: Action) {
    && s.phase != Live && s.book.Some?
    && ((a == ApplyLive && s.pending != []) ||
        (a == AttachNext && s.task.Attaching? && s.task.rest != [] && !Broken(s.task)))
  }

  lemma TwinApplies(c: Config, s: State, t: State, a: Action)
    requires TwinStates(s, t) && Applies(s, a)
    ensures Applies(t, a) && SameIds(Next(s, a), Next(t, a)) && t.book.value.id == s.book.value.id
  {
    if a == ApplyLive {
      assert SameIds(s.pending[0], t.pending[0]);
    } else {
      hide AttachStep;
      TwinAttachStep(c, s, t);
      assert SameIds(s.task.rest[0], t.task.rest[0]);
    }
  }

  lemma AppliesOne(c: Config, w: World, s: State, a: Action)
    requires Applies(s, a) && ExactUntilLive(w, s)
    ensures Next(s, a) in w.hist
    ensures var t := Step(c, w, s, a);
            t.phase == s.phase && t.book.Some? && t.book == Receive(c, s, Next(s, a)).book
  {
    hide ApplyDiff, ReachAfter, BookExact;
  }

  /** A change of the market between the book's id and the span of the diff that misses it. */
  lemma CutOf(m: nat, d: Diff) returns (cut: nat, before: bool)
    requires d.prev < d.final && !(d.prev <= m <= d.final)
    ensures HasBid(cut, before, m) && !HasBid(cut, before, d.final) && !HasBid(cut, before, d.prev)
  {
    cut, before := if m < d.prev then m else d.final, m < d.prev;
  }

  /** One diff applied out of span is enough: in some exchange with the same ids the book is then wrong, whatever
      horizon is claimed for it. */
  lemma OutOfSpanIsWrong(c: Config, w: World, sent: nat, acts: seq<Action>, a: Action) returns (v: World)
    requires Valid(w) && c.depth > 0 && Along(c, w, sent, acts, AppliesInSpan)
    requires !AppliesInSpan(Run(c, w, sent, acts), a)
    ensures Valid(v) && TwinWorlds(w, v)
    ensures var t := Step(c, v, Run(c, v, sent, acts), a);
            t.phase != Live && t.book.Some? && forall r :: !BookExact(v.truth, t.book.value, r)
  {
    hide Run, Valid, Describes, TwinStates, Along, BookExact, Step, Receive;
    var s := Run(c, w, sent, acts);
    ExactBeforeLive(c, w, sent, acts);
    assert Applies(s, a) && !InSpan(s.book, Next(s, a)) by { Strays(w, s, a); }
    AppliesOne(c, w, s, a);
    var d := Next(s, a);
    DescribedIn(w, d);
    var cut, before := CutOf(s.book.value.id, d);
    v := OneBidMarket(w, cut, before);
    OneBidMarketIsValid(w, cut, before);
    OneBidIsThin(w, cut, before, c.depth);
    TwinRun(c, w, v, sent, acts);
    TwinAlong(c, w, v, sent, acts);
    CompleteRun(c, v, sent, acts);
    var t := Run(c, v, sent, acts);
    TwinApplies(c, s, t, a);
    AppliesOne(c, v, t, a);
    RetoldQuietly(w, cut, before, Next(t, a), d);
    StrayBid(c, w, cut, before, t, Next(t, a));
  }

  lemma Strays(w: World, s: State, a: Action)
    requires ExactUntilLive(w, s) && !AppliesInSpan(s, a)
    ensures Applies(s, a) && !InSpan(s.book, Next(s, a))
  {
    hide BookExact;
  }

  lemma DescribedIn(w: World, d: Diff)
    requires Valid(w) && d in w.hist
    ensures d.prev < d.final < |w.truth|
  {
    var i := PositionOf(w, d);
    assert Describes(w.truth, w.hist[i]);
  }

  lemma RetoldQuietly(w: World, cut: nat, before: bool, e: Diff, d: Diff)
    requires e in OneBidMarket(w, cut, before).hist && SameIds(d, e)
    requires HasBid(cut, before, d.prev) == HasBid(cut, before, d.final)
    ensures e.bids == []
  {
    var i := PositionOf(OneBidMarket(w, cut, before), e);
  }

  /** THE EXACT CONDITION BEFORE LIVE. For every run whatever - arrivals lost, repeated, reordered, sweeps landing
      anywhere: whenever the book is not Live it is exact up to its recorded reach, in every exchange with the same ids,
      if and only if every diff applied to it, by the attach or the live loop, spans its id. */
  lemma {:induction false} RightBeforeLiveIff(c: Config, w: World, sent: nat, acts: seq<Action>)
    requires Valid(w) && c.depth > 0
    ensures Along(c, w, sent, acts, AppliesInSpan) <==> RightInEveryExchange(c, w, sent, acts)
  {
    hide Run, Valid, AppliesInSpan, RightBeforeLive, TwinWorlds, Step;
    if Along(c, w, sent, acts, AppliesInSpan) {
      forall v: World | Valid(v) && TwinWorlds(w, v)
        ensures Throughout(c, v, sent, acts, (s: State) => RightBeforeLive(v, s)) {
        TwinAlong(c, w, v, sent, acts);
        InSpanIsRight(c, v, sent, acts);
      }
    } else {
      var init, a := acts[..|acts| - 1], acts[|acts| - 1];
      RightBeforeLiveIff(c, w, sent, init);
      if RightInEveryExchange(c, w, sent, acts) {
        forall v: World | Valid(v) && TwinWorlds(w, v)
          ensures Throughout(c, v, sent, init, (s: State) => RightBeforeLive(v, s)) {
        }
        var v := OutOfSpanIsWrong(c, w, sent, init, a);
        RunLast(c, v, sent, acts);
        NowThroughout(c, v, sent, acts, (s: State) => RightBeforeLive(v, s));
        NotRight(v, Run(c, v, sent, acts));
        assert false;
      }
    }
  }

  lemma RunLast(c: Config, w: World, sent: nat, acts: seq<Action>)
    requires acts != []
    ensures Run(c, w, sent, acts) == Step(c, w, Run(c, w, sent, acts[..|acts| - 1]), acts[|acts| - 1])
  {
  }

  lemma NotRight(v: World, s: State)
    requires s.phase != Live && s.book.Some? && forall r :: !BookExact(v.truth, s.book.value, r)
    ensures !RightBeforeLive(v, s)
  {
  }
}
