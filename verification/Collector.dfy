/** One symbol's life in the collector as a state machine over its concurrent steps: arrivals into the ring,
    the manager task (fetch, store, drain, attach diff by diff, promote), the live loop (list, drain, apply), the
    stale sweep (list, remove) and delisting. Every sequence of actions is a run; a step that is not enabled changes
    nothing. */
module Collector {
  import opened Basics
  import opened Ladder
  import opened Exchange
  import opened Healing
  import opened Normalize
  import opened Attach
  import opened Ring

  datatype Phase = Initializing | FetchingSnapshot | Syncing | Live

  /** Where the manager task stands: looking at the phase; awaiting the REST snapshot; snapshot in memory, its rows
      being written; batch drained for an attach; attaching, with the diffs still to apply, whether the next one is the
      bridge, and the last id applied; attached but not yet marked Live; gone. */
  datatype Task =
    | Idle
    | Fetching
    | Storing
    | Draining(batch: seq<Diff>)
    | Attaching(rest: seq<Diff>, bridging: bool, lastU: nat)
    | Promoting
    | Stopped

  datatype Config = Config(depth: nat, capacity: nat, maxMillis: int)

  const MAX_IDLE_SECS: nat := 7200

  /** `touched` is when the book last changed; `swept` that the stale sweep has listed the symbol for removal; `listed`
      and `pending` belong to the live loop. The rest only records the past: how far the book is known complete, how
      much of the history has come by, the last snapshot's id, the book as attached with its reach and the diff that
      completed it, and the diffs the live loop applied since. */
  datatype State = State(phase: Phase, task: Task, book: Option<Book>, ring: seq<Diff>,
                         clock: nat, touched: nat, swept: bool, listed: bool, pending: seq<Diff>,
                         reach: Reach, sent: nat, snapshotId: nat,
                         anchor: Book, anchorReach: Reach, newest: Diff, log: seq<Diff>)

  datatype Action =
    | Arrive(i: nat, now: int) | Tick(secs: nat)
    | BeginFetch | Snapshot(n: nat) | FetchFails | Stored(ok: bool)
    | BridgeTimeout | DrainForAttach | RunAttach | AttachNext | Promote
    | ListLive | DrainLive | ApplyLive
    | ListStale | RemoveStale | Delist

  ghost function Init(sent: nat): State {
    var nothing := Book(0, Sides(map[], map[]));
    State(Initializing, Idle, None, [], 0, 0, false, false, [],
          COMPLETE, sent, 0, nothing, COMPLETE, Diff(0, 0, 0, 0, [], []), [])
  }

  ghost function Step(c: Config, w: World, s: State, a: Action): State {
    match a
    case Arrive(i, now) =>
      if i < |w.hist| then
        s.(ring := Push(s.ring, w.hist[i], c.capacity, c.maxMillis, now), sent := if i < s.sent then s.sent else i + 1)
      else s
    case Tick(secs) => s.(clock := s.clock + secs)
    case BeginFetch =>
      if s.task == Idle && (s.phase == Initializing || s.phase == FetchingSnapshot)
      then s.(phase := FetchingSnapshot, task := Fetching) else s
    case Snapshot(n) =>
      if s.task == Fetching && n < |w.truth| then
        s.(book := Some(RestSnapshot(w.truth, n, c.depth)), reach := SnapshotReach(w.truth, n, c.depth),
           touched := s.clock, snapshotId := n, task := Storing)
      else s
    case FetchFails =>
      if s.task == Fetching then s.(phase := Initializing, task := Idle) else s
    case Stored(ok) =>
      if s.task == Storing then s.(phase := if ok then Syncing else Initializing, task := Idle) else s
    case BridgeTimeout =>
      if s.task == Idle && s.phase == Syncing then s.(phase := Initializing) else s
    case DrainForAttach =>
      if s.task == Idle && s.phase == Syncing then s.(task := Draining(s.ring), ring := []) else s
    case RunAttach =>
      if s.task.Draining? then BridgeStep(s) else s
    case AttachNext =>
      if s.task.Attaching? && s.task.rest != [] then AttachStep(c, s) else s
    case Promote =>
      if s.task == Promoting then s.(phase := Live, task := Idle) else s
    case ListLive =>
      if s.phase == Live && s.pending == [] then s.(listed := true) else s
    case DrainLive =>
      if s.listed then s.(listed := false, pending := s.ring, ring := []) else s
    case ApplyLive =>
      if s.pending != [] then
        Receive(c, s, s.pending[0]).(pending := s.pending[1..], log := s.log + [s.pending[0]])
      else s
    case ListStale =>
      if s.book.Some? && s.clock > s.touched + MAX_IDLE_SECS then s.(swept := true) else s
    case RemoveStale =>
      if s.swept then s.(swept := false, phase := Initializing, book := None) else s
    case Delist =>
      if s.task == Idle then s.(phase := Initializing, book := None, task := Stopped) else s
  }

  /** One diff applied to the book, if there is one. */
  ghost function Receive(c: Config, s: State, d: Diff): State {
    match s.book
    case None => s
    case Some(b) =>
      s.(book := Some(ApplyDiff(b, d, c.depth)), reach := ReachAfter(b, d, c.depth, s.reach), touched := s.clock)
  }

  /** Normalise the batch and look for the bridge. */
  ghost function BridgeStep(s: State): State
    requires s.task.Draining?
  {
    BridgeFrom(s, SnapshotId(s.book), Normalized(s.task.batch))
  }

  ghost function BridgeFrom(s: State, n: nat, ms: seq<Diff>): State {
    if ms == [] then s.(task := Idle)
    else if n < ms[0].prev then s.(task := Idle, phase := Initializing)
    else
      var i := BridgeIndex(n, ms);
      if i == |ms| then s.(task := Idle) else s.(task := Attaching(ms[i..], true, n))
  }

  /** The chain test against the last id applied. */
  ghost predicate Broken(t: Task)
    requires t.Attaching? && t.rest != []
  {
    !t.bridging && t.rest[0].prev != t.lastU
  }

  /** Apply one diff of the attach, or give up at a break in the chain. */
  ghost function AttachStep(c: Config, s: State): State
    requires s.task.Attaching? && s.task.rest != []
  {
    var d := s.task.rest[0];
    if Broken(s.task) then s.(task := Idle)
    else
      var t := Receive(c, s, d);
      if |s.task.rest| > 1 then t.(task := Attaching(s.task.rest[1..], false, d.final))
      else
        t.(task := Promoting, anchor := if t.book.Some? then t.book.value else t.anchor, anchorReach := t.reach,
           newest := d, log := [])
  }

  ghost function Run(c: Config, w: World, sent: nat, acts: seq<Action>): State {
    if acts == [] then Init(sent) else Step(c, w, Run(c, w, sent, acts[..|acts| - 1]), acts[|acts| - 1])
  }

  /** Every action of the run satisfies `ok` in the state it is taken in. */
  ghost predicate Along(c: Config, w: World, sent: nat, acts: seq<Action>, ok: (State, Action) -> bool) {
    acts == [] ||
    (Along(c, w, sent, acts[..|acts| - 1], ok) && ok(Run(c, w, sent, acts[..|acts| - 1]), acts[|acts| - 1]))
  }

  // ---------------------------------------------------------------- soundness before Live

  ghost predicate Busy(s: State) {
    s.listed || s.pending != []
  }

  /** The stale sweep does not remove a symbol the live loop is working on. */
  ghost predicate QuietSweep(s: State, a: Action) {
    a == RemoveStale && s.swept ==> !Busy(s)
  }

  /** The book is a gap-free stretch of the history folded onto the REST snapshot at `n`, and `r` is how far that
      leaves it complete. */
  ghost predicate FromSnapshot(w: World, depth: nat, n: nat, b: Book, r: Reach) {
    n < |w.truth| && exists a: nat, c: nat :: FoldedFrom(w, depth, n, b, r, a, c)
  }

  ghost predicate FoldedFrom(w: World, depth: nat, n: nat, b: Book, r: Reach, a: nat, c: nat)
    requires n < |w.truth|
  {
    var snap := RestSnapshot(w.truth, n, depth);
    && a <= c <= |w.hist| && Chained(n, w.hist[a..c])
    && b == Fold(snap, w.hist[a..c], depth)
    && r == FoldReach(snap, w.hist[a..c], depth, SnapshotReach(w.truth, n, depth))
    && b.id == (if a < c then w.hist[c - 1].final else n)
  }

  /** What the manager has drained and not yet applied. */
  ghost function Batch(s: State): seq<Diff> {
    match s.task
    case Draining(batch) => batch
    case Attaching(rest, _, _) => rest
    case _ => []
  }

  /** Mid-attach the book stands at the last id applied, or at the snapshot inside the bridge's span. */
  ghost predicate MidAttach(s: State) {
    s.task.Attaching? ==>
      && s.task.rest != []
      && (s.book.Some? ==> s.book.value.id == s.task.lastU)
      && (s.task.bridging ==> s.task.rest[0].prev <= s.task.lastU < s.task.rest[0].final)
  }

  ghost predicate Sound(c: Config, w: World, s: State) {
    && FromHistory(w, s.ring) && FromHistory(w, s.pending) && FromHistory(w, Batch(s))
    && (s.phase != Live && s.book.Some? ==> FromSnapshot(w, c.depth, s.snapshotId, s.book.value, s.reach))
    && MidAttach(s)
    && (Busy(s) ==> s.phase == Live || s.task == Stopped)
    && (s.task == Stopped ==> s.phase != Live && s.book == None)
    && (s.phase == Live ==> s.task == Idle)
  }

  lemma PushFromHistory(w: World, buf: seq<Diff>, i: nat, capacity: nat, maxMillis: int, now: int)
    requires FromHistory(w, buf) && i < |w.hist|
    ensures FromHistory(w, Push(buf, w.hist[i], capacity, maxMillis, now))
  {
    var k := PushIsSuffix(buf, w.hist[i], capacity, maxMillis, now);
  }

  lemma FoldReachSplit(b: Book, xs: seq<Diff>, ys: seq<Diff>, depth: nat, r: Reach)
    ensures FoldReach(b, xs + ys, depth, r) == FoldReach(Fold(b, xs, depth), ys, depth, FoldReach(b, xs, depth, r))
  {
    hide ReachAfter, ApplyDiff;
    if ys == [] {
      assert xs + ys == xs;
    } else {
      var init := ys[..|ys| - 1];
      FoldReachSplit(b, xs, init, depth, r);
      FoldSplit(b, xs, init, depth);
      assert (xs + ys)[..|xs + ys| - 1] == xs + init;
    }
  }

  /** One more diff that spans the book's id: still one gap-free stretch. */
  lemma ExtendByOne(w: World, depth: nat, n: nat, b: Book, r: Reach, d: Diff)
    requires Valid(w) && FromSnapshot(w, depth, n, b, r) && d in w.hist && d.prev <= b.id < d.final
    ensures FromSnapshot(w, depth, n, ApplyDiff(b, d, depth), ReachAfter(b, d, depth, r))
  {
    hide Valid, Chained, ApplyDiff, ReachAfter, RestSnapshot, SnapshotReach, Fold, FoldReach;
    var a: nat, e: nat :| FoldedFrom(w, depth, n, b, r, a, e);
    var x := PositionOf(w, d);
    var snap, r0 := RestSnapshot(w.truth, n, depth), SnapshotReach(w.truth, n, depth);
    var from := if a < e then a else x;
    StretchGrows(w, n, b.id, a, e, x);
    var before := if a < e then w.hist[a..e] else [];
    assert a == e ==> w.hist[a..e] == [];
    FoldSplit(snap, before, [d], depth);
    FoldReachSplit(snap, before, [d], depth, r0);
    FoldOne(b, d, depth);
    ReachOne(b, d, depth, r);
    assert w.hist[from..x + 1] == before + [d];
    FoldId(snap, w.hist[from..x + 1], depth);
    assert FoldedFrom(w, depth, n, ApplyDiff(b, d, depth), ReachAfter(b, d, depth, r), from, x + 1);
  }

  lemma ReachOne(b: Book, d: Diff, depth: nat, r: Reach)
    ensures FoldReach(b, [d], depth, r) == ReachAfter(b, d, depth, r)
  {
    assert [d][..0] == [];
  }

  lemma StretchGrows(w: World, n: nat, id: nat, a: nat, e: nat, x: nat)
    requires Valid(w) && a <= e <= |w.hist| && Chained(n, w.hist[a..e]) && x < |w.hist|
    requires id == (if a < e then w.hist[e - 1].final else n) && w.hist[x].prev <= id < w.hist[x].final
    ensures a < e ==> x == e
    ensures Chained(n, w.hist[(if a < e then a else x)..x + 1])
  {
    if a < e {
      Successor(w, e - 1, x);
      assert w.hist[a..e][0] == w.hist[a];
      HistorySliceChained(w, n, a, x + 1);
    } else {
      HistorySliceChained(w, n, x, x + 1);
    }
  }

  /** The historical diff whose span holds the end of another is the next one. */
  lemma Successor(w: World, i: nat, j: nat)
    requires Valid(w) && i < |w.hist| && j < |w.hist|
    requires w.hist[j].prev <= w.hist[i].final < w.hist[j].final
    ensures j == i + 1
  {
    assert j > 0 ==> Follows(w.hist, j);
    if j < i { HistoryIncreases(w, j, i); }
    if i + 1 < j { HistoryIncreases(w, i, j - 1); }
  }

  lemma FreshSnapshot(c: Config, w: World, n: nat)
    requires n < |w.truth|
    ensures FromSnapshot(w, c.depth, n, RestSnapshot(w.truth, n, c.depth), SnapshotReach(w.truth, n, c.depth))
  {
    assert w.hist[0..0] == [];
    assert FoldedFrom(w, c.depth, n, RestSnapshot(w.truth, n, c.depth), SnapshotReach(w.truth, n, c.depth), 0, 0);
  }

  /** Starting an attach leaves the book alone; what is left to apply comes from the batch and starts at the bridge. */
  lemma BridgeStepEffect(w: World, s: State)
    requires Valid(w) && s.task.Draining? && FromHistory(w, s.task.batch)
    ensures var t := BridgeStep(s);
            && t == s.(task := t.task, phase := t.phase) && (t.phase == s.phase || t.phase == Initializing)
            && (t.task == Idle || t.task.Attaching?)
            && FromHistory(w, Batch(t)) && MidAttach(t)
  {
    hide BridgeFrom, Normalized, Listing, Chosen, Rising, Valid, MidAttach;
    NormalizedContents(s.task.batch);
    BridgeFromEffect(w, s, SnapshotId(s.book), Normalized(s.task.batch));
  }

  lemma BridgeFromEffect(w: World, s: State, n: nat, ms: seq<Diff>)
    requires Valid(w) && FromHistory(w, ms) && n == SnapshotId(s.book)
    ensures var t := BridgeFrom(s, n, ms);
            && t == s.(task := t.task, phase := t.phase) && (t.phase == s.phase || t.phase == Initializing)
            && (t.task == Idle || t.task.Attaching?)
            && FromHistory(w, Batch(t)) && MidAttach(t)
  {
    hide Valid;
    if BridgeIndex(n, ms) < |ms| { BridgeInHistory(w, n, ms); }
  }

  lemma BridgeInHistory(w: World, n: nat, ms: seq<Diff>)
    requires Valid(w) && FromHistory(w, ms) && BridgeIndex(n, ms) < |ms|
    ensures var rest := ms[BridgeIndex(n, ms)..];
            rest[0].prev <= n < rest[0].final && FromHistory(w, rest)
  {
    var i := BridgeIndex(n, ms);
    assert ms[i] in ms;
    var x := PositionOf(w, ms[i]);
    assert Describes(w.truth, w.hist[x]);
    assert forall e :: e in ms[i..] ==> e in ms;
  }

  /** One diff of an attach keeps a book from the snapshot a book from the snapshot. */
  lemma AttachStepSound(c: Config, w: World, s: State)
    requires Valid(w) && Sound(c, w, s) && s.task.Attaching?
    ensures Sound(c, w, AttachStep(c, s))
  {
    hide FromSnapshot, ApplyDiff, ReachAfter;
    var d := s.task.rest[0];
    var x := PositionOf(w, d);
    assert Describes(w.truth, w.hist[x]);
    hide Valid, Describes;
    if s.book.Some? && !Broken(s.task) { ExtendByOne(w, c.depth, s.snapshotId, s.book.value, s.reach, d); }
    assert forall e :: e in s.task.rest[1..] ==> e in s.task.rest;
    AppliedId(c, s, d);
  }

  lemma AppliedId(c: Config, s: State, d: Diff)
    ensures Receive(c, s, d).book.Some? <==> s.book.Some?
    ensures s.book.Some? ==> Receive(c, s, d).book.value.id == d.final
  {
    hide ReachAfter, Trim;
  }

  lemma SoundStep(c: Config, w: World, s: State, a: Action)
    requires Valid(w) && Sound(c, w, s) && QuietSweep(s, a)
    ensures Sound(c, w, Step(c, w, s, a))
  {
    hide Push, RestSnapshot, SnapshotReach, ApplyDiff, ReachAfter, FromSnapshot, Normalized, Valid;
    hide BridgeStep, AttachStep;
    match a {
      case Arrive(i, now) =>
        if i < |w.hist| { PushFromHistory(w, s.ring, i, c.capacity, c.maxMillis, now); }
      case Snapshot(n) =>
        if n < |w.truth| { FreshSnapshot(c, w, n); }
      case RunAttach =>
        if s.task.Draining? { BridgeStepEffect(w, s); }
      case AttachNext =>
        if s.task.Attaching? { AttachStepSound(c, w, s); }
      case _ =>
    }
  }

  lemma {:induction false} SoundRun(c: Config, w: World, sent: nat, acts: seq<Action>)
    requires Valid(w) && Along(c, w, sent, acts, QuietSweep)
    ensures Sound(c, w, Run(c, w, sent, acts))
  {
    hide Sound, Step, QuietSweep, Valid;
    if acts == [] {
      InitSound(c, w, sent);
    } else {
      SoundRun(c, w, sent, acts[..|acts| - 1]);
      SoundStep(c, w, Run(c, w, sent, acts[..|acts| - 1]), acts[|acts| - 1]);
    }
  }

  lemma InitSound(c: Config, w: World, sent: nat)
    ensures Sound(c, w, Init(sent))
  {
  }

  /** What a book folded from a snapshot is worth: exact up to exactly the horizon its folds leave, within the
      snapshot's, and bounded. */
  lemma FromSnapshotIsExact(w: World, depth: nat, n: nat, b: Book, r: Reach)
    requires Valid(w) && FromSnapshot(w, depth, n, b, r)
    ensures BookExact(w.truth, b, r)
    ensures forall s: Side :: |b.sides.Of(s)| <= depth && Within(s, r.Of(s), SnapshotReach(w.truth, n, depth).Of(s))
  {
    hide Trim, TrimHorizon, Exact, Within, ApplyDiff, ReachAfter;
    var a: nat, c: nat :| FoldedFrom(w, depth, n, b, r, a, c);
    var snap, r0 := RestSnapshot(w.truth, n, depth), SnapshotReach(w.truth, n, depth);
    SnapshotExact(w.truth, n, depth);
    assert AllDescribe(w.truth, w.hist[a..c]);
    hide Valid, Describes, Fold, FoldReach, BookExact;
    FoldExact(w.truth, snap, w.hist[a..c], depth, r0);
    forall s: Side ensures |b.sides.Of(s)| <= depth && Within(s, r.Of(s), r0.Of(s)) {
      FoldBounded(w.truth, n, w.hist[a..c], depth, s);
      ReachNarrows(snap, w.hist[a..c], depth, r0, s);
    }
  }

  /** ATTACH SOUNDNESS. In every run - arrivals lost, repeated and reordered at will, evictions, snapshots, failed and
      aborted attaches, retries, removals in the middle of an attach - in which the sweep never removes a symbol under
      the live loop's hands, a book that is not Live holds a gap-free stretch of the history folded onto its latest
      snapshot: every quantity in it is true at its own id, and it misses nothing up to the horizon those folds
      leave. */
  lemma AttachSoundness(c: Config, w: World, sent: nat, acts: seq<Action>)
    requires Valid(w) && Along(c, w, sent, acts, QuietSweep)
    ensures var s := Run(c, w, sent, acts);
            s.phase != Live && s.book.Some? ==>
              && FromSnapshot(w, c.depth, s.snapshotId, s.book.value, s.reach)
              && BookExact(w.truth, s.book.value, s.reach)
  {
    hide Along, Run, BookExact, FromSnapshot, Valid;
    SoundRun(c, w, sent, acts);
    var s := Run(c, w, sent, acts);
    if s.phase != Live && s.book.Some? {
      FromSnapshotIsExact(w, c.depth, s.snapshotId, s.book.value, s.reach);
    }
  }

  // ---------------------------------------------------------------- self-healing while Live

  /** Arrivals keep the exchange's order; any of them may be missing. */
  ghost predicate InOrderArrival(s: State, a: Action) {
    a.Arrive? ==> s.sent <= a.i
  }

  ghost predicate QuietInOrder(s: State, a: Action) {
    QuietSweep(s, a) && InOrderArrival(s, a)
  }

  /** Everything drained or buffered and not yet applied, oldest first. */
  ghost function Held(s: State): seq<Diff> {
    Batch(s) + s.pending + s.ring
  }

  ghost predicate IsAttached(s: State) {
    (s.task == Promoting || s.phase == Live) && s.book.Some?
  }

  /** The diffs that made the live book, from the one that completed the attach. */
  ghost function Consumed(s: State): seq<Diff> {
    if IsAttached(s) then [s.newest] + s.log else []
  }

  ghost predicate Behind(w: World, sent: nat, ds: seq<Diff>) {
    forall d, i :: d in ds && sent <= i < |w.hist| ==> d.final < w.hist[i].final
  }

  /** Consumed and held diffs together are one in-order stretch of what the exchange has sent. */
  ghost predicate Queued(w: World, s: State) {
    Rising(Consumed(s) + Held(s)) && Behind(w, s.sent, Consumed(s) + Held(s)) && FromHistory(w, Consumed(s))
  }

  ghost predicate Linked(c: Config, w: World, s: State) {
    IsAttached(s) ==>
      && FromSnapshot(w, c.depth, s.snapshotId, s.anchor, s.anchorReach) && s.anchor.id == s.newest.final
      && s.book == Some(Fold(s.anchor, s.log, c.depth))
      && s.reach == FoldReach(s.anchor, s.log, c.depth, s.anchorReach)
  }

  ghost predicate Ordered(c: Config, w: World, s: State) {
    Sound(c, w, s) && Queued(w, s) && Linked(c, w, s) && (s.listed ==> s.pending == [])
  }

  lemma RisingPush(x: seq<Diff>, ring: seq<Diff>, d: Diff, k: nat)
    requires Rising(x + ring) && k <= |ring| + 1 && forall e :: e in x + ring ==> e.final < d.final
    ensures Rising(x + (ring + [d])[k..])
  {
    var all, r := x + ring, x + (ring + [d])[k..];
    forall i, j | 0 <= i < j < |r| ensures r[i].final < r[j].final {
      var i' := if i < |x| then i else i + k;
      var j' := if j < |x| then j else j + k;
      assert r[i] == (all + [d])[i'] && r[j] == (all + [d])[j'];
      assert i' < |all| && all[i'] in all;
      assert j' < |all| ==> all[i'].final < all[j'].final;
    }
  }

  /** A push keeps a rising queue rising, in front of everything still to come. */
  lemma PushOrdered(w: World, x: seq<Diff>, ring: seq<Diff>, i: nat, sent: nat, c: Config, now: int)
    requires Valid(w) && i < |w.hist| && sent <= i
    requires Rising(x + ring) && Behind(w, sent, x + ring)
    ensures var r := Push(ring, w.hist[i], c.capacity, c.maxMillis, now);
            Rising(x + r) && Behind(w, i + 1, x + r)
  {
    var k := PushIsSuffix(ring, w.hist[i], c.capacity, c.maxMillis, now);
    RisingPush(x, ring, w.hist[i], k);
    var r := Push(ring, w.hist[i], c.capacity, c.maxMillis, now);
    forall d, j | d in x + r && i + 1 <= j < |w.hist| ensures d.final < w.hist[j].final {
      if d in x + ring {
      } else {
        assert d in ring + [w.hist[i]];
        HistoryIncreases(w, i, j);
      }
    }
  }

  lemma ArriveQueued(c: Config, w: World, s: State, i: nat, now: int)
    requires Valid(w) && Queued(w, s) && s.sent <= i < |w.hist|
    ensures Queued(w, Step(c, w, s, Arrive(i, now)))
  {
    hide Push, Valid, Rising, Behind, FromHistory, Consumed, Batch;
    var s' := Step(c, w, s, Arrive(i, now));
    Regroup(Consumed(s), Batch(s), s.pending, s.ring);
    Regroup(Consumed(s), Batch(s), s.pending, s'.ring);
    PushOrdered(w, Consumed(s) + Batch(s) + s.pending, s.ring, i, s.sent, c, now);
    ArriveKeeps(c, w, s, i, now);
  }

  lemma ArriveKeeps(c: Config, w: World, s: State, i: nat, now: int)
    requires s.sent <= i < |w.hist|
    ensures var s' := Step(c, w, s, Arrive(i, now));
            && s'.ring == Push(s.ring, w.hist[i], c.capacity, c.maxMillis, now) && s'.sent == i + 1
            && Consumed(s') == Consumed(s) && Batch(s') == Batch(s) && s'.pending == s.pending
  {
    hide Push;
  }

  /** Dropping a front part keeps a queue rising and behind. */
  lemma DropOrdered(w: World, sent: nat, q: seq<Diff>, k: nat, r: seq<Diff>)
    requires Rising(q) && Behind(w, sent, q) && k <= |q| && r == q[k..]
    ensures Rising(r) && Behind(w, sent, r)
  {
  }

  /** The manager's part of the queue loses a front part: nothing else moves, and nothing is attached. */
  lemma FrontDropped(c: Config, w: World, s: State, s': State, k: nat)
    requires Queued(w, s) && !IsAttached(s) && !IsAttached(s') && k <= |Batch(s)| && Batch(s') == Batch(s)[k..]
    requires s'.pending == s.pending && s'.ring == s.ring && s'.sent == s.sent
    ensures Queued(w, s') && Linked(c, w, s')
  {
    hide Rising, Behind, Batch, FromHistory;
    var batch, tail := Batch(s), s.pending + s.ring;
    assert Consumed(s) + Held(s) == batch + tail;
    assert Consumed(s') + Held(s') == (batch + tail)[k..];
    NothingFromHistory(w);
    DropOrdered(w, s.sent, batch + tail, k, (batch + tail)[k..]);
  }

  lemma NothingFromHistory(w: World)
    ensures FromHistory(w, [])
  {
  }

  lemma RisingPrefix(xs: seq<Diff>, ys: seq<Diff>)
    requires Rising(xs + ys)
    ensures Rising(xs)
  {
    assert forall i :: 0 <= i < |xs| ==> (xs + ys)[i] == xs[i];
  }

  /** An in-order batch is its own canonical form, so starting the attach drops the part before the bridge. */
  lemma RunAttachOrdered(c: Config, w: World, s: State)
    requires Queued(w, s) && s.task.Draining? && s.phase != Live
    ensures Queued(w, BridgeStep(s)) && Linked(c, w, BridgeStep(s))
  {
    hide Rising, Behind, FromHistory, Queued, Linked, BridgeFrom, Normalized, Listing, Chosen;
    QueueStartsWithBatch(w, s);
    RisingIsNormalized(s.task.batch);
    var k := BridgeFromBatch(s, SnapshotId(s.book), s.task.batch);
    FrontDropped(c, w, s, BridgeStep(s), k);
  }

  lemma BridgeFromBatch(s: State, n: nat, ms: seq<Diff>) returns (k: nat)
    requires s.task.Draining? && s.phase != Live
    ensures var t := BridgeFrom(s, n, ms);
            && k <= |ms| && Batch(t) == ms[k..] && !IsAttached(s) && !IsAttached(t)
            && t.pending == s.pending && t.ring == s.ring && t.sent == s.sent
  {
    k := if BridgeFrom(s, n, ms).task.Attaching? then BridgeIndex(n, ms) else |ms|;
  }

  lemma QueueStartsWithBatch(w: World, s: State)
    requires Queued(w, s) && s.task.Draining? && s.phase != Live
    ensures Rising(s.task.batch)
  {
    hide Rising, Behind;
    assert Consumed(s) + Held(s) == s.task.batch + (s.pending + s.ring);
    RisingPrefix(s.task.batch, s.pending + s.ring);
  }

  lemma AttachNextOrdered(c: Config, w: World, s: State)
    requires Valid(w) && Sound(c, w, s) && Queued(w, s) && s.task.Attaching? && s.phase != Live
    ensures Queued(w, AttachStep(c, s)) && Linked(c, w, AttachStep(c, s))
  {
    AttachStepSound(c, w, s);
    AppliedId(c, s, s.task.rest[0]);
    hide Rising, Behind, FromSnapshot, ApplyDiff, ReachAfter, Valid;
    var t, d := AttachStep(c, s), s.task.rest[0];
    if IsAttached(t) {
      LastDiffConsumed(w, s, t);
    } else {
      hide Queued, Linked;
      FrontDropped(c, w, s, t, if t.task.Attaching? then 1 else |s.task.rest|);
    }
  }

  /** The diff that completes the attach moves from the head of the queue to what is consumed. */
  lemma LastDiffConsumed(w: World, s: State, t: State)
    requires Queued(w, s) && s.task.Attaching? && |s.task.rest| == 1 && FromHistory(w, s.task.rest) && !IsAttached(s)
    requires IsAttached(t) && t.newest == s.task.rest[0] && t.log == [] && Batch(t) == []
    requires t.pending == s.pending && t.ring == s.ring && t.sent == s.sent
    ensures Queued(w, t)
  {
    hide Rising, Behind, FromHistory;
    assert Consumed(t) == s.task.rest;
    assert Consumed(t) + Held(t) == Consumed(s) + Held(s);
  }

  lemma ApplyLiveQueued(c: Config, w: World, s: State)
    requires Queued(w, s) && s.pending != [] && Batch(s) == [] && FromHistory(w, [s.pending[0]])
    ensures Queued(w, Step(c, w, s, ApplyLive))
  {
    hide ApplyDiff, ReachAfter, Rising, Behind, FromHistory;
    var s' := Step(c, w, s, ApplyLive);
    var d, q := s.pending[0], s.pending + s.ring;
    assert Held(s) == q && Held(s') == s.pending[1..] + s.ring;
    MoveHead(Consumed(s), s.pending, s.ring);
    if IsAttached(s) {
      assert Consumed(s') == Consumed(s) + [d];
      HistoryJoin(w, Consumed(s), [d]);
    } else {
      assert Consumed(s) + Held(s) == q && Consumed(s') + Held(s') == q[1..];
      DropOrdered(w, s.sent, q, 1, q[1..]);
    }
  }

  lemma HistoryJoin(w: World, xs: seq<Diff>, ys: seq<Diff>)
    requires FromHistory(w, xs) && FromHistory(w, ys)
    ensures FromHistory(w, xs + ys)
  {
  }

  lemma HistoryHead(w: World, ds: seq<Diff>)
    requires FromHistory(w, ds) && ds != []
    ensures FromHistory(w, [ds[0]])
  {
  }

  lemma ApplyLiveLinked(c: Config, w: World, s: State)
    requires Linked(c, w, s) && s.pending != []
    ensures Linked(c, w, Step(c, w, s, ApplyLive))
  {
    hide ApplyDiff, ReachAfter, FromSnapshot;
    if IsAttached(s) {
      var d := s.pending[0];
      FoldSplit(s.anchor, s.log, [d], c.depth);
      FoldReachSplit(s.anchor, s.log, [d], c.depth, s.anchorReach);
      FoldOne(s.book.value, d, c.depth);
      ReachOne(s.book.value, d, c.depth, s.reach);
    }
  }

  lemma ApplyLiveOrdered(c: Config, w: World, s: State)
    requires Sound(c, w, s) && Queued(w, s) && Linked(c, w, s) && s.pending != []
    ensures var s' := Step(c, w, s, ApplyLive); Queued(w, s') && Linked(c, w, s') && s'.listed == s.listed
  {
    hide Queued, Linked, FromHistory, FromSnapshot, ApplyDiff, ReachAfter;
    HistoryHead(w, s.pending);
    ApplyLiveQueued(c, w, s);
    ApplyLiveLinked(c, w, s);
  }

  /** A step that leaves the queue alone. */
  lemma SameQueue(c: Config, w: World, s: State, s': State)
    requires Queued(w, s) && Linked(c, w, s)
    requires Held(s') == Held(s) && s'.sent == s.sent
    requires IsAttached(s') == IsAttached(s)
    requires IsAttached(s) ==> s'.newest == s.newest && s'.log == s.log && s'.anchor == s.anchor
                               && s'.anchorReach == s.anchorReach && s'.snapshotId == s.snapshotId
                               && s'.book == s.book && s'.reach == s.reach
    ensures Queued(w, s') && Linked(c, w, s')
  {
    hide Rising, Behind, FromHistory, FromSnapshot, Fold, FoldReach;
  }

  /** A step that takes the symbol's book away. */
  lemma BookGone(c: Config, w: World, s: State, s': State)
    requires Queued(w, s) && s'.book == None && Held(s') == Held(s) && s'.sent == s.sent
    ensures Queued(w, s') && Linked(c, w, s')
  {
    hide Rising, Behind;
    var q := Consumed(s) + Held(s);
    assert Consumed(s') + Held(s') == q[|Consumed(s)|..];
    DropOrdered(w, s.sent, q, |Consumed(s)|, q[|Consumed(s)|..]);
  }

  /** Fetching, storing, draining, promoting and listing move the queue's parts around without changing it. */
  lemma OtherOrdered(c: Config, w: World, s: State, a: Action)
    requires Ordered(c, w, s)
    requires !(a.Arrive? || a.RunAttach? || a.AttachNext? || a.ApplyLive? || a.RemoveStale? || a.Delist?)
    ensures var s' := Step(c, w, s, a); Queued(w, s') && Linked(c, w, s') && (s'.listed ==> s'.pending == [])
  {
    hide Queued, Linked, FromHistory, FromSnapshot, RestSnapshot, SnapshotReach, MidAttach;
    hide Push, Receive, BridgeStep, AttachStep, Fold, FoldReach;
    var s' := Step(c, w, s, a);
    assert Held(s') == Held(s);
    SameQueue(c, w, s, s');
  }

  lemma OrderedStep(c: Config, w: World, s: State, a: Action)
    requires Valid(w) && Ordered(c, w, s) && QuietInOrder(s, a)
    ensures Ordered(c, w, Step(c, w, s, a))
  {
    hide Valid, Queued, Linked, Sound, Push, Receive, BridgeStep, AttachStep, RestSnapshot, SnapshotReach;
    var s' := Step(c, w, s, a);
    SoundStep(c, w, s, a);
    match a {
      case Arrive(i, now) => if i < |w.hist| { ArriveQueued(c, w, s, i, now); ArriveLinked(c, w, s, i, now); }
      case RunAttach => if s.task.Draining? { StartOrdered(c, w, s); }
      case AttachNext => if s.task.Attaching? { NextOrdered(c, w, s); }
      case ApplyLive => if s.pending != [] { ApplyLiveOrdered(c, w, s); AppliedPending(c, w, s); }
      case RemoveStale => if s.swept { BookGone(c, w, s, s'); }
      case Delist => if s.task == Idle { BookGone(c, w, s, s'); }
      case _ => OtherOrdered(c, w, s, a);
    }
  }

  lemma AppliedPending(c: Config, w: World, s: State)
    requires s.pending != [] && (s.listed ==> s.pending == [])
    ensures var s' := Step(c, w, s, ApplyLive); s'.listed ==> s'.pending == []
  {
    hide ApplyDiff, ReachAfter;
  }

  lemma StartOrdered(c: Config, w: World, s: State)
    requires Valid(w) && Ordered(c, w, s) && s.task.Draining?
    ensures var s' := BridgeStep(s); Queued(w, s') && Linked(c, w, s') && (s'.listed ==> s'.pending == [])
  {
    hide Queued, Linked, Normalized, FromSnapshot;
    RunAttachOrdered(c, w, s);
  }

  lemma NextOrdered(c: Config, w: World, s: State)
    requires Valid(w) && Ordered(c, w, s) && s.task.Attaching?
    ensures s.task.rest != []
    ensures var s' := AttachStep(c, s); Queued(w, s') && Linked(c, w, s') && (s'.listed ==> s'.pending == [])
  {
    hide Queued, Linked, FromSnapshot, ApplyDiff, ReachAfter;
    AttachNextOrdered(c, w, s);
  }

  lemma ArriveLinked(c: Config, w: World, s: State, i: nat, now: int)
    requires Linked(c, w, s)
    ensures Linked(c, w, Step(c, w, s, Arrive(i, now)))
  {
    hide Push, Fold, FoldReach, FromSnapshot;
  }

  lemma {:induction false} OrderedRun(c: Config, w: World, sent: nat, acts: seq<Action>)
    requires Valid(w) && Along(c, w, sent, acts, QuietInOrder)
    ensures Ordered(c, w, Run(c, w, sent, acts))
  {
    hide Ordered, Step, QuietInOrder, Valid;
    if acts == [] {
      InitOrdered(c, w, sent);
    } else {
      OrderedRun(c, w, sent, acts[..|acts| - 1]);
      OrderedStep(c, w, Run(c, w, sent, acts[..|acts| - 1]), acts[|acts| - 1]);
    }
  }

  lemma InitOrdered(c: Config, w: World, sent: nat)
    ensures Ordered(c, w, Init(sent))
  {
  }

  /** Rising historical diffs sit at rising positions of the history. */
  lemma {:induction false} Positions(w: World, from: nat, ds: seq<Diff>) returns (idx: seq<nat>)
    requires Valid(w) && 0 < from <= |w.hist| && FromHistory(w, ds) && Rising([w.hist[from - 1]] + ds)
    ensures InOrder(w, from, idx) && DiffsAt(w, idx) == ds
  {
    hide Valid, Describes;
    if ds == [] {
      idx := [];
    } else {
      var init, d := ds[..|ds| - 1], ds[|ds| - 1];
      var q := [w.hist[from - 1]] + ds;
      assert [w.hist[from - 1]] + init == q[..|q| - 1];
      var before := Positions(w, from, init);
      var k := PositionOf(w, d);
      assert q[0].final < q[|q| - 1].final;
      if k < from { PositionsRise(w, k, from - 1); }
      forall i | 0 <= i < |before| ensures before[i] < k {
        assert DiffsAt(w, before)[i] == init[i] == q[i + 1];
        assert q[i + 1].final < q[|q| - 1].final;
        if k <= before[i] { PositionsRise(w, k, before[i]); }
      }
      idx := before + [k];
      assert DiffsAt(w, idx) == ds;
    }
  }

  /** LIVE SELF-HEALING. In every run with in-order arrivals, however lossy, and quiet sweeps: the live book is the
      attached one, exact up to the horizon its attach left, with the received diffs applied; and any price at which it
      is now wrong - held, or missing up to the horizon those diffs leave - was touched by a diff lost since the attach
      and by no diff received after that loss. */
  lemma LiveSelfHealing(c: Config, w: World, sent: nat, acts: seq<Action>) returns (from: nat, idx: seq<nat>)
    requires Valid(w) && Along(c, w, sent, acts, QuietInOrder)
    requires var s := Run(c, w, sent, acts); s.phase == Live && s.book.Some?
    ensures var s := Run(c, w, sent, acts);
            && FromSnapshot(w, c.depth, s.snapshotId, s.anchor, s.anchorReach)
            && BookExact(w.truth, s.anchor, s.anchorReach)
            && 0 < from <= |w.hist| && w.hist[from - 1].final == s.anchor.id
            && InOrder(w, from, idx) && DiffsAt(w, idx) == s.log
            && s.book.value == Fold(s.anchor, s.log, c.depth)
            && s.reach == FoldReach(s.anchor, s.log, c.depth, s.anchorReach)
            && s.book.value.id < |w.truth|
            && forall side: Side, p ::
                 BookWrongAt(w.truth, s.book.value.id, s.book.value, s.reach, side, p) ==>
                   Unrepaired(w, from, idx, side, p)
  {
    hide Run, Along, Valid, BookExact, Fold, FoldReach, FromSnapshot, Unrepaired, BookWrongAt;
    OrderedRun(c, w, sent, acts);
    var s := Run(c, w, sent, acts);
    FromSnapshotIsExact(w, c.depth, s.snapshotId, s.anchor, s.anchorReach);
    assert s.newest in Consumed(s);
    var k := PositionOf(w, s.newest);
    from := k + 1;
    LogPositions(w, s, k);
    idx := Positions(w, from, s.log);
    hide Ordered, Queued;
    forall side: Side, p
      ensures s.book.value.id < |w.truth|
      ensures BookWrongAt(w.truth, s.book.value.id, s.book.value, s.reach, side, p) ==>
                Unrepaired(w, from, idx, side, p)
    {
      SelfHealing(w, from, s.anchor, s.anchorReach, idx, c.depth, side, p);
    }
    SelfHealing(w, from, s.anchor, s.anchorReach, idx, c.depth, Bid, 0);
  }

  lemma LogPositions(w: World, s: State, k: nat)
    requires Queued(w, s) && IsAttached(s) && k < |w.hist| && w.hist[k] == s.newest
    ensures Rising([w.hist[k]] + s.log) && FromHistory(w, s.log)
  {
    RisingPrefix(Consumed(s), Held(s));
    assert forall d :: d in s.log ==> d in Consumed(s);
  }

  // ---------------------------------------------------------------- when the live book is whole again

  /** Sent after the attach and up to the book's id, and not among what the live loop applied. */
  ghost predicate MissedLive(w: World, s: State, d: Diff)
    requires s.book.Some?
  {
    d in w.hist && s.anchor.id < d.final <= s.book.value.id && d !in s.log
  }

  /** A later applied diff listed the price again. */
  ghost predicate ListedAgain(s: State, d: Diff, side: Side, p: int) {
    exists e :: e in s.log && e.final > d.final && Lists(e.Of(side), p)
  }

  ghost predicate AllListedAgain(w: World, s: State)
    requires s.book.Some?
  {
    forall d, side: Side, p :: MissedLive(w, s, d) && Lists(d.Of(side), p) ==> ListedAgain(s, d, side, p)
  }

  /** A blamed loss, said of the run: some diff missed since the attach lists the price, and none applied later does. */
  lemma BlameInRun(w: World, s: State, from: nat, idx: seq<nat>, side: Side, p: int) returns (d: Diff)
    requires Valid(w) && s.book.Some? && 0 < from <= |w.hist| && w.hist[from - 1].final == s.anchor.id
    requires InOrder(w, from, idx) && DiffsAt(w, idx) == s.log && Unrepaired(w, from, idx, side, p)
    requires idx != [] ==> s.book.value.id == w.hist[idx[|idx| - 1]].final
    ensures MissedLive(w, s, d) && Lists(d.Of(side), p) && !ListedAgain(s, d, side, p)
  {
    hide Valid, Describes;
    var i: nat :| Lost(from, idx, i) && i < |w.hist| && Lists(w.hist[i].Of(side), p)
                  && forall k :: 0 <= k < |idx| && i < idx[k] < |w.hist| ==> !Lists(w.hist[idx[k]].Of(side), p);
    d := w.hist[i];
    HistoryIncreases(w, from - 1, i);
    HistoryIncreases(w, i, idx[|idx| - 1]);
    forall e | e in s.log ensures e != d && (e.final > d.final ==> !Lists(e.Of(side), p)) {
      var k :| 0 <= k < |s.log| && s.log[k] == e;
      assert e == w.hist[idx[k]];
      if idx[k] < i { HistoryIncreases(w, idx[k], i); } else { HistoryIncreases(w, i, idx[k]); }
    }
  }

  /** In every run with in-order arrivals, however lossy, and quiet sweeps: a live book is exact again, up to the
      horizon its applications leave, once every price listed by a diff missed since the attach has been listed by a
      later applied one - and exact all along if none was missed. */
  lemma LiveHeals(c: Config, w: World, sent: nat, acts: seq<Action>)
    requires Valid(w) && Along(c, w, sent, acts, QuietInOrder)
    requires var s := Run(c, w, sent, acts); s.phase == Live && s.book.Some? && AllListedAgain(w, s)
    ensures var s := Run(c, w, sent, acts); BookExact(w.truth, s.book.value, s.reach)
  {
    hide Run, Along, Valid, BookExact, Fold, FoldReach, FromSnapshot, Unrepaired, InOrder, MissedLive, ListedAgain;
    var from, idx := LiveSelfHealing(c, w, sent, acts);
    var s := Run(c, w, sent, acts);
    if idx != [] { FoldId(s.anchor, s.log, c.depth); }
    forall side: Side, p ensures !Unrepaired(w, from, idx, side, p) {
      if Unrepaired(w, from, idx, side, p) {
        var d := BlameInRun(w, s, from, idx, side, p);
        assert false;
      }
    }
    HealsCompletely(w, from, s.anchor, s.anchorReach, idx, c.depth);
  }
}
