/** More about runs of the collector: what an attempt amounts to, that nothing is lost silently when arrivals are
    gap-free, exactly which applications keep a book right before Live, and what the sweep can do. */
module Runs {
  import opened Basics
  import opened Ladder
  import opened Exchange
  import opened Normalize
  import opened Attach
  import opened Ring
  import opened Collector

  /** `ok` holds in every state of the run. */
  ghost predicate Throughout(c: Config, w: World, sent: nat, acts: seq<Action>, ok: State -> bool) {
    ok(Run(c, w, sent, acts)) && (acts == [] || Throughout(c, w, sent, acts[..|acts| - 1], ok))
  }

  lemma RunSnoc(c: Config, w: World, sent: nat, acts: seq<Action>, a: Action)
    ensures Run(c, w, sent, acts + [a]) == Step(c, w, Run(c, w, sent, acts), a)
  {
    hide Step;
    assert (acts + [a])[..|acts + [a]| - 1] == acts;
  }

  /** A run one action longer, arrivals still in order and the sweep quiet. */
  lemma OneMore(c: Config, w: World, before: seq<Action>, a: Action)
    requires Along(c, w, 0, before, QuietInOrder) && a != RemoveStale
    requires a.Arrive? ==> Run(c, w, 0, before).sent <= a.i
    ensures Run(c, w, 0, before + [a]) == Step(c, w, Run(c, w, 0, before), a)
    ensures Along(c, w, 0, before + [a], QuietInOrder)
  {
    hide Step;
    assert (before + [a])[..|before|] == before;
  }

  lemma NoActions(c: Config, w: World)
    ensures Run(c, w, 0, []) == Init(0) && Along(c, w, 0, [], QuietInOrder)
  {
  }

  // ---------------------------------------------------------------- an attempt left to itself

  /** The attach in progress, run to its end with nothing in between. */
  ghost function Finish(c: Config, s: State): State
    decreases if s.task.Attaching? then |s.task.rest| else 0
  {
    if s.task.Attaching? && s.task.rest != [] then Finish(c, AttachStep(c, s)) else s
  }

  /** Left to itself, an attach under way applies up to the end of the chain. */
  lemma {:induction false} FinishFrom(c: Config, s: State, n: nat, ms: seq<Diff>, b: nat, i: nat)
    requires b < |ms| && b <= i < |ms| && i <= ChainEnd(ms, b)
    requires s.task == Attaching(ms[i..], i == b, if i == b then n else ms[i - 1].final)
    ensures var t, e := Finish(c, s), ChainEnd(ms, b);
            && t.book == FoldOption(s.book, ms[i..e], c.depth) && t.phase == s.phase
            && t.task == if e == |ms| then Promoting else Idle
    decreases |ms| - i
  {
    hide Finish, AttachStep, Broken, FoldOption;
    var e := ChainEnd(ms, b);
    NextOf(c, s, ms, b, i);
    FinishOne(c, s);
    if i == e {
      FoldsNothing(s.book, ms, i, c.depth);
      FinishOne(c, AttachStep(c, s));
    } else {
      FoldsHead(s.book, ms, i, e, c.depth);
      if i + 1 < |ms| {
        FinishFrom(c, AttachStep(c, s), n, ms, b, i + 1);
      } else {
        FoldsNothing(AttachStep(c, s).book, ms, e, c.depth);
        FinishOne(c, AttachStep(c, s));
      }
    }
  }

  lemma FinishOne(c: Config, s: State)
    ensures Finish(c, s) == if s.task.Attaching? && s.task.rest != [] then Finish(c, AttachStep(c, s)) else s
  {
    hide AttachStep;
  }

  /** One step of an attach at position `i`: it gives up where the chain ends, and applies the diff before that. */
  lemma NextOf(c: Config, s: State, ms: seq<Diff>, b: nat, i: nat)
    requires b < |ms| && b <= i < |ms| && i <= ChainEnd(ms, b) && s.task.Attaching? && s.task.rest == ms[i..]
    requires s.task.bridging == (i == b) && (i > b ==> s.task.lastU == ms[i - 1].final)
    ensures var t := AttachStep(c, s);
            && t.phase == s.phase
            && (if i == ChainEnd(ms, b) then t.task == Idle && t.book == s.book
                else
                  && t.book == (if s.book.Some? then Some(ApplyDiff(s.book.value, ms[i], c.depth)) else None)
                  && t.task == if i + 1 < |ms| then Attaching(ms[i + 1..], false, ms[i].final) else Promoting)
  {
    hide ApplyDiff, ReachAfter;
    var e := ChainEnd(ms, b);
    assert i == e ==> !Follows(ms, i);
    assert b < i < e ==> Follows(ms, i);
    assert ms[i..][1..] == ms[i + 1..];
  }

  lemma FoldsNothing(b: Option<Book>, ms: seq<Diff>, i: nat, depth: nat)
    requires i <= |ms|
    ensures FoldOption(b, ms[i..i], depth) == b
  {
  }

  lemma FoldsHead(b: Option<Book>, ms: seq<Diff>, i: nat, e: nat, depth: nat)
    requires i < e <= |ms|
    ensures FoldOption(b, ms[i..e], depth) ==
            FoldOption(if b.Some? then Some(ApplyDiff(b.value, ms[i], depth)) else None, ms[i + 1..e], depth)
  {
    hide ApplyDiff;
    if b.Some? {
      assert ms[i..e] == [ms[i]] + ms[i + 1..e];
      FoldSplit(b.value, [ms[i]], ms[i + 1..e], depth);
      FoldOne(b.value, ms[i], depth);
    }
  }

  /** With nothing in between, the steps of an attempt amount to what the attempt is specified to do. */
  lemma FinishIsTryAttach(c: Config, s: State)
    requires s.task.Draining?
    ensures var t := Finish(c, BridgeStep(s));
            var (book, outcome) := TryAttach(s.book, s.task.batch, c.depth);
            && t.book == book
            && t.task == (if outcome.Attached? then Promoting else Idle)
            && t.phase == if outcome == TooOld then Initializing else s.phase
  {
    hide Normalized, Listing, Chosen, Fold;
    var n, ms := SnapshotId(s.book), Normalized(s.task.batch);
    FoldNothing(s.book, c.depth);
    if ms != [] && n >= ms[0].prev && BridgeIndex(n, ms) < |ms| {
      FinishFrom(c, BridgeStep(s), n, ms, BridgeIndex(n, ms), BridgeIndex(n, ms));
    }
  }

  /** And they are a run: start, then one step per diff. */
  lemma {:induction false} FinishIsRun(c: Config, w: World, sent: nat, acts: seq<Action>) returns (more: seq<Action>)
    ensures Run(c, w, sent, acts + more) == Finish(c, Run(c, w, sent, acts))
    ensures forall a :: a in more ==> a == AttachNext
    decreases var s := Run(c, w, sent, acts); if s.task.Attaching? then |s.task.rest| else 0
  {
    hide Run, ApplyDiff, ReachAfter;
    var s := Run(c, w, sent, acts);
    if s.task.Attaching? && s.task.rest != [] {
      RunSnoc(c, w, sent, acts, AttachNext);
      var rest := FinishIsRun(c, w, sent, acts + [AttachNext]);
      more := [AttachNext] + rest;
      assert acts + more == acts + [AttachNext] + rest;
    } else {
      more := [];
      assert acts + more == acts;
    }
  }

  /** What becomes of the symbol, said of the drained batch: an attempt left to itself ends attached, sends for a new
      snapshot or leaves everything to the next attempt, just when `Attach.AttachDecided` says so of the batch; and a
      book is moved on by the stretch of the history that `Attach.AppliedUpToHole` names. */
  lemma AttemptDecided(c: Config, w: World, s: State) returns (a: nat, e: nat)
    requires Valid(w) && s.task.Draining? && FromHistory(w, s.task.batch)
    ensures var t, n, batch := Finish(c, BridgeStep(s)), SnapshotId(s.book), s.task.batch;
            && (t.task == Promoting <==> exists b, z ::
                  b in batch && b.prev <= n < b.final && NewestOf(batch, z) && WholeFrom(w, batch, b, z))
            && (t.task == Promoting || t.task == Idle)
            && (if exists d :: OldestOf(batch, d) && d.prev > n then t.phase == Initializing else t.phase == s.phase)
            && a <= e <= |w.hist| && t.book == FoldOption(s.book, w.hist[a..e], c.depth)
            && (a < e <==> exists b :: b in batch && b.prev <= n < b.final)
            && (a < e ==> w.hist[a].prev <= n < w.hist[a].final && (e < |w.hist| ==> w.hist[e] !in batch))
            && (forall k :: a <= k < e ==> w.hist[k] in batch)
  {
    hide Valid, Finish, BridgeStep, Applied, AttachOutcome, FoldOption, WholeFrom, OldestOf, NewestOf, FromHistory;
    FinishIsTryAttach(c, s);
    AttachDecided(w, SnapshotId(s.book), s.task.batch);
    a, e := AppliedUpToHole(w, SnapshotId(s.book), s.task.batch);
  }

  // ---------------------------------------------------------------- what a drain hands over

  ghost predicate Drains(s: State, a: Action) {
    (a == DrainForAttach && s.task == Idle && s.phase == Syncing) || (a == DrainLive && s.listed)
  }

  /** Everything that has arrived since the ring was last drained, evicted or not. */
  ghost function Arrived(c: Config, w: World, sent: nat, acts: seq<Action>): seq<Diff> {
    if acts == [] then []
    else
      var init, a := acts[..|acts| - 1], acts[|acts| - 1];
      if Drains(Run(c, w, sent, init), a) then []
      else if a.Arrive? && a.i < |w.hist| then Arrived(c, w, sent, init) + [w.hist[a.i]]
      else Arrived(c, w, sent, init)
  }

  lemma RingMoves(c: Config, w: World, s: State, a: Action)
    ensures Step(c, w, s, a).ring ==
            if Drains(s, a) then []
            else if a.Arrive? && a.i < |w.hist| then Push(s.ring, w.hist[a.i], c.capacity, c.maxMillis, a.now)
            else s.ring
  {
    hide Push, RestSnapshot, SnapshotReach, ApplyDiff, ReachAfter, Normalized, Listing, Chosen, Broken;
  }

  /** The ring holds everything of `since` from position `k` on. */
  ghost predicate RingFrom(c: Config, ring: seq<Diff>, since: seq<Diff>, k: nat) {
    && k <= |since| && ring == since[k..] && |ring| <= c.capacity
    && (since != [] && c.capacity > 0 ==> ring != [])
  }

  lemma SuffixPushed(c: Config, ring: seq<Diff>, since: seq<Diff>, k: nat, d: Diff, now: int) returns (j: nat)
    requires RingFrom(c, ring, since, k)
    ensures RingFrom(c, Push(ring, d, c.capacity, c.maxMillis, now), since + [d], j)
  {
    hide Push;
    var i := PushIsSuffix(ring, d, c.capacity, c.maxMillis, now);
    j := k + i;
    assert (since[k..] + [d])[i..] == (since + [d])[j..];
  }

  lemma {:induction false} RingIsLatest(c: Config, w: World, sent: nat, acts: seq<Action>) returns (k: nat)
    ensures RingFrom(c, Run(c, w, sent, acts).ring, Arrived(c, w, sent, acts), k)
  {
    if acts == [] {
      k := 0;
    } else {
      hide Step, Push, Drains, RingFrom;
      var init, a := acts[..|acts| - 1], acts[|acts| - 1];
      var s, since := Run(c, w, sent, init), Arrived(c, w, sent, init);
      k := RingIsLatest(c, w, sent, init);
      RingMoves(c, w, s, a);
      if Drains(s, a) {
        k := NothingSince(c);
      } else if a.Arrive? && a.i < |w.hist| {
        k := SuffixPushed(c, s.ring, since, k, w.hist[a.i], a.now);
      }
    }
  }

  lemma NothingSince(c: Config) returns (k: nat)
    ensures RingFrom(c, [], [], k)
  {
    k := 0;
  }

  /** EVICTION ONLY FROM THE FRONT. In every run, whatever arrives and however it is evicted, what a drain hands over is
      the latest part of the arrivals since the drain before: contiguous, in arrival order, within capacity, and not
      empty unless nothing arrived or nothing may be kept. */
  lemma DrainedIsLatest(c: Config, w: World, sent: nat, acts: seq<Action>) returns (k: nat)
    ensures var s, since := Run(c, w, sent, acts), Arrived(c, w, sent, acts);
            && k <= |since| && |since[k..]| <= c.capacity && (since != [] && c.capacity > 0 ==> k < |since|)
            && s.ring == since[k..]
            && (Drains(s, DrainForAttach) ==> Step(c, w, s, DrainForAttach).task == Draining(since[k..]))
            && (Drains(s, DrainLive) ==> Step(c, w, s, DrainLive).pending == since[k..])
  {
    hide Run, Arrived;
    k := RingIsLatest(c, w, sent, acts);
  }

  // ---------------------------------------------------------------- gap-free arrivals

  ghost predicate LosslessArrival(s: State, a: Action) {
    a.Arrive? ==> a.i == s.sent
  }

  ghost predicate IsSlice(w: World, ds: seq<Diff>, lo: nat, hi: nat) {
    lo <= hi <= |w.hist| && ds == w.hist[lo..hi]
  }

  /** What an attach still has to apply follows what it last applied. */
  ghost predicate Continues(w: World, t: Task, lo: nat) {
    t.Attaching? && !t.bridging ==> 0 < lo <= |w.hist| && w.hist[lo - 1].final == t.lastU
  }

  /** The ring ends with the latest arrival, and every drained batch is contiguous too. */
  ghost predicate Contiguous(w: World, s: State) {
    && (s.ring == [] || exists lo: nat :: IsSlice(w, s.ring, lo, s.sent))
    && (Batch(s) == [] || exists lo: nat, hi: nat :: IsSlice(w, Batch(s), lo, hi) && Continues(w, s.task, lo))
  }

  lemma PushContiguous(c: Config, w: World, s: State, now: int)
    requires s.sent < |w.hist| && Contiguous(w, s)
    ensures var ring, end := Push(s.ring, w.hist[s.sent], c.capacity, c.maxMillis, now), s.sent + 1;
            exists lo: nat :: IsSlice(w, ring, lo, end)
  {
    hide Push;
    var lo: nat := if s.ring == [] then s.sent else var l: nat :| IsSlice(w, s.ring, l, s.sent); l;
    var d := w.hist[s.sent];
    var k := PushIsSuffix(s.ring, d, c.capacity, c.maxMillis, now);
    SliceGrows(w.hist, lo, s.sent, k);
    assert IsSlice(w, Push(s.ring, d, c.capacity, c.maxMillis, now), lo + k, s.sent + 1);
  }

  lemma SliceGrows<T>(h: seq<T>, lo: nat, hi: nat, k: nat)
    requires lo <= hi < |h| && k <= hi + 1 - lo
    ensures (h[lo..hi] + [h[hi]])[k..] == h[lo + k..hi + 1]
  {
  }

  lemma BridgeContiguous(w: World, s: State)
    requires Valid(w) && Contiguous(w, s) && s.task.Draining? && s.task.batch != []
    ensures Contiguous(w, BridgeStep(s))
  {
    hide BridgeFrom, Normalized, Listing, Chosen, Valid;
    var lo: nat, hi: nat :| IsSlice(w, Batch(s), lo, hi) && Continues(w, s.task, lo);
    HistorySliceRises(w, lo, hi);
    RisingIsNormalized(s.task.batch);
    BridgeFromContiguous(w, s, SnapshotId(s.book), lo, hi);
  }

  lemma BridgeFromContiguous(w: World, s: State, n: nat, lo: nat, hi: nat)
    requires lo <= hi <= |w.hist| && (s.ring == [] || exists l: nat :: IsSlice(w, s.ring, l, s.sent))
    ensures Contiguous(w, BridgeFrom(s, n, w.hist[lo..hi])) || BridgeFrom(s, n, w.hist[lo..hi]).task == s.task
    ensures s.task.Draining? ==> BridgeFrom(s, n, w.hist[lo..hi]).task != s.task
  {
    hide IsSlice, Bridges;
    var ms := w.hist[lo..hi];
    var k := BridgeIndex(n, ms);
    if k < |ms| { RestIsSlice(w, lo, hi, k, n); }
  }

  lemma RestIsSlice(w: World, lo: nat, hi: nat, k: nat, n: nat)
    requires lo <= hi <= |w.hist| && k < hi - lo
    ensures IsSlice(w, w.hist[lo..hi][k..], lo + k, hi)
    ensures Continues(w, Attaching(w.hist[lo..hi][k..], true, n), lo + k)
  {
  }

  /** On gap-free arrivals the chain test never fails, and what is left stays contiguous. */
  lemma NextContiguous(c: Config, w: World, s: State)
    requires Valid(w) && Contiguous(w, s) && s.task.Attaching? && s.task.rest != []
    ensures !Broken(s.task) && Contiguous(w, AttachStep(c, s))
  {
    var lo: nat, hi: nat :| IsSlice(w, Batch(s), lo, hi) && Continues(w, s.task, lo);
    assert s.task.rest[0] == w.hist[lo];
    assert lo > 0 ==> Follows(w.hist, lo);
    hide Valid, ApplyDiff, ReachAfter;
    SliceDrops(w, lo, hi);
    assert |s.task.rest| > 1 ==>
      && IsSlice(w, s.task.rest[1..], lo + 1, hi)
      && Continues(w, Attaching(s.task.rest[1..], false, s.task.rest[0].final), lo + 1);
  }

  lemma SliceDrops(w: World, lo: nat, hi: nat)
    requires lo < hi <= |w.hist|
    ensures w.hist[lo..hi][1..] == w.hist[lo + 1..hi]
  {
  }

  lemma ContiguousStep(c: Config, w: World, s: State, a: Action)
    requires Valid(w) && Contiguous(w, s) && LosslessArrival(s, a)
    ensures Contiguous(w, Step(c, w, s, a))
  {
    hide Push, BridgeStep, AttachStep, IsSlice, ApplyDiff, ReachAfter, RestSnapshot, SnapshotReach, Valid;
    match a {
      case Arrive(i, now) => if i < |w.hist| { PushContiguous(c, w, s, now); }
      case RunAttach =>
        if s.task.Draining? {
          if s.task.batch == [] { NothingToBridge(s); } else { BridgeContiguous(w, s); }
        }
      case AttachNext => if s.task.Attaching? && s.task.rest != [] { NextContiguous(c, w, s); }
      case DrainForAttach => DrainContiguous(w, s);
      case _ =>
    }
  }

  lemma NothingToBridge(s: State)
    requires s.task.Draining? && s.task.batch == []
    ensures BridgeStep(s) == s.(task := Idle)
  {
    hide Chosen, Listing, Normalized;
    assert Rising([]);
    RisingIsNormalized([]);
  }

  lemma DrainContiguous(w: World, s: State)
    requires Contiguous(w, s)
    ensures Contiguous(w, s.(task := Draining(s.ring), ring := []))
  {
    if s.ring != [] {
      var lo: nat :| IsSlice(w, s.ring, lo, s.sent);
      assert Continues(w, Draining(s.ring), lo);
    }
  }

  lemma {:induction false} ContiguousRun(c: Config, w: World, sent: nat, acts: seq<Action>)
    requires Valid(w) && Along(c, w, sent, acts, LosslessArrival)
    ensures Contiguous(w, Run(c, w, sent, acts))
  {
    hide Contiguous, Step, LosslessArrival, Valid;
    if acts == [] {
      InitContiguous(w, sent);
    } else {
      ContiguousRun(c, w, sent, acts[..|acts| - 1]);
      ContiguousStep(c, w, Run(c, w, sent, acts[..|acts| - 1]), acts[|acts| - 1]);
    }
  }

  lemma InitContiguous(w: World, sent: nat)
    ensures Contiguous(w, Init(sent))
  {
  }

  /** ATTACH COMPLETENESS. In every run whose arrivals skip nothing, a non-empty drained batch is a contiguous
      stretch of the history, and the attempt on it ends in one of three ways: the snapshot is older than the
      stretch and a new one is fetched; the snapshot covers it all and the attempt is repeated with the book
      as it was; or the attach succeeds with everything from the first uncovered diff applied. */
  lemma LosslessAttach(c: Config, w: World, sent: nat, acts: seq<Action>) returns (lo: nat, hi: nat, k: nat)
    requires Valid(w) && Along(c, w, sent, acts, LosslessArrival)
    requires var s := Run(c, w, sent, acts); s.task.Draining? && s.task.batch != []
    ensures var s := Run(c, w, sent, acts); var s', n := Finish(c, Step(c, w, s, RunAttach)), SnapshotId(s.book);
            && lo < hi <= |w.hist| && s.task.batch == w.hist[lo..hi]
            && if n < w.hist[lo].prev then
                 s'.phase == Initializing && s'.task == Idle && s'.book == s.book
               else if w.hist[hi - 1].final <= n then
                 s'.phase == s.phase && s'.task == Idle && s'.book == s.book
               else
                 && lo <= k < hi && w.hist[k].prev <= n < w.hist[k].final
                 && s'.task == Promoting && s'.book == FoldOption(s.book, w.hist[k..hi], c.depth)
  {
    hide Run, Along, Valid, Fold, Applied, AttachOutcome, Finish, BridgeStep;
    ContiguousRun(c, w, sent, acts);
    var s := Run(c, w, sent, acts);
    lo, hi :| IsSlice(w, s.task.batch, lo, hi);
    k := AttachOutcomes(w, SnapshotId(s.book), lo, hi);
    FoldNothing(s.book, c.depth);
    FinishIsTryAttach(c, s);
  }

  /** Nor does an attach under way ever meet a break, whatever else happens meanwhile. */
  lemma LosslessNeverAborts(c: Config, w: World, sent: nat, acts: seq<Action>)
    requires Valid(w) && Along(c, w, sent, acts, LosslessArrival)
    requires var s := Run(c, w, sent, acts); s.task.Attaching? && s.task.rest != []
    ensures !Broken(Run(c, w, sent, acts).task)
  {
    hide Run, Along, Valid;
    ContiguousRun(c, w, sent, acts);
    NextContiguous(c, w, Run(c, w, sent, acts));
  }

  // ---------------------------------------------------------------- the exact condition before Live

  /** What the three composite steps do to the parts the next statements are about. */
  lemma ShapesKept(c: Config, s: State)
    ensures s.pending != [] ==>
              var t := Receive(c, s, s.pending[0]);
              t.phase == s.phase && t.task == s.task && (t.book.Some? <==> s.book.Some?) && t.swept == s.swept
    ensures s.task.Draining? ==>
              var t := BridgeStep(s);
              && t.book == s.book && (t.task == Idle || t.task.Attaching?)
              && (t.phase == s.phase || t.phase == Initializing)
    ensures s.task.Attaching? && s.task.rest != [] ==>
              var t := AttachStep(c, s);
              && t.phase == s.phase && (t.book.Some? <==> s.book.Some?)
              && (t.task == Idle || t.task.Attaching? || t.task == Promoting)
  {
    hide ApplyDiff, ReachAfter, Normalized, Listing, Chosen, BridgeFrom, Broken;
    if s.task.Draining? { BridgeShape(s, SnapshotId(s.book), Normalized(s.task.batch)); }
  }

  lemma BridgeShape(s: State, n: nat, ms: seq<Diff>)
    ensures var t := BridgeFrom(s, n, ms);
            t.book == s.book && (t.task == Idle || t.task.Attaching?) && (t.phase == s.phase || t.phase == Initializing)
  {
  }

  ghost predicate InSpan(b: Option<Book>, d: Diff) {
    b.Some? ==> d.prev <= b.value.id <= d.final
  }

  /** Whatever is applied to a book that is not Live, by the attach or by the live loop, spans that book's id. */
  ghost predicate AppliesInSpan(s: State, a: Action) {
    && (a == ApplyLive && s.phase != Live && s.pending != [] ==> InSpan(s.book, s.pending[0]))
    && (a == AttachNext && s.task.Attaching? && s.task.rest != [] && !Broken(s.task) ==> InSpan(s.book, s.task.rest[0]))
  }

  /** Every buffered diff is from the history, and a book that is not Live is exact up to its recorded reach. */
  ghost predicate ExactUntilLive(w: World, s: State) {
    && FromHistory(w, s.ring) && FromHistory(w, s.pending) && FromHistory(w, Batch(s))
    && (s.phase != Live && s.book.Some? ==> BookExact(w.truth, s.book.value, s.reach))
    && (s.task == Stopped ==> s.phase != Live && s.book == None)
    && (s.phase == Live ==> s.task == Idle)
  }

  lemma InSpanStaysExact(c: Config, w: World, s: State, d: Diff)
    requires Valid(w) && d in w.hist && s.book.Some? && BookExact(w.truth, s.book.value, s.reach) && InSpan(s.book, d)
    ensures var t := Receive(c, s, d); t.book.Some? && BookExact(w.truth, t.book.value, t.reach)
  {
    var i := PositionOf(w, d);
    assert Describes(w.truth, w.hist[i]);
    hide BookExact, Describes, Valid;
    ApplyDiffExact(w.truth, s.book.value, d, c.depth, s.reach);
  }

  lemma AttachStepExact(c: Config, w: World, s: State)
    requires Valid(w) && ExactUntilLive(w, s) && AppliesInSpan(s, AttachNext) && s.task.Attaching? && s.task.rest != []
    ensures ExactUntilLive(w, AttachStep(c, s))
  {
    hide BookExact, ApplyDiff, ReachAfter, Valid;
    if s.book.Some? && !Broken(s.task) { InSpanStaysExact(c, w, s, s.task.rest[0]); }
    assert forall e :: e in s.task.rest[1..] ==> e in s.task.rest;
  }

  lemma ApplyLiveExact(c: Config, w: World, s: State)
    requires Valid(w) && ExactUntilLive(w, s) && AppliesInSpan(s, ApplyLive) && s.pending != []
    ensures ExactUntilLive(w, Step(c, w, s, ApplyLive))
  {
    hide BookExact, ApplyDiff, ReachAfter, Valid;
    if s.phase != Live && s.book.Some? { InSpanStaysExact(c, w, s, s.pending[0]); }
    assert forall e :: e in s.pending[1..] ==> e in s.pending;
  }

  lemma BridgeExact(w: World, s: State)
    requires Valid(w) && ExactUntilLive(w, s) && s.task.Draining?
    ensures ExactUntilLive(w, BridgeStep(s))
  {
    hide BridgeStep, BookExact, FromHistory, Valid, MidAttach;
    BridgeStepEffect(w, s);
  }

  lemma OtherExact(c: Config, w: World, s: State, a: Action)
    requires Valid(w) && ExactUntilLive(w, s) && !(a.RunAttach? || a.AttachNext? || a.ApplyLive?)
    ensures ExactUntilLive(w, Step(c, w, s, a))
  {
    hide Push, RestSnapshot, SnapshotReach, Receive, BridgeStep, AttachStep, Valid, BookExact, FromHistory;
    NothingFromHistory(w);
    match a {
      case Arrive(i, now) =>
        if i < |w.hist| { PushFromHistory(w, s.ring, i, c.capacity, c.maxMillis, now); }
      case Snapshot(n) =>
        if n < |w.truth| { SnapshotExact(w.truth, n, c.depth); }
      case _ =>
    }
  }

  lemma ExactStep(c: Config, w: World, s: State, a: Action)
    requires Valid(w) && ExactUntilLive(w, s) && AppliesInSpan(s, a)
    ensures ExactUntilLive(w, Step(c, w, s, a))
  {
    hide Receive, BridgeStep, AttachStep, Valid, ExactUntilLive, Push;
    match a {
      case RunAttach => if s.task.Draining? { BridgeExact(w, s); }
      case AttachNext => if s.task.Attaching? && s.task.rest != [] { AttachStepExact(c, w, s); }
      case ApplyLive => if s.pending != [] { ApplyLiveExact(c, w, s); }
      case _ => OtherExact(c, w, s, a);
    }
  }

  /** However the sweep lands: a book that is not Live stays exact, up to the horizon its own applications leave, as
      long as every diff applied to it spans its id. That is also necessary: `Spans.RightBeforeLiveIff`. */
  lemma {:induction false} ExactBeforeLive(c: Config, w: World, sent: nat, acts: seq<Action>)
    requires Valid(w) && Along(c, w, sent, acts, AppliesInSpan)
    ensures ExactUntilLive(w, Run(c, w, sent, acts))
  {
    hide ExactUntilLive, AppliesInSpan, Step, Valid;
    if acts == [] {
      InitIsExact(w, sent);
    } else {
      ExactBeforeLive(c, w, sent, acts[..|acts| - 1]);
      ExactStep(c, w, Run(c, w, sent, acts[..|acts| - 1]), acts[|acts| - 1]);
    }
  }

  lemma InitIsExact(w: World, sent: nat)
    ensures ExactUntilLive(w, Init(sent))
  {
  }

  /** Quiet sweeps are one way to have it: then the attach's own chain test against the last id it applied is enough. */
  lemma {:induction false} QuietRunsApplyInSpan(c: Config, w: World, sent: nat, acts: seq<Action>)
    requires Valid(w) && Along(c, w, sent, acts, QuietSweep)
    ensures Along(c, w, sent, acts, AppliesInSpan)
  {
    hide Sound, Step, QuietSweep, Valid, AppliesInSpan;
    if acts != [] {
      var init := acts[..|acts| - 1];
      QuietRunsApplyInSpan(c, w, sent, init);
      SoundRun(c, w, sent, init);
      SoundAppliesInSpan(c, w, Run(c, w, sent, init), acts[|acts| - 1]);
    }
  }

  lemma SoundAppliesInSpan(c: Config, w: World, s: State, a: Action)
    requires Valid(w) && Sound(c, w, s)
    ensures AppliesInSpan(s, a)
  {
    if s.task.Attaching? && s.task.rest != [] {
      var x := PositionOf(w, s.task.rest[0]);
      assert Describes(w.truth, w.hist[x]);
    }
  }

  // ---------------------------------------------------------------- a Live symbol and its book

  /** From the stored snapshot to the step to Live, the manager relies on the book being there. */
  ghost predicate NeedsBook(t: Task) {
    t == Storing || t.Draining? || t.Attaching? || t == Promoting
  }

  ghost predicate HoldsBook(s: State) {
    s.phase == Syncing || s.phase == Live || NeedsBook(s.task) ==> s.book.Some?
  }

  /** The sweep does not remove the symbol while the manager relies on its book. */
  ghost predicate SweepWaits(s: State, a: Action) {
    a == RemoveStale && s.swept ==> !NeedsBook(s.task)
  }

  lemma HoldsBookIff(c: Config, w: World, s: State, a: Action)
    requires HoldsBook(s)
    ensures HoldsBook(Step(c, w, s, a)) <==> SweepWaits(s, a)
  {
    hide Push, Receive, BridgeStep, AttachStep, RestSnapshot, SnapshotReach;
    ShapesKept(c, s);
  }

  /** In every run, a syncing or Live symbol and a manager in mid-work always have the book if and only if the sweep
      never removes the symbol while the manager relies on it. */
  lemma {:induction false} BookIsHeldIff(c: Config, w: World, sent: nat, acts: seq<Action>)
    ensures Along(c, w, sent, acts, SweepWaits) <==> Throughout(c, w, sent, acts, HoldsBook)
  {
    hide HoldsBook, SweepWaits, Step;
    if acts == [] {
      InitHoldsBook(sent);
    } else {
      var init := acts[..|acts| - 1];
      BookIsHeldIff(c, w, sent, init);
      if Throughout(c, w, sent, init, HoldsBook) {
        NowThroughout(c, w, sent, init, HoldsBook);
        HoldsBookIff(c, w, Run(c, w, sent, init), acts[|acts| - 1]);
      }
    }
  }

  lemma NowThroughout(c: Config, w: World, sent: nat, acts: seq<Action>, ok: State -> bool)
    requires Throughout(c, w, sent, acts, ok)
    ensures ok(Run(c, w, sent, acts))
  {
  }

  lemma InitHoldsBook(sent: nat)
    ensures HoldsBook(Init(sent)) && LiveHolds(Init(sent))
  {
  }

  ghost predicate LiveHolds(s: State) {
    s.phase == Live ==> s.book.Some? && s.task == Idle
  }

  /** The test the step to Live does not make. */
  ghost predicate PromotesWithBook(s: State, a: Action) {
    a == Promote && s.task == Promoting ==> s.book.Some?
  }

  lemma LiveHoldsIff(c: Config, w: World, s: State, a: Action)
    requires LiveHolds(s)
    ensures LiveHolds(Step(c, w, s, a)) <==> PromotesWithBook(s, a)
  {
    hide Push, Receive, BridgeStep, AttachStep, RestSnapshot, SnapshotReach;
    ShapesKept(c, s);
  }

  /** In every run, a Live symbol always has a book and an idle manager if and only if every step to Live finds the
      book still there. */
  lemma {:induction false} LiveHasBookIff(c: Config, w: World, sent: nat, acts: seq<Action>)
    ensures Along(c, w, sent, acts, PromotesWithBook) <==> Throughout(c, w, sent, acts, LiveHolds)
  {
    hide LiveHolds, PromotesWithBook, Step;
    if acts == [] {
      InitHoldsBook(sent);
    } else {
      var init := acts[..|acts| - 1];
      LiveHasBookIff(c, w, sent, init);
      if Throughout(c, w, sent, init, LiveHolds) {
        NowThroughout(c, w, sent, init, LiveHolds);
        LiveHoldsIff(c, w, Run(c, w, sent, init), acts[|acts| - 1]);
      }
    }
  }

  ghost predicate Orphaned(s: State) {
    s.phase == Live && s.task == Idle && s.book == None
  }

  // ---------------------------------------------------------------- runs that go wrong

  /** The manager is about to fetch, and nothing is buffered or listed. */
  ghost predicate Fresh(s: State) {
    s.task == Idle && s.phase == Initializing && s.ring == [] && s.pending == [] && !s.listed
  }

  /** From an idle, initializing symbol: fetch and store the snapshot at `n`. */
  lemma Fetched(c: Config, w: World, before: seq<Action>, n: nat) returns (acts: seq<Action>)
    requires n < |w.truth| && var s := Run(c, w, 0, before); s.task == Idle && s.phase == Initializing
    ensures var s, s0 := Run(c, w, 0, acts), Run(c, w, 0, before);
            && s.phase == Syncing && s.task == Idle && s.book == Some(RestSnapshot(w.truth, n, c.depth))
            && s.ring == s0.ring && s.pending == s0.pending && s.listed == s0.listed && s.swept == s0.swept
            && s.touched == s.clock
  {
    hide Run, RestSnapshot, SnapshotReach;
    acts := before;
    RunSnoc(c, w, 0, acts, BeginFetch);
    acts := acts + [BeginFetch];
    RunSnoc(c, w, 0, acts, Snapshot(n));
    acts := acts + [Snapshot(n)];
    RunSnoc(c, w, 0, acts, Stored(true));
    acts := acts + [Stored(true)];
  }

  /** The run on to the point where the history's first diff has been drained next to the snapshot it starts from. */
  lemma FirstDrain(c: Config, w: World, before: seq<Action>, now: int) returns (acts: seq<Action>)
    requires w.hist != [] && c.capacity > 0 && w.hist[0].prev < |w.truth| && Fresh(Run(c, w, 0, before))
    ensures var s, s0 := Run(c, w, 0, acts), Run(c, w, 0, before);
            && s.task == Draining([w.hist[0]]) && s.book == Some(RestSnapshot(w.truth, w.hist[0].prev, c.depth))
            && s.phase == Syncing && s.ring == [] && s.pending == [] && !s.listed
            && s.swept == s0.swept && s.touched == s.clock
  {
    hide Push, RestSnapshot, SnapshotReach, Run, AttachStep, BridgeStep, Receive;
    acts := Fetched(c, w, before, w.hist[0].prev);
    RunSnoc(c, w, 0, acts, Arrive(0, now));
    acts := acts + [Arrive(0, now)];
    PushOne(c, w.hist[0], now);
    RunSnoc(c, w, 0, acts, DrainForAttach);
    acts := acts + [DrainForAttach];
  }

  lemma PushOne(c: Config, d: Diff, now: int)
    requires c.capacity > 0
    ensures Push([], d, c.capacity, c.maxMillis, now) == [d]
  {
    assert [] + [d] == [d];
  }

  /** The run on to a successful attach of that diff. */
  lemma FirstAttach(c: Config, w: World, before: seq<Action>, now: int) returns (acts: seq<Action>)
    requires Valid(w) && w.hist != [] && c.capacity > 0 && Fresh(Run(c, w, 0, before))
    ensures w.hist[0].prev < |w.truth|
    ensures var s, s0 := Run(c, w, 0, acts), Run(c, w, 0, before);
            && s.phase == Syncing && s.task == Promoting
            && s.book == Some(ApplyDiff(RestSnapshot(w.truth, w.hist[0].prev, c.depth), w.hist[0], c.depth))
            && s.ring == [] && s.pending == [] && !s.listed && s.swept == s0.swept && s.touched == s.clock
  {
    var d := w.hist[0];
    assert Describes(w.truth, d);
    hide Valid, Describes, Push, RestSnapshot, Run, BridgeStep, ApplyDiff, ReachAfter;
    acts := FirstDrain(c, w, before, now);
    SnapshotHasId(w, d.prev, c.depth);
    acts := OneDiffAttaches(c, w, acts, d);
  }

  lemma OneDiffAttaches(c: Config, w: World, before: seq<Action>, d: Diff) returns (acts: seq<Action>)
    requires var s := Run(c, w, 0, before);
             s.task == Draining([d]) && s.book.Some? && s.book.value.id == d.prev && d.prev < d.first <= d.final
    ensures var s, s0 := Run(c, w, 0, acts), Run(c, w, 0, before);
            && s.phase == s0.phase && s.task == Promoting && s.ring == s0.ring
            && s.book == Some(ApplyDiff(s0.book.value, d, c.depth))
            && s.pending == s0.pending && s.listed == s0.listed && s.swept == s0.swept && s.touched == s.clock
  {
    hide Run, BridgeStep, ApplyDiff, ReachAfter;
    OneDiffBridges(Run(c, w, 0, before), d);
    RunSnoc(c, w, 0, before, RunAttach);
    acts := before + [RunAttach];
    RunSnoc(c, w, 0, acts, AttachNext);
    acts := acts + [AttachNext];
  }

  lemma OneDiffBridges(s: State, d: Diff)
    requires s.task == Draining([d]) && SnapshotId(s.book) == d.prev && d.prev < d.first <= d.final
    ensures BridgeStep(s) == s.(task := Attaching([d], true, d.prev))
  {
    hide Chosen, Listing, Normalized;
    RisingIsNormalized([d]);
    assert [d][0..] == [d];
  }

  lemma SnapshotHasId(w: World, n: nat, depth: nat)
    requires n < |w.truth|
    ensures RestSnapshot(w.truth, n, depth).id == n
  {
  }

  /** Rounds of failing fetches let the clock run and change nothing else. */
  lemma {:induction false} FailedRounds(c: Config, w: World, before: seq<Action>, k: nat) returns (acts: seq<Action>)
    requires Fresh(Run(c, w, 0, before))
    ensures var s := Run(c, w, 0, before); Run(c, w, 0, acts) == s.(clock := s.clock + k)
  {
    hide Run;
    if k == 0 {
      acts := before;
    } else {
      acts := FailedRounds(c, w, before, k - 1);
      RunSnoc(c, w, 0, acts, BeginFetch);
      acts := acts + [BeginFetch];
      RunSnoc(c, w, 0, acts, Tick(1));
      acts := acts + [Tick(1)];
      RunSnoc(c, w, 0, acts, FetchFails);
      acts := acts + [FetchFails];
    }
  }

  /** The sweep lists a symbol only when its book has not changed for more than two hours. */
  lemma ListedIsStale(c: Config, w: World, s: State)
    ensures Step(c, w, s, ListStale).swept <==> s.swept || (s.book.Some? && s.clock > s.touched + 2 * 60 * 60)
  {
  }

  /** A snapshot whose rows could not be written leaves its book behind; while every later fetch fails, it goes stale
      and the sweep lists it. */
  lemma ListedWhileFetching(c: Config, w: World) returns (acts: seq<Action>)
    requires |w.truth| > 0
    ensures var s := Run(c, w, 0, acts); Fresh(s) && s.swept && s.book.Some?
  {
    hide RestSnapshot, SnapshotReach, Run, AttachStep, BridgeStep;
    acts := [];
    RunNothing(c, w);
    RunSnoc(c, w, 0, acts, BeginFetch);
    acts := acts + [BeginFetch];
    RunSnoc(c, w, 0, acts, Snapshot(0));
    acts := acts + [Snapshot(0)];
    RunSnoc(c, w, 0, acts, Stored(false));
    acts := acts + [Stored(false)];
    acts := FailedRounds(c, w, acts, MAX_IDLE_SECS + 1);
    RunSnoc(c, w, 0, acts, ListStale);
    acts := acts + [ListStale];
  }

  lemma RunNothing(c: Config, w: World)
    ensures Run(c, w, 0, []) == Init(0)
  {
  }

  /** Every exchange admits a run that ends Live without a book: the sweep lists a book gone stale while fetches fail,
      the fetch then succeeds and its attach completes, and only now the sweep gets to the removal - just before the
      symbol is marked Live. */
  lemma SweepCanOrphan(c: Config, w: World, now: int) returns (acts: seq<Action>)
    requires Valid(w) && w.hist != [] && c.capacity > 0
    ensures var s := Run(c, w, 0, acts); Orphaned(s) && !s.swept
  {
    assert Describes(w.truth, w.hist[0]);
    hide Run, Valid, Describes;
    acts := ListedWhileFetching(c, w);
    acts := FirstAttach(c, w, acts, now);
    acts := RemovedThenPromoted(c, w, acts);
  }

  lemma RemovedThenPromoted(c: Config, w: World, before: seq<Action>) returns (acts: seq<Action>)
    requires var s := Run(c, w, 0, before); s.task == Promoting && s.swept
    ensures var s := Run(c, w, 0, acts); Orphaned(s) && !s.swept
  {
    hide Run;
    RunSnoc(c, w, 0, before, RemoveStale);
    acts := before + [RemoveStale];
    RunSnoc(c, w, 0, acts, Promote);
    acts := acts + [Promote];
  }

  /** And nothing but delisting ends that state: the sweep only lists symbols that hold a book, the manager idles and
      the live loop's updates go nowhere. */
  lemma {:induction false} OrphanStays(c: Config, w: World, sent: nat, acts: seq<Action>, more: seq<Action>)
    requires var s := Run(c, w, sent, acts); Orphaned(s) && !s.swept
    requires Delist !in more
    ensures var s := Run(c, w, sent, acts + more); Orphaned(s) && !s.swept
  {
    hide Step, Run;
    if more == [] {
      assert acts + more == acts;
    } else {
      var init, a := more[..|more| - 1], more[|more| - 1];
      assert forall x :: x in init ==> x in more;
      OrphanStays(c, w, sent, acts, init);
      assert acts + more == (acts + init) + [a];
      RunSnoc(c, w, sent, acts + init, a);
      OrphanStep(c, w, Run(c, w, sent, acts + init), a);
    }
  }

  lemma OrphanStep(c: Config, w: World, s: State, a: Action)
    requires Orphaned(s) && !s.swept && a != Delist
    ensures var t := Step(c, w, s, a); Orphaned(t) && !t.swept
  {
    hide Push, ApplyDiff, ReachAfter, AttachStep, BridgeStep;
  }

  // A quiet market in which a bid appears only at id 3.
  const QUIET := Sides(map[], map[])
  const WITH_BID := Sides(map[100 := 1], map[])
  const RACE_TRUTH: seq<Sides> := [QUIET, QUIET, QUIET, WITH_BID]
  const RACE_WORLD := World(RACE_TRUTH, [Diff(1, 1, 0, 0, [], []), Diff(2, 2, 1, 0, [], []),
                                         Diff(3, 3, 2, 0, [Level(100, 1)], [])])

  lemma RaceWorldIsValid()
    ensures Valid(RACE_WORLD)
  {
    forall n, s: Side | 0 <= n < |RACE_TRUTH| ensures Positive(RACE_TRUTH[n].Of(s)) {}
    var d := RACE_WORLD.hist[2];
    assert d.bids[0].price == 100;
    assert Lists(d.Of(Bid), 100);
    forall i | 0 <= i < 3 ensures Describes(RACE_TRUTH, RACE_WORLD.hist[i]) {
      var e := RACE_WORLD.hist[i];
      assert Truthful(e.Of(Bid), RACE_TRUTH[e.final].Of(Bid)) && Truthful(e.Of(Ask), RACE_TRUTH[e.final].Of(Ask));
    }
  }

  lemma HeldBidOutlivesStaleDiff(depth: nat)
    requires depth > 0
    ensures var b := ApplyDiff(RestSnapshot(RACE_TRUTH, 3, depth), RACE_WORLD.hist[1], depth);
            forall r :: !BookExact(RACE_TRUTH, b, r)
  {
    var only: Levels := map[100 := 1];
    assert only.Keys == {100} && |only| == |only.Keys| == 1;
    KeptWhole(Bid, only, depth);
    var b := ApplyDiff(RestSnapshot(RACE_TRUTH, 3, depth), RACE_WORLD.hist[1], depth);
    assert b.id == 2 && b.sides.bids == only;
    forall r ensures !BookExact(RACE_TRUTH, b, r) {
      assert 100 in b.sides.Of(Bid) && 100 !in RACE_TRUTH[2].Of(Bid);
      assert !Exact(Bid, b.sides.Of(Bid), RACE_TRUTH[b.id].Of(Bid), r.Of(Bid));
    }
  }

  lemma KeptWhole(s: Side, m: Levels, depth: nat)
    requires |m| <= depth
    ensures Trim(s, m, depth) == m
  {
  }

  /** From a finished attach: go Live, go quiet for over two hours, be listed by the live loop, then be swept away and
      fetched again. */
  lemma SweptWhileListed(c: Config, w: World, before: seq<Action>, n: nat) returns (acts: seq<Action>)
    requires n < |w.truth|
    requires var s := Run(c, w, 0, before);
             && s.task == Promoting && s.book.Some? && s.ring == [] && s.pending == [] && !s.listed
             && s.touched == s.clock
    ensures var s := Run(c, w, 0, acts);
            && s.phase == Syncing && s.task == Idle && s.book == Some(RestSnapshot(w.truth, n, c.depth))
            && s.ring == [] && s.pending == [] && s.listed
  {
    hide Run, Push, RestSnapshot, SnapshotReach, AttachStep, BridgeStep, Receive;
    acts := LiveAndQuiet(c, w, before);
    RunSnoc(c, w, 0, acts, ListLive);
    acts := acts + [ListLive];
    RunSnoc(c, w, 0, acts, ListStale);
    acts := acts + [ListStale];
    RunSnoc(c, w, 0, acts, RemoveStale);
    acts := acts + [RemoveStale];
    acts := Fetched(c, w, acts, n);
  }

  lemma LiveAndQuiet(c: Config, w: World, before: seq<Action>) returns (acts: seq<Action>)
    requires var s := Run(c, w, 0, before);
             && s.task == Promoting && s.book.Some? && s.ring == [] && s.pending == [] && !s.listed
             && s.touched == s.clock
    ensures var s := Run(c, w, 0, acts);
            && s.phase == Live && s.task == Idle && s.book.Some? && s.ring == [] && s.pending == [] && !s.listed
            && s.clock > s.touched + MAX_IDLE_SECS
  {
    hide Run;
    RunSnoc(c, w, 0, before, Promote);
    acts := before + [Promote];
    RunSnoc(c, w, 0, acts, Tick(MAX_IDLE_SECS + 1));
    acts := acts + [Tick(MAX_IDLE_SECS + 1)];
  }

  /** The live loop, still holding its list, applies whatever arrives next to the fresh snapshot. */
  lemma StaleApply(c: Config, w: World, before: seq<Action>, i: nat, b: Book) returns (acts: seq<Action>)
    requires i < |w.hist| && c.capacity > 0
    requires var s := Run(c, w, 0, before);
             s.phase == Syncing && s.task == Idle && s.book == Some(b) && s.ring == [] && s.pending == [] && s.listed
    ensures var s := Run(c, w, 0, acts);
            s.phase == Syncing && s.task == Idle && s.book == Some(ApplyDiff(b, w.hist[i], c.depth))
  {
    hide Run, Push, ApplyDiff, ReachAfter, AttachStep, BridgeStep;
    acts := before;
    RunSnoc(c, w, 0, acts, Arrive(i, 0));
    acts := acts + [Arrive(i, 0)];
    PushOne(c, w.hist[i], 0);
    RunSnoc(c, w, 0, acts, DrainLive);
    acts := acts + [DrainLive];
    RunSnoc(c, w, 0, acts, ApplyLive);
    acts := acts + [ApplyLive];
  }

  /** Without such a condition attach soundness fails. The live loop lists a symbol quiet for two hours, the sweep
      removes it, the manager fetches a fresh snapshot, and the live loop - still holding its list - drains the ring
      and applies an older diff to that snapshot: the symbol is syncing with a wrong book. */
  lemma StaleListingBreaksSoundness(c: Config) returns (acts: seq<Action>)
    requires c.depth > 0 && c.capacity > 0
    ensures var s := Run(c, RACE_WORLD, 0, acts);
            && Valid(RACE_WORLD) && s.phase == Syncing && s.task == Idle && s.book.Some?
            && forall r :: !BookExact(RACE_TRUTH, s.book.value, r)
  {
    RaceWorldIsValid();
    HeldBidOutlivesStaleDiff(c.depth);
    hide Run, RestSnapshot, Valid, ApplyDiff, BookExact;
    RunNothing(c, RACE_WORLD);
    acts := FirstAttach(c, RACE_WORLD, [], 0);
    acts := SweptWhileListed(c, RACE_WORLD, acts, 3);
    acts := StaleApply(c, RACE_WORLD, acts, 1, RestSnapshot(RACE_TRUTH, 3, c.depth));
  }
}
