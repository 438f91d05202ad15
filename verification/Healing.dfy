/** What a live book is worth after lost diffs: nothing checks the chain any more, but every diff carries
    absolute quantities. */
module Healing {
  import opened Ladder
  import opened Exchange

  /** The book claims something about `p` (it holds it, or its horizon covers it) and the claim is false. */
  ghost predicate WrongAt(s: Side, m: Levels, t: Levels, h: Horizon, p: int) {
    (p in m || Covers(s, h, p)) && !Same(m, t, p)
  }

  /** A received diff never creates a wrong price, and it rights every price it lists. */
  lemma ReceivedDiffHeals(truth: seq<Sides>, n: nat, d: Diff, s: Side, m: Levels, h: Horizon, depth: nat, p: int)
    requires AllPositive(truth) && Describes(truth, d) && d.prev <= n <= d.final
    requires WrongAt(s, Trim(s, ApplyLevels(m, d.Of(s)), depth), truth[d.final].Of(s),
                     TrimHorizon(s, ApplyLevels(m, d.Of(s)), depth, h), p)
    ensures WrongAt(s, m, truth[n].Of(s), h, p) && !Lists(d.Of(s), p)
  {
    var applied := ApplyLevels(m, d.Of(s));
    TrimIsTop(s, applied, depth);
    ApplyLevelsAt(m, d.Of(s), truth[d.final].Of(s), p);
    if p in applied && p !in Trim(s, applied, depth) { DroppedIsBeyond(s, applied, depth, h, p); }
    TrimNarrows(s, applied, depth, h);
    if Covers(s, TrimHorizon(s, applied, depth, h), p) {
      WithinCovers(s, TrimHorizon(s, applied, depth, h), h, p);
    }
    assert Same(Trim(s, applied, depth), applied, p);
    if !Lists(d.Of(s), p) { assert Same(truth[n].Of(s), truth[d.final].Of(s), p); }
  }

  /** The same for a whole book measured against the true book at id `n`. */
  ghost predicate BookWrongAt(truth: seq<Sides>, n: nat, b: Book, r: Reach, s: Side, p: int)
    requires n < |truth|
  {
    WrongAt(s, b.sides.Of(s), truth[n].Of(s), r.Of(s), p)
  }

  lemma WrongNeverGrows(truth: seq<Sides>, n: nat, b: Book, d: Diff, r: Reach, depth: nat, s: Side, p: int)
    requires AllPositive(truth) && Describes(truth, d) && d.prev <= n <= d.final
    requires BookWrongAt(truth, d.final, ApplyDiff(b, d, depth), ReachAfter(b, d, depth, r), s, p)
    ensures BookWrongAt(truth, n, b, r, s, p) && !Lists(d.Of(s), p)
  {
    ReceivedDiffHeals(truth, n, d, s, b.sides.Of(s), r.Of(s), depth, p);
  }

  lemma StillWrong(truth: seq<Sides>, n: nat, m: nat, b: Book, r: Reach, s: Side, p: int)
    requires n < |truth| && m < |truth| && Same(truth[m].Of(s), truth[n].Of(s), p) && BookWrongAt(truth, n, b, r, s, p)
    ensures BookWrongAt(truth, m, b, r, s, p)
  {
  }

  lemma ExactIsNotWrong(truth: seq<Sides>, b: Book, r: Reach, s: Side, p: int)
    requires BookExact(truth, b, r)
    ensures !BookWrongAt(truth, b.id, b, r, s, p)
  {
    assert Exact(s, b.sides.Of(s), truth[b.id].Of(s), r.Of(s));
  }

  lemma NothingWrongIsExact(s: Side, m: Levels, t: Levels, h: Horizon)
    requires forall p :: !WrongAt(s, m, t, h, p)
    ensures Exact(s, m, t, h)
  {
    forall p
      ensures p in m ==> p in t && m[p] == t[p]
      ensures p in t && Covers(s, h, p) ==> p in m
    {
      assert !WrongAt(s, m, t, h, p);
    }
  }

  lemma ExactIffNothingWrong(truth: seq<Sides>, b: Book, r: Reach)
    requires b.id < |truth|
    ensures BookExact(truth, b, r) <==> forall s: Side, p :: !BookWrongAt(truth, b.id, b, r, s, p)
  {
    if BookExact(truth, b, r) {
      forall s: Side, p ensures !BookWrongAt(truth, b.id, b, r, s, p) { ExactIsNotWrong(truth, b, r, s, p); }
    }
    if forall s: Side, p :: !BookWrongAt(truth, b.id, b, r, s, p) {
      forall s: Side ensures Exact(s, b.sides.Of(s), truth[b.id].Of(s), r.Of(s)) {
        forall p ensures !WrongAt(s, b.sides.Of(s), truth[b.id].Of(s), r.Of(s), p) {
          assert !BookWrongAt(truth, b.id, b, r, s, p);
        }
        NothingWrongIsExact(s, b.sides.Of(s), truth[b.id].Of(s), r.Of(s));
      }
    }
  }

  /** Strictly increasing positions in the history, none before `from`: the diffs received, in order. */
  ghost predicate InOrder(w: World, from: nat, idx: seq<nat>) {
    && (forall k :: 0 <= k < |idx| ==> from <= idx[k] < |w.hist|)
    && (forall k, l :: 0 <= k < l < |idx| ==> idx[k] < idx[l])
  }

  /** Sent after the start, before the last received diff, and never received. */
  ghost predicate Lost(from: nat, idx: seq<nat>, i: nat) {
    idx != [] && from <= i < idx[|idx| - 1] && i !in idx
  }

  /** A lost diff touched `p` and nothing received later listed it. */
  ghost predicate Unrepaired(w: World, from: nat, idx: seq<nat>, s: Side, p: int) {
    exists i: nat :: Lost(from, idx, i) && i < |w.hist| && Lists(w.hist[i].Of(s), p)
             && forall k :: 0 <= k < |idx| && i < idx[k] < |w.hist| ==> !Lists(w.hist[idx[k]].Of(s), p)
  }

  /** A price no diff between `a` and `j` lists keeps its true quantity over that stretch. */
  lemma {:induction false} UntouchedStretch(w: World, a: nat, j: nat, s: Side, p: int)
    requires Valid(w) && a < j <= |w.hist|
    requires forall i :: a < i < j ==> !Lists(w.hist[i].Of(s), p)
    ensures w.hist[a].final < |w.truth| && w.hist[j - 1].final < |w.truth|
    ensures Same(w.truth[w.hist[a].final].Of(s), w.truth[w.hist[j - 1].final].Of(s), p)
  {
    assert Describes(w.truth, w.hist[j - 1]);
    if a < j - 1 {
      UntouchedStretch(w, a, j - 1, s, p);
      var d := w.hist[j - 1];
      assert Follows(w.hist, j - 1);
      assert Same(w.truth[d.prev].Of(s), w.truth[d.final].Of(s), p);
    }
  }

  /** Where the live book is wrong at its own id, some lost diff touched that price and no later received
      diff listed it. The book starts exact, as an attach leaves it, just before position `from`. */
  lemma {:induction false} SelfHealing(w: World, from: nat, start: Book, r: Reach, idx: seq<nat>, depth: nat,
                                       s: Side, p: int)
    requires Valid(w) && 0 < from <= |w.hist| && start.id == w.hist[from - 1].final
    requires BookExact(w.truth, start, r) && InOrder(w, from, idx)
    ensures var ds := DiffsAt(w, idx); var book := Fold(start, ds, depth);
            && book.id == (if idx == [] then start.id else w.hist[idx[|idx| - 1]].final)
            && book.id < |w.truth|
            && (BookWrongAt(w.truth, book.id, book, FoldReach(start, ds, depth, r), s, p) ==>
                  Unrepaired(w, from, idx, s, p))
    decreases |idx|
  {
    hide BookWrongAt, ApplyLevels, Trim, TrimHorizon, Unrepaired, Exact;
    var ds := DiffsAt(w, idx);
    if idx == [] {
      ExactIsNotWrong(w.truth, start, r, s, p);
    } else {
      var init, j := idx[..|idx| - 1], idx[|idx| - 1];
      var before := DiffsAt(w, init);
      assert ds[..|ds| - 1] == before;
      SelfHealing(w, from, start, r, init, depth, s, p);
      var last := if init == [] then from - 1 else init[|init| - 1];
      assert Describes(w.truth, w.hist[j]) && Describes(w.truth, w.hist[last]);
      var book, reach := Fold(start, before, depth), FoldReach(start, before, depth, r);
      var after, reachAfter := ApplyDiff(book, w.hist[j], depth), ReachAfter(book, w.hist[j], depth, reach);
      if BookWrongAt(w.truth, w.hist[j].final, after, reachAfter, s, p) {
        WrongNeverGrows(w.truth, w.hist[j].prev, book, w.hist[j], reach, depth, s, p);
        if Same(w.truth[book.id].Of(s), w.truth[w.hist[j].prev].Of(s), p) {
          StillWrong(w.truth, w.hist[j].prev, book.id, book, reach, s, p);
        }
        StepUnrepaired(w, from, idx, last, s, p, BookWrongAt(w.truth, book.id, book, reach, s, p));
      }
    }
  }

  lemma NewLoss(w: World, from: nat, idx: seq<nat>, last: nat, i: nat, s: Side, p: int)
    requires idx != [] && InOrder(w, from, idx) && from <= i
    requires last + 1 == from || (|idx| > 1 && last == idx[|idx| - 2])
    requires |idx| > 1 ==> last == idx[|idx| - 2]
    requires last < i < idx[|idx| - 1] && Lists(w.hist[i].Of(s), p) && !Lists(w.hist[idx[|idx| - 1]].Of(s), p)
    ensures Unrepaired(w, from, idx, s, p)
  {
    forall k | 0 <= k < |idx| - 1 ensures idx[k] < i {
      if k < |idx| - 2 { assert idx[k] < idx[|idx| - 2]; }
    }
    assert Lost(from, idx, i);
  }

  lemma OldLossStays(w: World, from: nat, idx: seq<nat>, s: Side, p: int)
    requires idx != [] && InOrder(w, from, idx)
    requires Unrepaired(w, from, idx[..|idx| - 1], s, p) && !Lists(w.hist[idx[|idx| - 1]].Of(s), p)
    ensures Unrepaired(w, from, idx, s, p)
  {
    var init, j := idx[..|idx| - 1], idx[|idx| - 1];
    var i: nat :| Lost(from, init, i) && i < |w.hist| && Lists(w.hist[i].Of(s), p)
                  && forall k :: 0 <= k < |init| && i < init[k] < |w.hist| ==> !Lists(w.hist[init[k]].Of(s), p);
    assert init[|init| - 1] == idx[|idx| - 2] < j;
    assert idx == init + [j];
    assert Lost(from, idx, i);
    forall k | 0 <= k < |idx| && i < idx[k] < |w.hist| ensures !Lists(w.hist[idx[k]].Of(s), p) {
      if k < |init| { assert idx[k] == init[k]; }
    }
  }

  /** The bookkeeping of one received diff: either a diff lost just before it touched `p`, or the truth at
      `p` did not move and an earlier loss is still to blame. */
  lemma StepUnrepaired(w: World, from: nat, idx: seq<nat>, last: nat, s: Side, p: int, wrongBefore: bool)
    requires Valid(w) && 0 < from && idx != [] && InOrder(w, from, idx)
    requires last == if |idx| == 1 then from - 1 else idx[|idx| - 2]
    requires !Lists(w.hist[idx[|idx| - 1]].Of(s), p)
    requires last < idx[|idx| - 1] && w.hist[last].final < |w.truth| && w.hist[idx[|idx| - 1]].prev < |w.truth|
    requires wrongBefore ==> Unrepaired(w, from, idx[..|idx| - 1], s, p)
    requires Same(w.truth[w.hist[last].final].Of(s), w.truth[w.hist[idx[|idx| - 1]].prev].Of(s), p) ==> wrongBefore
    ensures Unrepaired(w, from, idx, s, p)
  {
    var j := idx[|idx| - 1];
    if i: nat :| last < i < j && Lists(w.hist[i].Of(s), p) {
      NewLoss(w, from, idx, last, i, s, p);
    } else {
      UntouchedStretch(w, last, j, s, p);
      assert Follows(w.hist, j);
      OldLossStays(w, from, idx, s, p);
    }
  }

  /** Once every price touched by a lost diff has been listed again, the live book is exact again. */
  lemma HealsCompletely(w: World, from: nat, start: Book, r: Reach, idx: seq<nat>, depth: nat)
    requires Valid(w) && 0 < from <= |w.hist| && start.id == w.hist[from - 1].final
    requires BookExact(w.truth, start, r) && InOrder(w, from, idx)
    requires forall s: Side, p :: !Unrepaired(w, from, idx, s, p)
    ensures var ds := DiffsAt(w, idx);
            BookExact(w.truth, Fold(start, ds, depth), FoldReach(start, ds, depth, r))
  {
    hide Valid, BookExact, Fold, FoldReach, Unrepaired, BookWrongAt;
    var ds := DiffsAt(w, idx);
    var book, reach := Fold(start, ds, depth), FoldReach(start, ds, depth, r);
    forall s: Side, p ensures book.id < |w.truth| && !BookWrongAt(w.truth, book.id, book, reach, s, p) {
      SelfHealing(w, from, start, r, idx, depth, s, p);
    }
    SelfHealing(w, from, start, r, idx, depth, Bid, 0);
    ExactIffNothingWrong(w.truth, book, reach);
  }
}
