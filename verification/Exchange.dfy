/** The exchange as the collector's ghost counterpart: the true book at every update id, the diffs that
    describe it, and what it means for a local book to be right at its own update id. */
module Exchange {
  import opened Ladder

  datatype Sides = Sides(bids: Levels, asks: Levels) {
    function Of(s: Side): Levels { if s == Bid then bids else asks }
  }

  /** A depth update: `first`/`final`/`prev` are the wire's U, u and pu. */
  datatype Diff = Diff(first: nat, final: nat, prev: nat, eventTime: int, bids: seq<Level>, asks: seq<Level>) {
    function Of(s: Side): seq<Level> { if s == Bid then bids else asks }
  }

  datatype Book = Book(id: nat, sides: Sides)

  /** How far each side of a book is complete. */
  datatype Reach = Reach(bids: Horizon, asks: Horizon) {
    function Of(s: Side): Horizon { if s == Bid then bids else asks }
  }

  const COMPLETE := Reach(Everything, Everything)

  // ---------------------------------------------------------------- truth and history

  ghost predicate AllPositive(truth: seq<Sides>) {
    forall n, s: Side :: 0 <= n < |truth| ==> Positive(truth[n].Of(s))
  }

  /** `d` covers the ids after `prev` up to `final`: it lists at least every price that changed there, each
      with its quantity at `final`. */
  ghost predicate Describes(truth: seq<Sides>, d: Diff) {
    && d.prev < d.first <= d.final < |truth|
    && (forall s: Side :: Truthful(d.Of(s), truth[d.final].Of(s)))
    && (forall s: Side, p, n :: d.prev <= n <= d.final && !Lists(d.Of(s), p)
          ==> Same(truth[n].Of(s), truth[d.final].Of(s), p))
  }

  lemma FinalInTruth(truth: seq<Sides>, d: Diff)
    requires Describes(truth, d)
    ensures d.prev < d.final < |truth|
  {
  }

  datatype World = World(truth: seq<Sides>, hist: seq<Diff>)

  /** Consecutive diffs chain: `prev` of each is `final` of the one before. */
  ghost predicate Valid(w: World) {
    && AllPositive(w.truth)
    && (forall i :: 0 <= i < |w.hist| ==> Describes(w.truth, w.hist[i]))
    && (forall i :: 0 < i < |w.hist| ==> Follows(w.hist, i))
  }

  /** The diffs at the given positions of the history. */
  ghost function DiffsAt(w: World, idx: seq<nat>): (ds: seq<Diff>)
    requires forall k :: 0 <= k < |idx| ==> idx[k] < |w.hist|
    ensures |ds| == |idx| && forall k :: 0 <= k < |idx| ==> ds[k] == w.hist[idx[k]]
  {
    seq(|idx|, k requires 0 <= k < |idx| => w.hist[idx[k]])
  }

  /** Diff `i` chains onto the one before it. */
  ghost predicate Follows(ds: seq<Diff>, i: nat)
    requires 0 < i < |ds|
  {
    ds[i].prev == ds[i - 1].final
  }

  lemma {:induction false} HistoryIncreases(w: World, i: nat, j: nat)
    requires Valid(w) && i < j < |w.hist|
    ensures w.hist[i].final <= w.hist[j].prev < w.hist[j].final
  {
    assert Describes(w.truth, w.hist[j]) && Follows(w.hist, j);
    if i < j - 1 {
      HistoryIncreases(w, i, j - 1);
    }
  }

  // ---------------------------------------------------------------- local books

  ghost predicate BookExact(truth: seq<Sides>, b: Book, r: Reach) {
    && b.id < |truth|
    && (forall s: Side :: Exact(s, b.sides.Of(s), truth[b.id].Of(s), r.Of(s)))
  }

  /** One diff applied with absolute quantities, then trimmed. */
  ghost function ApplyDiff(b: Book, d: Diff, depth: nat): Book {
    Book(d.final, Sides(Trim(Bid, ApplyLevels(b.sides.bids, d.bids), depth),
                        Trim(Ask, ApplyLevels(b.sides.asks, d.asks), depth)))
  }

  ghost function ReachAfter(b: Book, d: Diff, depth: nat, r: Reach): Reach {
    Reach(TrimHorizon(Bid, ApplyLevels(b.sides.bids, d.bids), depth, r.bids),
          TrimHorizon(Ask, ApplyLevels(b.sides.asks, d.asks), depth, r.asks))
  }

  ghost function Fold(b: Book, ds: seq<Diff>, depth: nat): Book {
    if ds == [] then b else ApplyDiff(Fold(b, ds[..|ds| - 1], depth), ds[|ds| - 1], depth)
  }

  ghost function FoldReach(b: Book, ds: seq<Diff>, depth: nat, r: Reach): Reach {
    if ds == [] then r
    else ReachAfter(Fold(b, ds[..|ds| - 1], depth), ds[|ds| - 1], depth, FoldReach(b, ds[..|ds| - 1], depth, r))
  }

  /** The REST snapshot at id `n`: the best `depth` levels of the true book. */
  ghost function RestSnapshot(truth: seq<Sides>, n: nat, depth: nat): Book
    requires n < |truth|
  {
    Book(n, Sides(Trim(Bid, truth[n].bids, depth), Trim(Ask, truth[n].asks, depth)))
  }

  ghost function SnapshotReach(truth: seq<Sides>, n: nat, depth: nat): Reach
    requires n < |truth|
  {
    Reach(TrimHorizon(Bid, truth[n].bids, depth, Everything), TrimHorizon(Ask, truth[n].asks, depth, Everything))
  }

  lemma SnapshotExact(truth: seq<Sides>, n: nat, depth: nat)
    requires n < |truth|
    ensures BookExact(truth, RestSnapshot(truth, n, depth), SnapshotReach(truth, n, depth))
  {
    forall s: Side
      ensures Exact(s, RestSnapshot(truth, n, depth).sides.Of(s), truth[n].Of(s), SnapshotReach(truth, n, depth).Of(s))
    {
      TrimExact(s, truth[n].Of(s), truth[n].Of(s), Everything, depth);
    }
  }

  // ---------------------------------------------------------------- applying one diff

  /** Untrimmed application keeps a side exact when the diff's span covers the book's id. */
  lemma ApplyLevelsExact(truth: seq<Sides>, n: nat, d: Diff, s: Side, m: Levels, h: Horizon)
    requires AllPositive(truth) && Describes(truth, d) && d.prev <= n <= d.final
    requires Exact(s, m, truth[n].Of(s), h)
    ensures Exact(s, ApplyLevels(m, d.Of(s)), truth[d.final].Of(s), h)
  {
    var t0, t1, m' := truth[n].Of(s), truth[d.final].Of(s), ApplyLevels(m, d.Of(s));
    forall p
      ensures p in m' ==> p in t1 && m'[p] == t1[p]
      ensures p in t1 && Covers(s, h, p) ==> p in m'
    {
      ApplyLevelsAt(m, d.Of(s), t1, p);
      if !Lists(d.Of(s), p) { assert Same(t0, t1, p); }
    }
  }

  lemma ApplyDiffExact(truth: seq<Sides>, b: Book, d: Diff, depth: nat, r: Reach)
    requires AllPositive(truth) && BookExact(truth, b, r) && Describes(truth, d) && d.prev <= b.id <= d.final
    ensures BookExact(truth, ApplyDiff(b, d, depth), ReachAfter(b, d, depth, r))
  {
    forall s: Side
      ensures Exact(s, ApplyDiff(b, d, depth).sides.Of(s), truth[d.final].Of(s), ReachAfter(b, d, depth, r).Of(s))
    {
      ApplyLevelsExact(truth, b.id, d, s, b.sides.Of(s), r.Of(s));
      TrimExact(s, ApplyLevels(b.sides.Of(s), d.Of(s)), truth[d.final].Of(s), r.Of(s), depth);
    }
  }

  /** Applying `d` to the book at id `n` is right for this exchange. */
  ghost predicate AppliesRight(truth: seq<Sides>, n: nat, d: Diff)
    requires n < |truth| && d.final < |truth|
  {
    forall s: Side :: Exact(s, ApplyLevels(truth[n].Of(s), d.Of(s)), truth[d.final].Of(s), Everything)
  }

  /** An exchange that `d` describes and whose bid at `x` exists only on the far side of `d`'s span from it. */
  ghost function Misleading(base: Sides, x: int, n: nat, d: Diff): (truth: seq<Sides>)
    requires !(d.prev <= n <= d.final)
    ensures n < |truth| && d.final < |truth|
  {
    var present := Sides(base.bids[x := 1], base.asks);
    seq(d.final + n + 1, k => if (n < d.prev && k <= n) || (d.final < n && n <= k) then present else base)
  }

  lemma MisleadingIsDescribed(base: Sides, x: int, n: nat, d: Diff)
    requires Positive(base.bids) && Positive(base.asks) && d.prev < d.first <= d.final
    requires Truthful(d.bids, base.bids) && Truthful(d.asks, base.asks) && !(d.prev <= n <= d.final)
    ensures AllPositive(Misleading(base, x, n, d)) && Describes(Misleading(base, x, n, d), d)
  {
    var truth := Misleading(base, x, n, d);
    forall k, s: Side | 0 <= k < |truth| ensures Positive(truth[k].Of(s)) {
      assert Positive(base.Of(s));
      assert truth[k] == base || truth[k] == Sides(base.bids[x := 1], base.asks);
    }
    assert forall k :: d.prev <= k <= d.final ==> truth[k] == base;
    forall s: Side ensures Truthful(d.Of(s), truth[d.final].Of(s)) {
      assert truth[d.final] == base;
    }
  }

  lemma MisleadingIsWrong(base: Sides, x: int, n: nat, d: Diff)
    requires Positive(base.bids) && Truthful(d.bids, base.bids) && !(d.prev <= n <= d.final) && d.prev <= d.final
    requires x !in base.bids && !Lists(d.bids, x)
    ensures !AppliesRight(Misleading(base, x, n, d), n, d)
  {
    var truth := Misleading(base, x, n, d);
    assert truth[n].Of(Bid) == base.bids[x := 1] && truth[d.final].Of(Bid) == base.bids;
    ApplyLevelsAt(truth[n].Of(Bid), d.bids, base.bids, x);
    assert !Exact(Bid, ApplyLevels(truth[n].Of(Bid), d.Of(Bid)), truth[d.final].Of(Bid), Everything);
  }

  /** The id test `prev <= n <= final` is exactly what makes an application right: it suffices for every
      exchange the diff describes, and without it some such exchange ends with a wrong book. */
  lemma SpanTestIsExact(truth0: seq<Sides>, n: nat, d: Diff)
    requires AllPositive(truth0) && Describes(truth0, d)
    ensures d.prev <= n <= d.final <==>
            (forall truth: seq<Sides> :: AllPositive(truth) && Describes(truth, d) && n < |truth| ==>
               AppliesRight(truth, n, d))
  {
    if d.prev <= n <= d.final {
      forall truth: seq<Sides> | AllPositive(truth) && Describes(truth, d) && n < |truth|
        ensures AppliesRight(truth, n, d) {
        forall s: Side ensures Exact(s, ApplyLevels(truth[n].Of(s), d.Of(s)), truth[d.final].Of(s), Everything) {
          ApplyLevelsExact(truth, n, d, s, truth[n].Of(s), Everything);
        }
      }
    } else {
      var base := truth0[d.final];
      assert Positive(base.Of(Bid)) && Positive(base.Of(Ask));
      assert Truthful(d.Of(Bid), base.Of(Bid)) && Truthful(d.Of(Ask), base.Of(Ask));
      var x := FreshPrice(base.bids, d.bids);
      MisleadingIsDescribed(base, x, n, d);
      MisleadingIsWrong(base, x, n, d);
    }
  }

  ghost function InsertAll(m: Levels, ls: seq<Level>): (r: Levels)
    ensures forall p :: p in r <==> p in m || Lists(ls, p)
  {
    if ls == [] then m
    else
      var r := InsertAll(m, ls[1..])[ls[0].price := 1];
      assert forall p :: Lists(ls[1..], p) ==> Lists(ls, p) by {
        forall p | Lists(ls[1..], p) ensures Lists(ls, p) {
          var i :| 0 <= i < |ls[1..]| && ls[1..][i].price == p;
          assert ls[i + 1].price == p;
        }
      }
      assert forall p :: Lists(ls, p) && p != ls[0].price ==> Lists(ls[1..], p) by {
        forall p | Lists(ls, p) && p != ls[0].price ensures Lists(ls[1..], p) {
          var i :| 0 <= i < |ls| && ls[i].price == p;
          assert ls[1..][i - 1].price == p;
        }
      }
      r
  }

  ghost function FreshPrice(m: Levels, ls: seq<Level>): (x: int)
    ensures x !in m && !Lists(ls, x)
  {
    BetterThanAll(Ask, InsertAll(m, ls))
  }

  // ---------------------------------------------------------------- gap-free runs

  /** `ds` continues id `n` without a gap. */
  ghost predicate Chained(n: nat, ds: seq<Diff>) {
    && (ds != [] ==> ds[0].prev <= n < ds[0].final)
    && (forall i :: 0 < i < |ds| ==> Follows(ds, i))
  }

  ghost predicate AllDescribe(truth: seq<Sides>, ds: seq<Diff>) {
    forall i :: 0 <= i < |ds| ==> Describes(truth, ds[i])
  }

  lemma ChainedInit(n: nat, ds: seq<Diff>)
    requires Chained(n, ds) && ds != []
    ensures Chained(n, ds[..|ds| - 1])
    ensures |ds| > 1 ==> ds[|ds| - 1].prev == ds[|ds| - 2].final
  {
    var init := ds[..|ds| - 1];
    forall i | 0 < i < |init| ensures Follows(init, i) { assert Follows(ds, i); }
    if |ds| > 1 { assert Follows(ds, |ds| - 1); }
  }

  lemma {:induction false} FoldExact(truth: seq<Sides>, b: Book, ds: seq<Diff>, depth: nat, r: Reach)
    requires AllPositive(truth) && BookExact(truth, b, r) && AllDescribe(truth, ds) && Chained(b.id, ds)
    ensures BookExact(truth, Fold(b, ds, depth), FoldReach(b, ds, depth, r))
    ensures Fold(b, ds, depth).id == if ds == [] then b.id else ds[|ds| - 1].final
  {
    if ds != [] {
      var init, d := ds[..|ds| - 1], ds[|ds| - 1];
      ChainedInit(b.id, ds);
      FoldExact(truth, b, init, depth, r);
      assert Describes(truth, d);
      ApplyDiffExact(truth, Fold(b, init, depth), d, depth, FoldReach(b, init, depth, r));
    }
  }

  lemma FoldSplit(b: Book, xs: seq<Diff>, ys: seq<Diff>, depth: nat)
    ensures Fold(b, xs + ys, depth) == Fold(Fold(b, xs, depth), ys, depth)
  {
    hide ApplyDiff;
    if ys == [] {
      assert xs + ys == xs;
    } else {
      FoldSplit(b, xs, ys[..|ys| - 1], depth);
      assert (xs + ys)[..|xs + ys| - 1] == xs + ys[..|ys| - 1];
    }
  }

  lemma FoldId(b: Book, ds: seq<Diff>, depth: nat)
    requires ds != []
    ensures Fold(b, ds, depth).id == ds[|ds| - 1].final
  {
    hide Trim, ApplyLevels;
  }

  // ---------------------------------------------------------------- the trim refines the full book

  /** The same run with no trimming at all. */
  ghost function Untrimmed(b: Book, ds: seq<Diff>): Book {
    if ds == [] then b
    else
      var prev, d := Untrimmed(b, ds[..|ds| - 1]), ds[|ds| - 1];
      Book(d.final, Sides(ApplyLevels(prev.sides.bids, d.bids), ApplyLevels(prev.sides.asks, d.asks)))
  }

  lemma {:induction false} UntrimmedExact(truth: seq<Sides>, b: Book, ds: seq<Diff>, r: Reach)
    requires AllPositive(truth) && BookExact(truth, b, r) && AllDescribe(truth, ds) && Chained(b.id, ds)
    ensures BookExact(truth, Untrimmed(b, ds), r)
    ensures Untrimmed(b, ds).id == if ds == [] then b.id else ds[|ds| - 1].final
  {
    if ds != [] {
      var init, d := ds[..|ds| - 1], ds[|ds| - 1];
      ChainedInit(b.id, ds);
      UntrimmedExact(truth, b, init, r);
      assert Describes(truth, d);
      forall s: Side ensures Exact(s, Untrimmed(b, ds).sides.Of(s), truth[d.final].Of(s), r.Of(s)) {
        ApplyLevelsExact(truth, Untrimmed(b, init).id, d, s, Untrimmed(b, init).sides.Of(s), r.Of(s));
      }
    }
  }

  lemma FoldBounded(truth: seq<Sides>, n: nat, ds: seq<Diff>, depth: nat, s: Side)
    requires n < |truth|
    ensures |Fold(RestSnapshot(truth, n, depth), ds, depth).sides.Of(s)| <= depth
  {
    var snap := RestSnapshot(truth, n, depth);
    if ds == [] {
      TrimIsTop(s, truth[n].Of(s), depth);
    } else {
      var before, d := Fold(snap, ds[..|ds| - 1], depth), ds[|ds| - 1];
      TrimIsTop(s, ApplyLevels(before.sides.Of(s), d.Of(s)), depth);
    }
  }

  /** From a top-`depth` snapshot through any gap-free run: every side stays within `depth` levels; the
      horizon moves only towards the touch; at or better than it the trimmed book is both the true book
      and the book an untrimmed replay holds; and the touch is right whenever it is certified. */
  lemma TrimRefinement(truth: seq<Sides>, n: nat, ds: seq<Diff>, depth: nat, s: Side)
    requires AllPositive(truth) && n < |truth| && AllDescribe(truth, ds) && Chained(n, ds)
    ensures var snap, r0 := RestSnapshot(truth, n, depth), SnapshotReach(truth, n, depth);
            var book, r, full := Fold(snap, ds, depth), FoldReach(snap, ds, depth, r0), Untrimmed(snap, ds);
            && |book.sides.Of(s)| <= depth
            && Within(s, r.Of(s), r0.Of(s))
            && (ds != [] ==> Within(s, r.Of(s), FoldReach(snap, ds[..|ds| - 1], depth, r0).Of(s)))
            && book.id < |truth| && full.id == book.id
            && (forall p :: Covers(s, r.Of(s), p) || p in book.sides.Of(s)
                  ==> Same(book.sides.Of(s), truth[book.id].Of(s), p))
            && (forall p :: Covers(s, r.Of(s), p) ==> Same(book.sides.Of(s), full.sides.Of(s), p))
            && (TouchCertified(s, book.sides.Of(s), r.Of(s)) ==>
                  SameTouch(s, book.sides.Of(s), truth[book.id].Of(s)))
  {
    hide Fold, FoldReach, Untrimmed, Trim, TrimHorizon, Chained, AllDescribe, AllPositive, Covers, Within;
    hide SameTouch, TouchCertified;
    var snap, r0 := RestSnapshot(truth, n, depth), SnapshotReach(truth, n, depth);
    var book, r, full := Fold(snap, ds, depth), FoldReach(snap, ds, depth, r0), Untrimmed(snap, ds);
    SnapshotExact(truth, n, depth);
    FoldExact(truth, snap, ds, depth, r0);
    UntrimmedExact(truth, snap, ds, r0);
    FoldBounded(truth, n, ds, depth, s);
    ReachNarrows(snap, ds, depth, r0, s);
    assert Exact(s, book.sides.Of(s), truth[book.id].Of(s), r.Of(s));
    assert Exact(s, full.sides.Of(s), truth[book.id].Of(s), r0.Of(s));
    forall p | Covers(s, r.Of(s), p) ensures Covers(s, r0.Of(s), p) {
      WithinCovers(s, r.Of(s), r0.Of(s), p);
    }
    if TouchCertified(s, book.sides.Of(s), r.Of(s)) {
      TouchCertifiedIsTrue(s, book.sides.Of(s), truth[book.id].Of(s), r.Of(s));
    }
  }

  lemma {:induction false} ReachNarrows(b: Book, ds: seq<Diff>, depth: nat, r: Reach, s: Side)
    ensures Within(s, FoldReach(b, ds, depth, r).Of(s), r.Of(s))
    ensures ds != [] ==> Within(s, FoldReach(b, ds, depth, r).Of(s), FoldReach(b, ds[..|ds| - 1], depth, r).Of(s))
  {
    if ds != [] {
      var init, d := ds[..|ds| - 1], ds[|ds| - 1];
      ReachNarrows(b, init, depth, r, s);
      TrimNarrows(s, ApplyLevels(Fold(b, init, depth).sides.Of(s), d.Of(s)), depth, FoldReach(b, init, depth, r).Of(s));
    }
  }

  // A market with one bid more than is captured, and a diff that deletes every captured one.

  /** Bids at prices `lo` up to but not including `hi`, one lot each. */
  ghost function BidRange(lo: int, hi: int): (m: Levels)
    ensures forall p :: p in m <==> lo <= p < hi
    ensures forall p :: p in m ==> m[p] == 1
    ensures lo <= hi ==> |m| == hi - lo
    decreases hi - lo
  {
    if lo >= hi then map[] else BidRange(lo, hi - 1)[hi - 1 := 1]
  }

  ghost function CutTruth(depth: nat): seq<Sides> {
    [Sides(BidRange(0, depth + 1), map[]), Sides(BidRange(0, 1), map[])]
  }

  ghost function Deletions(depth: nat): (ls: seq<Level>)
    ensures |ls| == depth && forall i :: 0 <= i < depth ==> ls[i] == Level(i + 1, 0)
  {
    seq(depth, i => Level(i + 1, 0))
  }

  ghost function CutDiff(depth: nat): Diff {
    Diff(1, 1, 0, 0, Deletions(depth), [])
  }

  lemma BestRangeKept(depth: nat)
    ensures Trim(Bid, BidRange(0, depth + 1), depth) == BidRange(1, depth + 1)
  {
    var full, kept := BidRange(0, depth + 1), BidRange(1, depth + 1);
    TrimIsTop(Bid, full, depth);
    TopUnique(Bid, full, Trim(Bid, full, depth), kept, depth);
  }

  lemma DeletionsList(depth: nat, p: int)
    ensures Lists(Deletions(depth), p) <==> 1 <= p <= depth
  {
    if 1 <= p <= depth { assert Deletions(depth)[p - 1].price == p; }
  }

  lemma CutDiffDescribes(depth: nat)
    ensures AllPositive(CutTruth(depth)) && Describes(CutTruth(depth), CutDiff(depth))
  {
    var truth, d := CutTruth(depth), CutDiff(depth);
    forall n, s: Side | 0 <= n < |truth| ensures Positive(truth[n].Of(s)) {
      assert s == Bid || truth[n].Of(s) == map[];
    }
    forall s: Side, p, n | d.prev <= n <= d.final && !Lists(d.Of(s), p)
      ensures Same(truth[n].Of(s), truth[d.final].Of(s), p) {
      DeletionsList(depth, p);
    }
  }

  /** At any depth a gap-free trimmed book can still quote a wrong touch: delete every bid held, and it holds none
      although the exchange still has the next one. */
  lemma TrimmedTouchCanBeWrong(depth: nat)
    requires depth > 0
    ensures var truth, d := CutTruth(depth), CutDiff(depth);
            && AllPositive(truth) && Describes(truth, d) && Chained(0, [d])
            && !SameTouch(Bid, Fold(RestSnapshot(truth, 0, depth), [d], depth).sides.bids, truth[1].bids)
  {
    BestRangeKept(depth);
    CutDiffDescribes(depth);
    var truth, d := CutTruth(depth), CutDiff(depth);
    var snap := RestSnapshot(truth, 0, depth);
    FoldOne(snap, d, depth);
    NothingHeld(depth);
    assert 0 in truth[1].bids;
  }

  lemma NothingHeld(depth: nat)
    ensures Trim(Bid, ApplyLevels(BidRange(1, depth + 1), Deletions(depth)), depth) == map[]
  {
    var m := ApplyLevels(BidRange(1, depth + 1), Deletions(depth));
    forall p ensures p !in m {
      ApplyLevelsAt(BidRange(1, depth + 1), Deletions(depth), map[], p);
      DeletionsList(depth, p);
    }
    assert m.Keys == {};
  }

  lemma FoldOne(b: Book, d: Diff, depth: nat)
    ensures Fold(b, [d], depth) == ApplyDiff(b, d, depth)
  {
    assert [d][..0] == [];
  }
}
