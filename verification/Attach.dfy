/** Bridging a drained batch onto a snapshot and following it from there. */
module Attach {
  import opened Basics
  import opened Exchange
  import opened Normalize

  // ---------------------------------------------------------------- the bridge

  datatype BridgeRule = PerfectContinuity | PuAttach

  /** The two bridge rules, after skipping diffs the snapshot covers. */
  predicate Bridges(n: nat, d: Diff) {
    d.final > n && (d.first <= n + 1 || (d.prev <= n && n < d.first))
  }

  /** Together the two rules are one test: the snapshot id lies in the diff's span but not at its end. */
  lemma BridgeRulesAreTheSpanTest(truth: seq<Sides>, n: nat, d: Diff)
    requires Describes(truth, d)
    ensures Bridges(n, d) <==> d.prev <= n < d.final
  {
  }

  /** Position of the first bridging diff, or the length when there is none. */
  function BridgeIndex(n: nat, ms: seq<Diff>): (i: nat)
    ensures i <= |ms| && (i < |ms| ==> Bridges(n, ms[i]))
    ensures forall j :: 0 <= j < i ==> !Bridges(n, ms[j])
  {
    if ms == [] then 0 else if Bridges(n, ms[0]) then 0 else 1 + BridgeIndex(n, ms[1..])
  }

  method FindBridge(n: nat, ms: seq<Diff>) returns (r: Option<(nat, BridgeRule)>)
    ensures r.None? <==> BridgeIndex(n, ms) == |ms|
    ensures r.Some? ==> r.value.0 == BridgeIndex(n, ms)
    ensures r.Some? ==> (r.value.1 == PerfectContinuity <==> ms[r.value.0].first <= n + 1)
  {
    for i := 0 to |ms|
      invariant forall j :: 0 <= j < i ==> !Bridges(n, ms[j])
    {
      if ms[i].final <= n {
        continue;
      }
      if ms[i].first <= n + 1 {
        return Some((i, PerfectContinuity));
      }
      if ms[i].prev <= n && n < ms[i].first {
        return Some((i, PuAttach));
      }
    }
    return None;
  }

  // ---------------------------------------------------------------- the attach

  /** One past the last diff chained, link by link, to the one at `j`. */
  function ChainEnd(ms: seq<Diff>, j: nat): (e: nat)
    requires j < |ms|
    ensures j < e <= |ms|
    ensures forall i :: j < i < e ==> Follows(ms, i)
    ensures e < |ms| ==> !Follows(ms, e)
    decreases |ms| - j
  {
    if j + 1 < |ms| && ms[j + 1].prev == ms[j].final then ChainEnd(ms, j + 1) else j + 1
  }

  /** Nothing drained; snapshot older than the batch; chain broken after some diffs; nothing left to
      bridge; or attached. The last three count the diffs applied. */
  datatype Outcome = Empty | TooOld | NoBridge | Gap(applied: nat) | Attached(applied: nat)

  ghost function FoldOption(b: Option<Book>, ds: seq<Diff>, depth: nat): Option<Book> {
    match b
    case None => None
    case Some(k) => Some(Fold(k, ds, depth))
  }

  lemma FoldNothing(b: Option<Book>, depth: nat)
    ensures FoldOption(b, [], depth) == b
  {
  }

  function SnapshotId(b: Option<Book>): nat {
    match b
    case None => 0
    case Some(k) => k.id
  }

  /** The diffs an attempt applies to a book at id `n`: from the bridge to the first break in the chain. */
  ghost function AppliedFrom(n: nat, ms: seq<Diff>): seq<Diff> {
    if ms == [] || n < ms[0].prev || BridgeIndex(n, ms) == |ms| then []
    else ms[BridgeIndex(n, ms)..ChainEnd(ms, BridgeIndex(n, ms))]
  }

  ghost function OutcomeFrom(n: nat, ms: seq<Diff>): Outcome {
    if ms == [] then Empty
    else if n < ms[0].prev then TooOld
    else
      var i := BridgeIndex(n, ms);
      if i == |ms| then NoBridge
      else if ChainEnd(ms, i) == |ms| then Attached(|ms| - i) else Gap(ChainEnd(ms, i) - i)
  }

  /** The same for a drained batch: it is normalised first. */
  ghost function Applied(n: nat, batch: seq<Diff>): seq<Diff> {
    AppliedFrom(n, Normalized(batch))
  }

  ghost function AttachOutcome(n: nat, batch: seq<Diff>): Outcome {
    OutcomeFrom(n, Normalized(batch))
  }

  /** What an attempt does to the book, and how it ends. */
  ghost function TryAttach(b: Option<Book>, batch: seq<Diff>, depth: nat): (Option<Book>, Outcome) {
    (FoldOption(b, Applied(SnapshotId(b), batch), depth), AttachOutcome(SnapshotId(b), batch))
  }

  // ---------------------------------------------------------------- soundness on a lossy, shuffled batch

  ghost predicate FromHistory(w: World, ds: seq<Diff>) {
    forall d :: d in ds ==> d in w.hist
  }

  lemma PositionOf(w: World, d: Diff) returns (k: nat)
    requires d in w.hist
    ensures k < |w.hist| && w.hist[k] == d
  {
    k :| 0 <= k < |w.hist| && w.hist[k] == d;
  }

  /** The only historical diff that starts where one ends is the next one. */
  lemma NextInHistory(w: World, i: nat, j: nat)
    requires Valid(w) && i < |w.hist| && j < |w.hist| && w.hist[j].prev == w.hist[i].final
    ensures j == i + 1
  {
    assert Describes(w.truth, w.hist[j]) && Describes(w.truth, w.hist[i]);
    assert j > 0 ==> Follows(w.hist, j);
    if j < i {
      HistoryIncreases(w, j, i);
    } else if i + 1 < j {
      HistoryIncreases(w, i, j - 1);
    }
  }

  /** Historical diffs chained to each other are a contiguous stretch of the history. */
  lemma {:induction false} ChainIsSlice(w: World, ms: seq<Diff>, i: nat, e: nat) returns (a: nat)
    requires Valid(w) && FromHistory(w, ms) && i < e <= |ms|
    requires forall k :: i < k < e ==> Follows(ms, k)
    ensures a + (e - i) <= |w.hist| && w.hist[a..a + (e - i)] == ms[i..e]
    decreases e
  {
    if e == i + 1 {
      a := PositionOf(w, ms[i]);
      assert ms[i..e] == [ms[i]] && w.hist[a..a + 1] == [w.hist[a]];
    } else {
      a := ChainIsSlice(w, ms, i, e - 1);
      var z := PositionOf(w, ms[e - 1]);
      assert Follows(ms, e - 1);
      assert w.hist[a..a + (e - 1 - i)][e - 2 - i] == ms[i..e - 1][e - 2 - i];
      NextInHistory(w, a + (e - 2 - i), z);
      assert w.hist[a..a + (e - i)] == w.hist[a..a + (e - 1 - i)] + [w.hist[z]];
      assert ms[i..e] == ms[i..e - 1] + [ms[e - 1]];
    }
  }

  lemma HistorySliceChained(w: World, n: nat, a: nat, c: nat)
    requires Valid(w) && a < c <= |w.hist| && w.hist[a].prev <= n < w.hist[a].final
    ensures Chained(n, w.hist[a..c]) && AllDescribe(w.truth, w.hist[a..c])
  {
    var ds := w.hist[a..c];
    forall i | 0 < i < |ds| ensures Follows(ds, i) { assert Follows(w.hist, a + i); }
  }

  lemma AppliedFromIsSlice(w: World, n: nat, ms: seq<Diff>) returns (a: nat, c: nat)
    requires Valid(w) && FromHistory(w, ms)
    ensures a <= c <= |w.hist| && AppliedFrom(n, ms) == w.hist[a..c]
    ensures a < c ==> w.hist[a].prev <= n < w.hist[a].final
    ensures OutcomeFrom(n, ms).Attached? || OutcomeFrom(n, ms).Gap? <==> a < c
    ensures OutcomeFrom(n, ms).Attached? ==> ms != [] && w.hist[c - 1] == Last(ms)
  {
    a, c := 0, 0;
    assert w.hist[0..0] == [];
    if ms != [] && n >= ms[0].prev && BridgeIndex(n, ms) < |ms| {
      var i := BridgeIndex(n, ms);
      var e := ChainEnd(ms, i);
      a := ChainIsSlice(w, ms, i, e);
      c := a + (e - i);
      assert w.hist[a] == w.hist[a..c][0] == ms[i..e][0];
      assert w.hist[c - 1] == w.hist[a..c][c - 1 - a] == ms[i..e][e - 1 - i];
      assert Describes(w.truth, w.hist[a]);
    }
  }

  ghost predicate NewestOf(batch: seq<Diff>, d: Diff) {
    d in batch && forall e :: e in batch ==> e.final <= d.final
  }

  /** What an attempt applies is a gap-free stretch of the history: empty unless it bridged, and ending at the
      newest drained diff when it reports success. */
  lemma AppliedIsSlice(w: World, n: nat, batch: seq<Diff>) returns (a: nat, c: nat)
    requires Valid(w) && FromHistory(w, batch)
    ensures a <= c <= |w.hist| && Applied(n, batch) == w.hist[a..c]
    ensures a < c ==> w.hist[a].prev <= n < w.hist[a].final
    ensures AttachOutcome(n, batch).Attached? || AttachOutcome(n, batch).Gap? <==> a < c
    ensures AttachOutcome(n, batch).Attached? ==>
              Normalized(batch) != [] && Last(Normalized(batch)) == w.hist[c - 1] && NewestOf(batch, w.hist[c - 1])
  {
    NormalizedContents(batch);
    a, c := AppliedFromIsSlice(w, n, Normalized(batch));
    if Normalized(batch) != [] { LastIsNewest(batch, Normalized(batch)); }
  }

  lemma LastIsNewest(batch: seq<Diff>, ms: seq<Diff>)
    requires Rising(ms) && ms != [] && Last(ms) in batch
    requires forall d :: d in batch ==> exists e :: e in ms && e.final == d.final
    ensures NewestOf(batch, Last(ms))
  {
    forall d | d in batch ensures d.final <= ms[|ms| - 1].final {
      var x :| x in ms && x.final == d.final;
      LastIsLargest(ms, x);
    }
  }

  // ---------------------------------------------------------------- what an attempt decides

  lemma FinalsDiffer(w: World, d: Diff, e: Diff)
    requires Valid(w) && d in w.hist && e in w.hist && d.final == e.final
    ensures d == e
  {
    var i := PositionOf(w, d);
    var j := PositionOf(w, e);
    if i < j { HistoryIncreases(w, i, j); }
    if j < i { HistoryIncreases(w, j, i); }
  }

  /** A historical batch and its canonical form have the same members: one diff per `final`. */
  lemma SameDiffs(w: World, batch: seq<Diff>)
    requires Valid(w) && FromHistory(w, batch)
    ensures Rising(Normalized(batch)) && forall d :: d in Normalized(batch) <==> d in batch
    ensures Normalized(batch) == [] <==> batch == []
  {
    hide Valid, Normalized;
    NormalizedContents(batch);
    var ms := Normalized(batch);
    assert ms != [] ==> ms[0] in ms;
    assert batch != [] ==> batch[0] in batch;
    forall d | d in batch ensures d in ms {
      var e :| e in ms && e.final == d.final;
      FinalsDiffer(w, d, e);
    }
  }

  ghost predicate OldestOf(batch: seq<Diff>, d: Diff) {
    d in batch && forall e :: e in batch ==> d.final <= e.final
  }

  ghost predicate Over(n: nat, d: Diff) {
    d.prev <= n < d.final
  }

  /** Every diff of the history from `b` to the newest of the batch is in the batch. */
  ghost predicate WholeFrom(w: World, batch: seq<Diff>, b: Diff, z: Diff) {
    forall h :: h in w.hist && b.final <= h.final <= z.final ==> h in batch
  }

  /** Of two historical diffs the one that ends later starts no earlier than the other ends. */
  lemma LaterStartsAfter(w: World, d: Diff, e: Diff)
    requires Valid(w) && d in w.hist && e in w.hist && d.final < e.final
    ensures d.final <= e.prev && d.prev < d.final
  {
    var i := PositionOf(w, d);
    var j := PositionOf(w, e);
    assert Describes(w.truth, w.hist[i]);
    if j < i { HistoryIncreases(w, j, i); }
    HistoryIncreases(w, i, j);
  }

  /** At most one historical diff is over an id. */
  lemma OverIsOne(w: World, n: nat, d: Diff, e: Diff)
    requires Valid(w) && d in w.hist && e in w.hist && Over(n, d) && Over(n, e)
    ensures d == e
  {
    hide Valid;
    if d.final < e.final { LaterStartsAfter(w, d, e); }
    if e.final < d.final { LaterStartsAfter(w, e, d); }
    FinalsDiffer(w, d, e);
  }

  /** Nothing in the batch starts before its oldest diff. */
  lemma OldestStartsFirst(w: World, batch: seq<Diff>, d: Diff, e: Diff)
    requires Valid(w) && FromHistory(w, batch) && OldestOf(batch, d) && e in batch
    ensures d.prev <= e.prev && (OldestOf(batch, e) ==> d == e)
  {
    hide Valid;
    if d.final == e.final { FinalsDiffer(w, d, e); } else { LaterStartsAfter(w, d, e); }
  }

  lemma FirstIsOldest(w: World, batch: seq<Diff>, ms: seq<Diff>)
    requires ms != [] && Rising(ms) && forall d :: d in ms <==> d in batch
    ensures OldestOf(batch, ms[0]) && NewestOf(batch, ms[|ms| - 1])
  {
    forall e | e in batch ensures ms[0].final <= e.final <= ms[|ms| - 1].final {
      var i :| 0 <= i < |ms| && ms[i] == e;
    }
    assert ms[0] in ms && ms[|ms| - 1] in ms;
  }

  lemma BridgeIsOver(w: World, n: nat, ms: seq<Diff>)
    requires Valid(w) && FromHistory(w, ms)
    ensures var i := BridgeIndex(n, ms);
            if i < |ms| then Over(n, ms[i]) else forall e :: e in ms ==> !Over(n, e)
  {
    forall e | e in ms ensures Bridges(n, e) <==> Over(n, e) {
      var k := PositionOf(w, e);
      assert Describes(w.truth, w.hist[k]);
      BridgeRulesAreTheSpanTest(w.truth, n, e);
    }
  }

  /** Where the chain stops short, the next diff of the history is missing from the batch. */
  lemma ChainStopsAtHole(w: World, ms: seq<Diff>, i: nat) returns (a: nat)
    requires Valid(w) && FromHistory(w, ms) && Rising(ms) && i < |ms|
    ensures var e := ChainEnd(ms, i);
            && a + (e - i) <= |w.hist| && w.hist[a..a + (e - i)] == ms[i..e] && w.hist[a] == ms[i]
            && (e < |ms| ==> a + (e - i) < |w.hist| && w.hist[a + (e - i)] !in ms
                             && ms[i].final < w.hist[a + (e - i)].final < ms[e].final)
  {
    hide Valid;
    var e := ChainEnd(ms, i);
    a := ChainIsSlice(w, ms, i, e);
    var l := a + (e - 1 - i);
    assert w.hist[l] == w.hist[a..a + (e - i)][e - 1 - i] == ms[i..e][e - 1 - i] == ms[e - 1];
    assert w.hist[a] == w.hist[a..a + (e - i)][0] == ms[i..e][0];
    if e < |ms| {
      var x := PositionOf(w, ms[e]);
      if x <= l { PositionsRise(w, x, l); }
      HoleAfter(w, ms, e, l, x);
      PositionsRise(w, a, l);
    }
  }

  lemma PositionsRise(w: World, i: nat, j: nat)
    requires Valid(w) && i <= j < |w.hist|
    ensures w.hist[i].final <= w.hist[j].final
  {
    if i < j { HistoryIncreases(w, i, j); }
  }

  lemma HoleAfter(w: World, ms: seq<Diff>, e: nat, l: nat, x: nat)
    requires Valid(w) && Rising(ms) && 0 < e < |ms| && !Follows(ms, e)
    requires l < x < |w.hist| && w.hist[l] == ms[e - 1] && w.hist[x] == ms[e]
    ensures w.hist[l + 1] !in ms && ms[e - 1].final < w.hist[l + 1].final < ms[e].final
  {
    assert Follows(w.hist, l + 1);
    HistoryIncreases(w, l, l + 1);
    assert x != l + 1;
    HistoryIncreases(w, l + 1, x);
    forall y | 0 <= y < |ms| ensures ms[y] != w.hist[l + 1] {
      if y < e { assert ms[y].final <= ms[e - 1].final; } else { assert ms[e].final <= ms[y].final; }
    }
  }

  /** With a bridge, the chain runs through exactly when nothing is missing from there to the newest diff. */
  lemma ChainRunsThroughIff(w: World, batch: seq<Diff>, ms: seq<Diff>, i: nat)
    requires Valid(w) && FromHistory(w, ms) && Rising(ms) && i < |ms| && forall d :: d in ms <==> d in batch
    ensures ChainEnd(ms, i) == |ms| <==> WholeFrom(w, batch, ms[i], ms[|ms| - 1])
  {
    hide Valid;
    var a := ChainStopsAtHole(w, ms, i);
    var e := ChainEnd(ms, i);
    if e == |ms| {
      assert w.hist[a + (e - 1 - i)] == w.hist[a..a + (e - i)][e - 1 - i] == ms[i..e][e - 1 - i];
      forall h | h in w.hist && ms[i].final <= h.final <= ms[|ms| - 1].final ensures h in batch {
        var x := PositionOf(w, h);
        if x < a { HistoryIncreases(w, x, a); }
        if x > a + (e - 1 - i) { HistoryIncreases(w, a + (e - 1 - i), x); }
        assert h == w.hist[a..a + (e - i)][x - a] == ms[i..e][x - a];
      }
    }
  }

  /** The oldest diff of a batch, said of its canonical form. */
  lemma OldestDecides(w: World, n: nat, batch: seq<Diff>, ms: seq<Diff>)
    requires Valid(w) && FromHistory(w, batch) && ms != [] && OldestOf(batch, ms[0])
    ensures (exists d :: OldestOf(batch, d) && d.prev > n) <==> ms[0].prev > n
    ensures (exists d :: OldestOf(batch, d) && d.prev <= n) <==> ms[0].prev <= n
    ensures ms[0].prev > n ==> forall e :: e in batch ==> !Over(n, e)
  {
    hide Valid;
    forall e | e in batch ensures ms[0].prev <= e.prev && (OldestOf(batch, e) ==> e == ms[0]) {
      OldestStartsFirst(w, batch, ms[0], e);
    }
  }

  /** A bridge, its newest diff and whether anything is missing between them, said of the canonical form. */
  lemma BridgeDecides(w: World, n: nat, batch: seq<Diff>, b: Diff, z: Diff)
    requires Valid(w) && FromHistory(w, batch) && b in batch && Over(n, b) && NewestOf(batch, z)
    ensures (exists c, y :: c in batch && c.prev <= n < c.final && NewestOf(batch, y) && WholeFrom(w, batch, c, y))
            <==> WholeFrom(w, batch, b, z)
    ensures (exists c, y :: c in batch && c.prev <= n < c.final && NewestOf(batch, y) && !WholeFrom(w, batch, c, y))
            <==> !WholeFrom(w, batch, b, z)
  {
    hide Valid, WholeFrom;
    forall c | c in batch && Over(n, c) ensures c == b { OverIsOne(w, n, c, b); }
    forall y | NewestOf(batch, y) ensures y == z { FinalsDiffer(w, y, z); }
  }

  /** WHAT AN ATTEMPT DECIDES. For every batch from the history, with holes, repeats and in any order: a batch whose
      oldest diff starts past the snapshot sends for a new one; one that reaches back but has no diff over the snapshot
      is simply retried; otherwise the attach succeeds if and only if no diff of the history is missing from the one
      over the snapshot to the newest drained. */
  lemma AttachDecided(w: World, n: nat, batch: seq<Diff>)
    requires Valid(w) && FromHistory(w, batch)
    ensures var o := AttachOutcome(n, batch);
            && (o == Empty <==> batch == [])
            && (o == TooOld <==> exists d :: OldestOf(batch, d) && d.prev > n)
            && (o == NoBridge <==> (exists d :: OldestOf(batch, d) && d.prev <= n)
                                   && forall e :: e in batch ==> !(e.prev <= n < e.final))
            && (o.Attached? <==> exists b, z ::
                  b in batch && b.prev <= n < b.final && NewestOf(batch, z) && WholeFrom(w, batch, b, z))
            && (o.Gap? <==> exists b, z ::
                  b in batch && b.prev <= n < b.final && NewestOf(batch, z) && !WholeFrom(w, batch, b, z))
  {
    hide Valid, Normalized, Rising, WholeFrom, ChainEnd, BridgeIndex, Bridges, NewestOf, OldestOf;
    SameDiffs(w, batch);
    var ms := Normalized(batch);
    if ms == [] {
      NothingToDecide(w);
    } else {
      assert ms[0] in batch;
      FirstIsOldest(w, batch, ms);
      BridgeIsOver(w, n, ms);
      OldestDecides(w, n, batch, ms);
      var i := BridgeIndex(n, ms);
      if i < |ms| {
        BridgeDecides(w, n, batch, ms[i], ms[|ms| - 1]);
        ChainRunsThroughIff(w, batch, ms, i);
      }
    }
  }

  lemma NothingToDecide(w: World)
    ensures forall d :: !OldestOf([], d) && !NewestOf([], d)
  {
  }

  /** And what it applies: from the diff over the snapshot on, everything up to the first one missing. */
  lemma AppliedUpToHole(w: World, n: nat, batch: seq<Diff>) returns (a: nat, c: nat)
    requires Valid(w) && FromHistory(w, batch)
    ensures a <= c <= |w.hist| && Applied(n, batch) == w.hist[a..c]
    ensures a < c <==> exists b :: b in batch && b.prev <= n < b.final
    ensures a < c ==> w.hist[a].prev <= n < w.hist[a].final && (c < |w.hist| ==> w.hist[c] !in batch)
    ensures forall k :: a <= k < c ==> w.hist[k] in batch
    ensures a < c ==> AttachOutcome(n, batch) == Attached(c - a) || AttachOutcome(n, batch) == Gap(c - a)
  {
    hide Valid, Normalized, Rising, AppliedFrom, OutcomeFrom;
    SameDiffs(w, batch);
    var ms := Normalized(batch);
    a, c := AppliedFromUpToHole(w, n, ms);
    assert (exists b :: b in batch && b.prev <= n < b.final) <==> exists b :: b in ms && b.prev <= n < b.final;
  }

  lemma AppliedFromUpToHole(w: World, n: nat, ms: seq<Diff>) returns (a: nat, c: nat)
    requires Valid(w) && FromHistory(w, ms) && Rising(ms)
    ensures a <= c <= |w.hist| && AppliedFrom(n, ms) == w.hist[a..c]
    ensures a < c <==> exists b :: b in ms && b.prev <= n < b.final
    ensures a < c ==> w.hist[a].prev <= n < w.hist[a].final && (c < |w.hist| ==> w.hist[c] !in ms)
    ensures forall k :: a <= k < c ==> w.hist[k] in ms
    ensures a < c ==> OutcomeFrom(n, ms) == Attached(c - a) || OutcomeFrom(n, ms) == Gap(c - a)
  {
    hide Valid, Rising, Bridges, BridgeIndex, ChainEnd, FromHistory;
    a, c := 0, 0;
    assert w.hist[0..0] == [];
    if ms != [] {
      FirstIsOldest(w, ms, ms);
      BridgeIsOver(w, n, ms);
      OldestDecides(w, n, ms, ms);
      var i := BridgeIndex(n, ms);
      if i < |ms| {
        assert ms[i] in ms && Over(n, ms[i]);
        a, c := ChainUpToHole(w, ms, i);
        hide OldestOf, NewestOf;
      }
    }
  }

  lemma ChainUpToHole(w: World, ms: seq<Diff>, i: nat) returns (a: nat, c: nat)
    requires Valid(w) && FromHistory(w, ms) && Rising(ms) && i < |ms|
    ensures a < c <= |w.hist| && ms[i..ChainEnd(ms, i)] == w.hist[a..c] && c - a == ChainEnd(ms, i) - i
    ensures w.hist[a] == ms[i] && (c < |w.hist| ==> w.hist[c] !in ms)
    ensures forall k :: a <= k < c ==> w.hist[k] in ms
  {
    hide Valid, Rising, FromHistory;
    var e := ChainEnd(ms, i);
    a := ChainStopsAtHole(w, ms, i);
    c := a + (e - i);
    SliceMembers(w, ms, a, c, i, e);
    if e == |ms| && c < |w.hist| { PastNewest(w, ms, i, a); }
  }

  lemma SliceMembers(w: World, ms: seq<Diff>, a: nat, c: nat, i: nat, e: nat)
    requires a <= c <= |w.hist| && i <= e <= |ms| && w.hist[a..c] == ms[i..e]
    ensures forall k :: a <= k < c ==> w.hist[k] in ms
  {
    forall k | a <= k < c ensures w.hist[k] in ms { assert w.hist[k] == w.hist[a..c][k - a] == ms[i..e][k - a]; }
  }

  lemma PastNewest(w: World, ms: seq<Diff>, i: nat, a: nat)
    requires Valid(w) && Rising(ms) && i < |ms| && a + (|ms| - i) < |w.hist|
    requires w.hist[a..a + (|ms| - i)] == ms[i..|ms|]
    ensures w.hist[a + (|ms| - i)] !in ms
  {
    var c := a + (|ms| - i);
    assert w.hist[c - 1] == w.hist[a..c][c - 1 - a] == ms[i..|ms|][|ms| - 1 - i];
    HistoryIncreases(w, c - 1, c);
    if w.hist[c] in ms { LastIsLargest(ms, w.hist[c]); }
  }

  /** Whatever sub-multiset of the history was drained, in whatever order, an attach attempt leaves an exact
      book exact at the id it moved to, whether it succeeded, broke off midway or did nothing. */
  lemma AttachKeepsExact(w: World, b: Book, r: Reach, batch: seq<Diff>, depth: nat)
    requires Valid(w) && FromHistory(w, batch) && BookExact(w.truth, b, r)
    ensures var after := TryAttach(Some(b), batch, depth).0;
            after.Some? && BookExact(w.truth, after.value, FoldReach(b, Applied(b.id, batch), depth, r))
  {
    var a, c := AppliedIsSlice(w, b.id, batch);
    if a < c {
      HistorySliceChained(w, b.id, a, c);
      FoldExact(w.truth, b, w.hist[a..c], depth, r);
    }
  }

  // ---------------------------------------------------------------- completeness on gap-free arrivals

  lemma HistorySliceRises(w: World, lo: nat, hi: nat)
    requires Valid(w) && lo <= hi <= |w.hist|
    ensures Rising(w.hist[lo..hi])
  {
    var ds := w.hist[lo..hi];
    forall i, j | 0 <= i < j < |ds| ensures ds[i].final < ds[j].final {
      HistoryIncreases(w, lo + i, lo + j);
    }
  }

  lemma HistorySliceChainsThrough(w: World, lo: nat, hi: nat, k: nat)
    requires Valid(w) && lo <= hi <= |w.hist| && k < hi - lo
    ensures ChainEnd(w.hist[lo..hi], k) == hi - lo
  {
    var ds, e := w.hist[lo..hi], ChainEnd(w.hist[lo..hi], k);
    if e < |ds| {
      assert Follows(w.hist, lo + e);
      assert Follows(ds, e);
    }
  }

  /** On a gap-free drained stretch an attempt has exactly three ends: the snapshot predates the stretch; the
      snapshot covers all of it, and nothing is applied; or the first uncovered diff bridges and the whole
      rest is applied. The chain never breaks mid-attach. */
  lemma AttachOutcomes(w: World, n: nat, lo: nat, hi: nat) returns (k: nat)
    requires Valid(w) && lo < hi <= |w.hist|
    ensures var outcome, ds := AttachOutcome(n, w.hist[lo..hi]), Applied(n, w.hist[lo..hi]);
            if n < w.hist[lo].prev then outcome == TooOld && ds == []
            else if w.hist[hi - 1].final <= n then outcome == NoBridge && ds == []
            else
              && lo <= k < hi && w.hist[k].prev <= n < w.hist[k].final
              && outcome == Attached(hi - k) && ds == w.hist[k..hi]
  {
    HistorySliceRises(w, lo, hi);
    RisingIsNormalized(w.hist[lo..hi]);
    k := OutcomesFrom(w, n, lo, hi);
  }

  lemma OutcomesFrom(w: World, n: nat, lo: nat, hi: nat) returns (k: nat)
    requires Valid(w) && lo < hi <= |w.hist|
    ensures var outcome, ds := OutcomeFrom(n, w.hist[lo..hi]), AppliedFrom(n, w.hist[lo..hi]);
            if n < w.hist[lo].prev then outcome == TooOld && ds == []
            else if w.hist[hi - 1].final <= n then outcome == NoBridge && ds == []
            else
              && lo <= k < hi && w.hist[k].prev <= n < w.hist[k].final
              && outcome == Attached(hi - k) && ds == w.hist[k..hi]
  {
    var ms := w.hist[lo..hi];
    k := lo;
    if n >= w.hist[lo].prev {
      var i := BridgeIndex(n, ms);
      if i == |ms| {
        forall j | lo <= j < hi ensures !Bridges(n, w.hist[j]) { assert w.hist[j] == ms[j - lo]; }
        NoneBridges(w, n, lo, hi);
      } else {
        k := lo + i;
        BridgeIsEarly(w, n, k, hi);
        HistorySliceChainsThrough(w, lo, hi, i);
        assert ms[i..|ms|] == w.hist[k..hi];
      }
    }
  }

  lemma BridgeIsEarly(w: World, n: nat, k: nat, hi: nat)
    requires Valid(w) && k < hi <= |w.hist| && Bridges(n, w.hist[k])
    ensures w.hist[k].prev <= n < w.hist[k].final && n < w.hist[hi - 1].final
  {
    assert Describes(w.truth, w.hist[k]);
    if k < hi - 1 { HistoryIncreases(w, k, hi - 1); }
  }

  /** If no diff of a gap-free stretch bridges a snapshot inside or past it, the snapshot covers it all. */
  lemma {:induction false} NoneBridges(w: World, n: nat, lo: nat, hi: nat)
    requires Valid(w) && lo < hi <= |w.hist| && w.hist[lo].prev <= n
    requires forall j :: lo <= j < hi ==> !Bridges(n, w.hist[j])
    ensures w.hist[hi - 1].final <= n
  {
    assert Describes(w.truth, w.hist[hi - 1]);
    assert !Bridges(n, w.hist[hi - 1]);
    if lo < hi - 1 {
      NoneBridges(w, n, lo, hi - 1);
      assert Follows(w.hist, hi - 1);
    }
  }
}
