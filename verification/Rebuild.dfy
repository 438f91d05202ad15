/** Offline replay of the depth tape: the day validator, which counts chain breaks while rebuilding the book from
    the newest snapshot, and what its figures certify. */
module Rebuild {
  import opened Basics
  import opened Ladder
  import opened Exchange
  import opened Chains

  /** One tape row. A field that does not parse is `None`; a row whose level lists stop decoding part-way is
      `broken` and carries the levels decoded before that. */
  datatype Row = Row(ts: Option<int>, ids: Option<(nat, nat)>, bids: seq<Level>, asks: seq<Level>, broken: bool)

  /** A snapshot row; one whose side, price or quantity does not read aborts the rebuild that needs it. */
  datatype SnapRow = SnapRow(ts: Option<int>, id: Option<nat>, isBid: bool, price: int, qty: nat, readable: bool)

  function Flatten<T>(files: seq<seq<T>>): seq<T> {
    if files == [] then [] else Flatten(files[..|files| - 1]) + files[|files| - 1]
  }

  // ---------------------------------------------------------------- the seed

  function MaxId(rows: seq<SnapRow>): Option<nat> {
    if rows == [] then None
    else
      var best, r := MaxId(rows[..|rows| - 1]), rows[|rows| - 1];
      if r.id.Some? && (best.None? || r.id.value > best.value) then r.id else best
  }

  /** Put one snapshot row on its side. */
  function PutRow(s: Sides, r: SnapRow): Sides {
    if r.isBid then s.(bids := s.bids[r.price := r.qty]) else s.(asks := s.asks[r.price := r.qty])
  }

  /** None if and only if no row has an id, else some row has it and no row a larger one. */
  ghost predicate IsLargestId(rows: seq<SnapRow>, id: Option<nat>) {
    && (id.None? <==> forall i :: 0 <= i < |rows| ==> rows[i].id.None?)
    && (id.Some? ==>
          && (exists i :: 0 <= i < |rows| && rows[i].id == id)
          && (forall i :: 0 <= i < |rows| && rows[i].id.Some? ==> rows[i].id.value <= id.value))
  }

  lemma {:induction false} MaxIdIsLargest(rows: seq<SnapRow>)
    ensures IsLargestId(rows, MaxId(rows))
  {
    if rows != [] {
      var init := rows[..|rows| - 1];
      MaxIdIsLargest(init);
      assert forall i :: 0 <= i < |init| ==> init[i] == rows[i];
      if MaxId(init).Some? {
        var k :| 0 <= k < |init| && init[k].id == MaxId(init);
        assert rows[k].id == MaxId(init);
      }
      assert MaxId(rows) == rows[|rows| - 1].id || MaxId(rows) == MaxId(init);
    }
  }

  /** The levels of the wanted rows. */
  function SeedSides(rows: seq<SnapRow>, wanted: SnapRow -> bool): Sides {
    if rows == [] then Sides(map[], map[])
    else
      var before, r := SeedSides(rows[..|rows| - 1], wanted), rows[|rows| - 1];
      if wanted(r) then PutRow(before, r) else before
  }

  /** The rows a seed with this snapshot id is made of. */
  function SeedRow(id: Option<nat>): SnapRow -> bool {
    (r: SnapRow) => id.Some? && r.id == id
  }

  predicate AllReadable(rows: seq<SnapRow>, wanted: SnapRow -> bool) {
    forall i :: 0 <= i < |rows| && wanted(rows[i]) ==> rows[i].readable
  }

  lemma ReadableSnoc(a: seq<SnapRow>, b: seq<SnapRow>, i: nat, wanted: SnapRow -> bool)
    requires i < |b| && AllReadable(a + b[..i], wanted) && (wanted(b[i]) ==> b[i].readable)
    ensures AllReadable(a + b[..i + 1], wanted)
  {
    assert a + b[..i + 1] == (a + b[..i]) + [b[i]];
  }

  lemma NothingUnread(wanted: SnapRow -> bool)
    ensures AllReadable([], wanted) && AllReadable(Flatten([]), wanted)
  {
  }

  lemma UnreadableFile(files: seq<seq<SnapRow>>, f: nat, i: nat, wanted: SnapRow -> bool)
    requires f < |files| && i < |files[f]| && wanted(files[f][i]) && !files[f][i].readable
    ensures !AllReadable(Flatten(files), wanted)
    decreases |files|
  {
    var all := Flatten(files);
    if f == |files| - 1 {
      assert all[|Flatten(files[..f])| + i] == files[f][i];
    } else {
      var init := files[..|files| - 1];
      UnreadableFile(init, f, i, wanted);
      var k :| 0 <= k < |Flatten(init)| && wanted(Flatten(init)[k]) && !Flatten(init)[k].readable;
      assert all[k] == Flatten(init)[k];
    }
  }

  /** `max` of the bids, `min` of the asks, or nothing on an empty side. */
  method BestPrice(s: Side, m: Levels) returns (best: Option<int>)
    ensures best.None? <==> m == map[]
    ensures best.Some? ==> IsBest(s, m, best.value)
  {
    best := None;
    var rest := m.Keys;
    while rest != {}
      invariant rest <= m.Keys && (best.None? <==> rest == m.Keys)
      invariant best.Some? ==> best.value in m && forall q :: q in m && q !in rest ==> Rank(s, best.value) <= Rank(s, q)
      decreases |rest|
    {
      ghost var some := Member(rest);
      var p :| p in rest;
      if best.None? || Rank(s, p) < Rank(s, best.value) {
        best := Some(p);
      }
      rest := rest - {p};
    }
  }

  /** Some bid above some ask; a locked book (equal) is not crossed. */
  predicate Crossed(s: Sides) {
    exists b :: b in s.bids && exists a :: a in s.asks && b > a
  }

  // ---------------------------------------------------------------- the replay

  datatype Replay = Replay(rows: nat, breaks: nat, firstBreak: Option<(nat, nat)>,
                           firstTs: Option<int>, lastTs: Option<int>,
                           prevU: Option<nat>, applied: nat, crossed: nat, sides: Sides)

  function Start(sides: Sides): Replay {
    Replay(0, 0, None, None, None, None, 0, 0, sides)
  }

  function CountRow(rp: Replay, r: Row): Replay {
    rp.(rows := rp.rows + 1,
        firstTs := if r.ts.Some? && rp.firstTs.None? then r.ts else rp.firstTs,
        lastTs := if r.ts.Some? then r.ts else rp.lastTs)
  }

  function CheckChain(rp: Replay, pu: nat, u: nat): Replay {
    var broken := rp.prevU.Some? && pu != rp.prevU.value;
    rp.(breaks := if broken then rp.breaks + 1 else rp.breaks,
        firstBreak := if broken && rp.firstBreak.None? then Some((rp.prevU.value, pu)) else rp.firstBreak,
        prevU := Some(u))
  }

  function ApplyRow(rp: Replay, r: Row): Replay {
    var sides := Sides(ApplyLevels(rp.sides.bids, r.bids), ApplyLevels(rp.sides.asks, r.asks));
    if r.broken then rp.(sides := sides)
    else
      rp.(sides := sides, applied := rp.applied + 1,
          crossed := if Crossed(sides) then rp.crossed + 1 else rp.crossed)
  }

  function ReplayRow(rp: Replay, r: Row, n: Option<nat>, maxDiffs: nat): Replay {
    var counted := CountRow(rp, r);
    if r.ids.None? then counted
    else
      var checked := CheckChain(counted, r.ids.value.0, r.ids.value.1);
      if n.None? || r.ids.value.1 <= n.value || rp.applied >= maxDiffs then checked else ApplyRow(checked, r)
  }

  function ReplayRows(rp: Replay, rows: seq<Row>, n: Option<nat>, maxDiffs: nat): Replay {
    if rows == [] then rp else ReplayRow(ReplayRows(rp, rows[..|rows| - 1], n, maxDiffs), rows[|rows| - 1], n, maxDiffs)
  }

  /** The largest snapshot id over all files. */
  method NewestSnapshot(snapFiles: seq<seq<SnapRow>>) returns (snapId: Option<nat>)
    ensures snapId == MaxId(Flatten(snapFiles)) && IsLargestId(Flatten(snapFiles), snapId)
  {
    hide IsLargestId;
    snapId := None;
    for f := 0 to |snapFiles|
      invariant snapId == MaxId(Flatten(snapFiles[..f]))
    {
      FlattenSnoc(snapFiles, f);
      for i := 0 to |snapFiles[f]|
        invariant snapId == MaxId(Flatten(snapFiles[..f]) + snapFiles[f][..i])
      {
        var r := snapFiles[f][i];
        ConcatSnoc(Flatten(snapFiles[..f]), snapFiles[f], i);
        if r.id.Some? && (snapId.None? || r.id.value > snapId.value) {
          snapId := r.id;
        }
      }
    }
    assert snapFiles[..|snapFiles|] == snapFiles;
    MaxIdIsLargest(Flatten(snapFiles));
  }

  /** The levels of the wanted rows; one of them that does not read aborts. */
  method LoadSeed(snapFiles: seq<seq<SnapRow>>, wanted: SnapRow -> bool) returns (done: bool, seed: Sides)
    ensures done == AllReadable(Flatten(snapFiles), wanted)
    ensures done ==> seed == SeedSides(Flatten(snapFiles), wanted)
  {
    hide PutRow, AllReadable;
    NothingUnread(wanted);
    done, seed := false, Sides(map[], map[]);
    for f := 0 to |snapFiles|
      invariant seed == SeedSides(Flatten(snapFiles[..f]), wanted) && AllReadable(Flatten(snapFiles[..f]), wanted)
    {
      FlattenSnoc(snapFiles, f);
      for i := 0 to |snapFiles[f]|
        invariant seed == SeedSides(Flatten(snapFiles[..f]) + snapFiles[f][..i], wanted)
        invariant AllReadable(Flatten(snapFiles[..f]) + snapFiles[f][..i], wanted)
      {
        ConcatSnoc(Flatten(snapFiles[..f]), snapFiles[f], i);
        if wanted(snapFiles[f][i]) {
          if !snapFiles[f][i].readable {
            UnreadableFile(snapFiles, f, i, wanted);
            return;
          }
          seed := PutRow(seed, snapFiles[f][i]);
        }
        ReadableSnoc(Flatten(snapFiles[..f]), snapFiles[f], i, wanted);
      }
    }
    assert snapFiles[..|snapFiles|] == snapFiles;
    done := true;
  }

  /** One chronological pass over the day's diffs. */
  method ReplayDay(updFiles: seq<seq<Row>>, seed: Sides, snapId: Option<nat>, maxDiffs: nat) returns (report: Replay)
    ensures report == ReplayRows(Start(seed), Flatten(updFiles), snapId, maxDiffs)
  {
    hide ApplyLevels, Crossed;
    report := Start(seed);
    for f := 0 to |updFiles|
      invariant report == ReplayRows(Start(seed), Flatten(updFiles[..f]), snapId, maxDiffs)
    {
      FlattenSnoc(updFiles, f);
      for i := 0 to |updFiles[f]|
        invariant report == ReplayRows(Start(seed), Flatten(updFiles[..f]) + updFiles[f][..i], snapId, maxDiffs)
      {
        var r := updFiles[f][i];
        ConcatSnoc(Flatten(updFiles[..f]), updFiles[f], i);
        report := CountRow(report, r);
        if r.ids.None? {
          continue;
        }
        report := CheckChain(report, r.ids.value.0, r.ids.value.1);
        if snapId.None? || r.ids.value.1 <= snapId.value || report.applied >= maxDiffs {
          continue;
        }
        report := ApplyRow(report, r);
      }
    }
    assert updFiles[..|updFiles|] == updFiles;
  }

  /** The validator: seed from the newest snapshot id over all files, then one pass over the day's diffs. */
  method ReconstructOrderbook(updFiles: seq<seq<Row>>, snapFiles: seq<seq<SnapRow>>, maxDiffs: nat)
    returns (done: bool, report: Replay, snapId: Option<nat>, seedCrossed: bool,
             bestBid: Option<int>, bestAsk: Option<int>)
    ensures snapId == MaxId(Flatten(snapFiles)) && IsLargestId(Flatten(snapFiles), snapId)
    ensures done == AllReadable(Flatten(snapFiles), SeedRow(snapId))
    ensures done ==>
              var seed := SeedSides(Flatten(snapFiles), SeedRow(snapId));
              && seedCrossed == Crossed(seed)
              && report == ReplayRows(Start(seed), Flatten(updFiles), snapId, maxDiffs)
    ensures done ==> if bestBid.None? then report.sides.bids == map[] else IsBest(Bid, report.sides.bids, bestBid.value)
    ensures done ==> if bestAsk.None? then report.sides.asks == map[] else IsBest(Ask, report.sides.asks, bestAsk.value)
  {
    hide ReplayRows, SeedSides, AllReadable, MaxId, IsLargestId, Flatten, Crossed, IsBest;
    seedCrossed, bestBid, bestAsk := false, None, None;
    snapId := NewestSnapshot(snapFiles);
    var seed;
    done, seed := LoadSeed(snapFiles, SeedRow(snapId));
    report := Start(seed);
    if !done {
      return;
    }
    seedCrossed := Crossed(seed);
    report := ReplayDay(updFiles, seed, snapId, maxDiffs);
    bestBid := BestPrice(Bid, report.sides.bids);
    bestAsk := BestPrice(Ask, report.sides.asks);
  }

  lemma FlattenSnoc<T>(files: seq<seq<T>>, f: nat)
    requires f < |files|
    ensures Flatten(files[..f + 1]) == Flatten(files[..f]) + files[f]
    ensures Flatten(files[..f]) + files[f][..0] == Flatten(files[..f])
    ensures Flatten(files[..f]) + files[f][..|files[f]|] == Flatten(files[..f + 1])
  {
    assert files[..f + 1][..f] == files[..f];
    assert files[f][..|files[f]|] == files[f];
  }

  lemma ConcatSnoc<T>(a: seq<T>, b: seq<T>, i: nat)
    requires i < |b|
    ensures a + b[..i + 1] == (a + b[..i]) + [b[i]]
    ensures var s := a + b[..i + 1]; |s| > 0 && s[..|s| - 1] == a + b[..i] && s[|s| - 1] == b[i]
  {
  }

  // ---------------------------------------------------------------- tapes of a true history

  ghost predicate RowIs(r: Row, d: Diff) {
    r.ids == Some((d.prev, d.final)) && r.bids == d.bids && r.asks == d.asks && !r.broken
  }

  /** The tape holds the historical diffs at the rising positions `idx`, in order; the others were missed. */
  ghost predicate TapeOf(w: World, idx: seq<nat>, rows: seq<Row>) {
    && |rows| == |idx|
    && (forall k :: 0 <= k < |idx| ==> idx[k] < |w.hist| && RowIs(rows[k], w.hist[idx[k]]))
    && (forall k, l :: 0 <= k < l < |idx| ==> idx[k] < idx[l])
  }

  /** Position `i` was missed and the one before it was not. */
  ghost predicate RunStart(idx: seq<nat>, i: nat) {
    i !in idx && i > 0 && i - 1 in idx
  }

  /** First positions of the maximal missing runs strictly inside the tape. */
  ghost function MissingRuns(idx: seq<nat>): set<nat> {
    if idx == [] then {}
    else set i: nat | idx[0] < i < idx[|idx| - 1] && RunStart(idx, i)
  }

  lemma TapeInit(w: World, idx: seq<nat>, rows: seq<Row>)
    requires TapeOf(w, idx, rows) && idx != []
    ensures TapeOf(w, idx[..|idx| - 1], rows[..|rows| - 1])
  {
  }

  lemma MissingRunsStep(idx: seq<nat>)
    requires |idx| > 1 && forall k, l :: 0 <= k < l < |idx| ==> idx[k] < idx[l]
    ensures var init, j, last := idx[..|idx| - 1], idx[|idx| - 1], idx[|idx| - 2];
            MissingRuns(idx) == if j == last + 1 then MissingRuns(init) else MissingRuns(init) + {last + 1}
    ensures idx[|idx| - 2] + 1 !in MissingRuns(idx[..|idx| - 1])
  {
    var init, j, last := idx[..|idx| - 1], idx[|idx| - 1], idx[|idx| - 2];
    assert idx == init + [j];
    assert forall x :: x in idx <==> x in init || x == j;
    assert forall x :: x in init ==> x <= last by {
      forall x | x in init ensures x <= last {
        var k :| 0 <= k < |init| && init[k] == x;
        assert k < |init| - 1 ==> idx[k] < idx[|idx| - 2];
      }
    }
    assert last in init by { assert init[|init| - 1] == last; }
    forall i: nat | i < j ensures RunStart(idx, i) <==> RunStart(init, i) {
      assert i in idx <==> i in init;
    }
    assert RunStart(init, last + 1);
  }

  lemma ReplaySnoc(rp: Replay, rows: seq<Row>, n: Option<nat>, maxDiffs: nat)
    requires rows != []
    ensures ReplayRows(rp, rows, n, maxDiffs) ==
            ReplayRow(ReplayRows(rp, rows[..|rows| - 1], n, maxDiffs), rows[|rows| - 1], n, maxDiffs)
  {
    hide ReplayRow;
  }

  lemma RowChecks(before: Replay, row: Row, d: Diff, n: Option<nat>, maxDiffs: nat)
    requires RowIs(row, d)
    ensures var out := ReplayRow(before, row, n, maxDiffs);
            && out.prevU == Some(d.final)
            && out.breaks == before.breaks + if before.prevU.Some? && before.prevU.value != d.prev then 1 else 0
  {
    hide ApplyLevels, Crossed;
  }

  /** CONTINUITY BREAKS COUNT THE HOLES. On a tape of a true history the validator's figure is the number of
      maximal missing runs strictly inside the tape. */
  lemma {:induction false} BreaksCountHoles(w: World, idx: seq<nat>, rows: seq<Row>, rp: Replay, n: Option<nat>,
                                            maxDiffs: nat)
    requires Valid(w) && TapeOf(w, idx, rows) && rp.breaks == 0 && rp.prevU == None
    ensures var out := ReplayRows(rp, rows, n, maxDiffs);
            && out.breaks == |MissingRuns(idx)|
            && out.prevU == if idx == [] then None else Some(w.hist[idx[|idx| - 1]].final)
    decreases |idx|
  {
    hide MissingRuns, ReplayRow, Valid;
    if idx == [] {
      NoRuns(idx);
    } else {
      var j := idx[|idx| - 1];
      TapeInit(w, idx, rows);
      BreaksCountHoles(w, idx[..|idx| - 1], rows[..|rows| - 1], rp, n, maxDiffs);
      RowChecks(ReplayRows(rp, rows[..|rows| - 1], n, maxDiffs), rows[|rows| - 1], w.hist[j], n, maxDiffs);
      ReplaySnoc(rp, rows, n, maxDiffs);
      hide ReplayRows;
      if |idx| == 1 {
        NoRuns(idx);
        NoRuns(idx[..|idx| - 1]);
      } else {
        MissingRunsStep(idx);
        ChainedIffNext(w, idx[|idx| - 2], j);
      }
    }
  }

  lemma NoRuns(idx: seq<nat>)
    requires |idx| <= 1
    ensures MissingRuns(idx) == {}
  {
  }

  lemma ChainedIffNext(w: World, i: nat, j: nat)
    requires Valid(w) && i < j < |w.hist|
    ensures w.hist[j].prev == w.hist[i].final <==> j == i + 1
  {
    assert Follows(w.hist, j);
    if i + 1 < j {
      HistoryIncreases(w, i, j - 1);
    }
  }

  // ---------------------------------------------------------------- what no breaks certify

  ghost predicate SidesExact(truth: seq<Sides>, n: nat, s: Sides, r: Reach) {
    BookExact(truth, Book(n, s), r)
  }

  /** A tape that is the contiguous stretch of the history from `a` on. */
  ghost predicate ContiguousTape(w: World, a: nat, rows: seq<Row>) {
    a + |rows| <= |w.hist| && forall k :: 0 <= k < |rows| ==> RowIs(rows[k], w.hist[a + k])
  }

  lemma {:induction false} NoRunsIsContiguous(idx: seq<nat>)
    requires idx != [] && MissingRuns(idx) == {} && forall k, l :: 0 <= k < l < |idx| ==> idx[k] < idx[l]
    ensures forall k :: 0 <= k < |idx| ==> idx[k] == idx[0] + k
  {
    hide MissingRuns;
    if |idx| > 1 {
      MissingRunsStep(idx);
      var init := idx[..|idx| - 1];
      var next := idx[|idx| - 2] + 1;
      assert next in MissingRuns(init) + {next};
      NoRunsIsContiguous(init);
      forall k | 0 <= k < |idx| ensures idx[k] == idx[0] + k {
        if k < |init| { assert idx[k] == init[k]; }
        assert init[|init| - 1] == idx[|idx| - 2];
      }
    }
  }

  ghost predicate NeverCrossed(truth: seq<Sides>) {
    forall n :: 0 <= n < |truth| ==> !Crossed(truth[n])
  }

  lemma SoundNotCrossed(truth: seq<Sides>, n: nat, s: Sides, r: Reach)
    requires SidesExact(truth, n, s, r) && NeverCrossed(truth)
    ensures !Crossed(s)
  {
    assert Exact(Bid, s.Of(Bid), truth[n].Of(Bid), r.Of(Bid)) && Exact(Ask, s.Of(Ask), truth[n].Of(Ask), r.Of(Ask));
    assert !Crossed(truth[n]);
  }

  lemma RowExact(truth: seq<Sides>, n: nat, d: Diff, s: Sides, r: Reach)
    requires AllPositive(truth) && Describes(truth, d) && d.prev <= n <= d.final && SidesExact(truth, n, s, r)
    ensures SidesExact(truth, d.final, Sides(ApplyLevels(s.bids, d.bids), ApplyLevels(s.asks, d.asks)), r)
  {
    var after := Sides(ApplyLevels(s.bids, d.bids), ApplyLevels(s.asks, d.asks));
    forall side: Side ensures Exact(side, after.Of(side), truth[d.final].Of(side), r.Of(side)) {
      ApplyLevelsExact(truth, n, d, side, s.Of(side), r.Of(side));
    }
  }

  /** The replay of a contiguous tape whose first row starts no later than the snapshot keeps the book exact at the
      later of the snapshot and the last row, as long as the row limit has not been reached. */
  lemma {:induction false} ContiguousReplay(w: World, a: nat, rows: seq<Row>, n: nat, seed: Sides, r: Reach,
                                            maxDiffs: nat)
    requires Valid(w) && ContiguousTape(w, a, rows) && rows != [] && w.hist[a].prev <= n
    requires SidesExact(w.truth, n, seed, r)
    requires ReplayRows(Start(seed), rows, Some(n), maxDiffs).applied < maxDiffs
    ensures var out := ReplayRows(Start(seed), rows, Some(n), maxDiffs);
            && SidesExact(w.truth, Max(n, w.hist[a + |rows| - 1].final), out.sides, r)
            && (NeverCrossed(w.truth) ==> out.crossed == 0)
    decreases |rows|
  {
    hide Valid, Describes, ApplyLevels, Crossed, SidesExact, NeverCrossed;
    var init, row, d := rows[..|rows| - 1], rows[|rows| - 1], w.hist[a + |rows| - 1];
    assert RowIs(row, d);
    var before := ReplayRows(Start(seed), init, Some(n), maxDiffs);
    assert before.applied < maxDiffs;
    var id := n;
    DescribedAt(w, a + |rows| - 1);
    if |rows| == 1 {
      assert init == [];
    } else {
      assert forall k :: 0 <= k < |init| ==> RowIs(init[k], w.hist[a + k]);
      ContiguousReplay(w, a, init, n, seed, r, maxDiffs);
      LinkOf(w, a + |rows| - 1);
      id := Max(n, w.hist[a + |init| - 1].final);
    }
    if d.final > n {
      RowExact(w.truth, id, d, before.sides, r);
      var out := ReplayRows(Start(seed), rows, Some(n), maxDiffs);
      assert out.sides == Sides(ApplyLevels(before.sides.bids, d.bids), ApplyLevels(before.sides.asks, d.asks));
      if NeverCrossed(w.truth) { SoundNotCrossed(w.truth, d.final, out.sides, r); }
    }
  }

  lemma DescribedAt(w: World, j: nat)
    requires Valid(w) && j < |w.hist|
    ensures AllPositive(w.truth) && Describes(w.truth, w.hist[j])
  {
  }

  lemma LinkOf(w: World, j: nat)
    requires Valid(w) && 0 < j < |w.hist|
    ensures w.hist[j].prev == w.hist[j - 1].final < w.hist[j].final
    ensures AllPositive(w.truth) && Describes(w.truth, w.hist[j])
  {
    assert Follows(w.hist, j) && Describes(w.truth, w.hist[j]);
  }

  /** VALIDATOR CERTIFICATE. Zero continuity breaks, a first row that starts no later than the snapshot, and fewer
      diffs applied than the limit certify the rebuilt book: every level it holds is true at the last id, it misses
      nothing up to the snapshot's horizon, and - if the exchange's book never crosses - no crossing was reported. */
  lemma ValidatorCertificate(w: World, idx: seq<nat>, rows: seq<Row>, n: nat, seed: Sides, r: Reach, maxDiffs: nat)
    requires Valid(w) && TapeOf(w, idx, rows) && SidesExact(w.truth, n, seed, r)
    requires var out := ReplayRows(Start(seed), rows, Some(n), maxDiffs); out.breaks == 0 && out.applied < maxDiffs
    requires rows != [] && rows[0].ids.value.0 <= n
    ensures var out := ReplayRows(Start(seed), rows, Some(n), maxDiffs);
            && out.prevU.Some? && SidesExact(w.truth, Max(n, out.prevU.value), out.sides, r)
            && (NeverCrossed(w.truth) ==> out.crossed == 0 && !Crossed(seed))
  {
    hide Valid, Describes, ApplyLevels, Crossed, SidesExact, ReplayRow, ReplayRows, MissingRuns, NeverCrossed;
    BreaksCountHoles(w, idx, rows, Start(seed), Some(n), maxDiffs);
    assert MissingRuns(idx) == {};
    NoRunsIsContiguous(idx);
    var a := idx[0];
    assert forall k :: 0 <= k < |rows| ==> RowIs(rows[k], w.hist[a + k]);
    ContiguousReplay(w, a, rows, n, seed, r, maxDiffs);
    if NeverCrossed(w.truth) { SoundNotCrossed(w.truth, n, seed, r); }
  }

  /** In particular a row the snapshot covers is enough to start from: rows before the snapshot are chained too. */
  lemma CoveredRowSuffices(w: World, idx: seq<nat>, rows: seq<Row>, n: nat, k: nat)
    requires Valid(w) && TapeOf(w, idx, rows) && k < |rows| && rows[k].ids.value.1 <= n
    ensures rows[0].ids.value.0 <= n
  {
    assert RowIs(rows[k], w.hist[idx[k]]) && RowIs(rows[0], w.hist[idx[0]]);
    assert Describes(w.truth, w.hist[idx[0]]);
    if 0 < k { HistoryIncreases(w, idx[0], idx[k]); }
  }

  // ---------------------------------------------------------------- the exact condition

  lemma TapedInOrder(w: World, idx: seq<nat>, rows: seq<Row>)
    requires Valid(w) && TapeOf(w, idx, rows)
    ensures AllPositive(w.truth) && AllDescribe(w.truth, DiffsAt(w, idx)) && Spaced(DiffsAt(w, idx))
  {
    var ds := DiffsAt(w, idx);
    forall i | 0 < i < |ds| ensures Beyond(ds, i) { HistoryIncreases(w, idx[i - 1], idx[i]); }
  }

  /** The diffs the replay applies: those past the snapshot. */
  ghost function Past(ds: seq<Diff>, n: nat): seq<Diff> {
    if ds == [] then []
    else Past(ds[..|ds| - 1], n) + if ds[|ds| - 1].final > n then [ds[|ds| - 1]] else []
  }

  /** The first `c` diffs are covered by id `n` and the others are not. */
  ghost predicate SplitAt(ds: seq<Diff>, n: nat, c: nat) {
    && c <= |ds| && (forall i :: 0 <= i < c ==> ds[i].final <= n)
    && (forall i :: c <= i < |ds| ==> ds[i].final > n)
  }

  lemma {:induction false} SplitExists(truth: seq<Sides>, ds: seq<Diff>, n: nat) returns (c: nat)
    requires AllDescribe(truth, ds) && Spaced(ds)
    ensures SplitAt(ds, n, c)
  {
    hide Spaced, AllDescribe;
    c := 0;
    while c < |ds| && ds[c].final <= n
      invariant c <= |ds| && forall i :: 0 <= i < c ==> ds[i].final <= n
    {
      c := c + 1;
    }
    forall i | c < i < |ds| ensures ds[i].final > n { SpacedRises(truth, ds, c, i); }
  }

  /** They are then a suffix of the tape. */
  lemma {:induction false} PastIsSuffix(ds: seq<Diff>, n: nat, c: nat)
    requires SplitAt(ds, n, c)
    ensures Past(ds, n) == ds[c..]
  {
    if ds != [] {
      var init, d := ds[..|ds| - 1], ds[|ds| - 1];
      if c == |ds| {
        PastIsSuffix(init, n, c - 1);
      } else {
        PastIsSuffix(init, n, c);
        assert init[c..] + [d] == ds[c..];
      }
    }
  }

  lemma SuffixInOrder(truth: seq<Sides>, ds: seq<Diff>, c: nat)
    requires Spaced(ds) && c <= |ds|
    ensures Spaced(ds[c..])
    ensures AllDescribe(truth, ds) <==> AllDescribe(truth, ds[..c]) && AllDescribe(truth, ds[c..])
  {
    hide Describes;
    var before, after := ds[..c], ds[c..];
    forall i | 0 < i < |after| ensures Beyond(after, i) { assert Beyond(ds, c + i); }
    if AllDescribe(truth, ds) {
      forall i | 0 <= i < |after| ensures Describes(truth, after[i]) { assert after[i] == ds[c + i]; }
    }
    if AllDescribe(truth, before) && AllDescribe(truth, after) {
      forall i | 0 <= i < |ds| ensures Describes(truth, ds[i]) {
        assert ds[i] == if i < c then before[i] else after[i - c];
      }
    }
  }

  /** What the replay of a tape adds up to, whatever the seed: the diffs past the snapshot, up to the limit. */
  lemma {:induction false} ReplayApplies(w: World, idx: seq<nat>, rows: seq<Row>, n: nat, seed: Sides, maxDiffs: nat)
    requires TapeOf(w, idx, rows)
    ensures var out, past := ReplayRows(Start(seed), rows, Some(n), maxDiffs), Past(DiffsAt(w, idx), n);
            && out.applied == (if |past| < maxDiffs then |past| else maxDiffs)
            && (|past| <= maxDiffs ==> out.sides == Untrimmed(Book(n, seed), past).sides)
            && out.prevU == if idx == [] then None else Some(w.hist[idx[|idx| - 1]].final)
    decreases |rows|
  {
    if rows != [] {
      hide ReplayRows, Past, Untrimmed, ReplayRow;
      var init, row := idx[..|idx| - 1], rows[|rows| - 1];
      var d := w.hist[idx[|idx| - 1]];
      TapeInit(w, idx, rows);
      ReplayApplies(w, init, rows[..|rows| - 1], n, seed, maxDiffs);
      assert DiffsAt(w, idx)[..|idx| - 1] == DiffsAt(w, init);
      ReplaySnoc(Start(seed), rows, Some(n), maxDiffs);
      PastSnoc(DiffsAt(w, init), DiffsAt(w, idx), n, d);
      RowApplies(ReplayRows(Start(seed), rows[..|rows| - 1], Some(n), maxDiffs), row, d, n, maxDiffs,
                 Book(n, seed), Past(DiffsAt(w, init), n));
    }
  }

  lemma RowApplies(before: Replay, row: Row, d: Diff, n: nat, maxDiffs: nat, b: Book, past: seq<Diff>)
    requires RowIs(row, d) && before.applied == if |past| < maxDiffs then |past| else maxDiffs
    requires |past| <= maxDiffs ==> before.sides == Untrimmed(b, past).sides
    ensures var out, past' := ReplayRow(before, row, Some(n), maxDiffs), if d.final > n then past + [d] else past;
            && out.applied == (if |past'| < maxDiffs then |past'| else maxDiffs)
            && (|past'| <= maxDiffs ==> out.sides == Untrimmed(b, past').sides)
            && out.prevU == Some(d.final)
  {
    UntrimmedSnoc(b, past, d);
    hide Untrimmed, ApplyLevels, Crossed;
  }

  lemma PastSnoc(init: seq<Diff>, ds: seq<Diff>, n: nat, d: Diff)
    requires ds != [] && init == ds[..|ds| - 1] && d == ds[|ds| - 1]
    ensures Past(ds, n) == if d.final > n then Past(init, n) + [d] else Past(init, n)
  {
  }

  lemma UntrimmedSnoc(b: Book, ds: seq<Diff>, d: Diff)
    ensures var prev := Untrimmed(b, ds).sides;
            Untrimmed(b, ds + [d]).sides == Sides(ApplyLevels(prev.bids, d.bids), ApplyLevels(prev.asks, d.asks))
  {
    assert (ds + [d])[..|ds|] == ds;
  }

  /** For every exchange the whole tape describes, the replay seeded with its book at `n` ends with its book. */
  ghost predicate AlwaysRebuilds(ds: seq<Diff>, rows: seq<Row>, n: nat, last: nat, maxDiffs: nat) {
    forall truth: seq<Sides> :: AllPositive(truth) && AllDescribe(truth, ds) && n < |truth| ==>
      SidesExact(truth, Max(n, last), ReplayRows(Start(truth[n]), rows, Some(n), maxDiffs).sides, COMPLETE)
  }

  /** Below the limit the rebuilt book is right for every exchange the tape describes if and only if the diffs past
      the snapshot chain onto it and onto each other. */
  lemma RebuildsIffChained(w: World, idx: seq<nat>, rows: seq<Row>, n: nat, seed: Sides, maxDiffs: nat)
    requires Valid(w) && TapeOf(w, idx, rows) && rows != []
    requires ReplayRows(Start(seed), rows, Some(n), maxDiffs).applied < maxDiffs
    ensures var ds := DiffsAt(w, idx);
            Chained(n, Past(ds, n)) <==> AlwaysRebuilds(ds, rows, n, w.hist[idx[|idx| - 1]].final, maxDiffs)
  {
    hide Describes, ReplayRows, SidesExact, Untrimmed, Past;
    var ds, last := DiffsAt(w, idx), w.hist[idx[|idx| - 1]].final;
    ReplayApplies(w, idx, rows, n, seed, maxDiffs);
    TapedInOrder(w, idx, rows);
    var c := SplitExists(w.truth, ds, n);
    PastIsSuffix(ds, n, c);
    SuffixInOrder(w.truth, ds, c);
    if c < |ds| {
      ChainedIffAlwaysRight(w.truth, ds[..c], n, ds[c..]);
      RebuildsAsReplayed(w, idx, rows, n, maxDiffs, c);
    } else {
      NothingPast(w, idx, rows, n, maxDiffs);
    }
  }

  lemma RebuildsAsReplayed(w: World, idx: seq<nat>, rows: seq<Row>, n: nat, maxDiffs: nat, c: nat)
    requires TapeOf(w, idx, rows) && c < |idx| && Spaced(DiffsAt(w, idx))
    requires var ds := DiffsAt(w, idx); Past(ds, n) == ds[c..] && |ds[c..]| <= maxDiffs && ds[|ds| - 1].final > n
    ensures var ds := DiffsAt(w, idx);
            AlwaysRebuilds(ds, rows, n, ds[|ds| - 1].final, maxDiffs) <==> AlwaysRight(ds[..c], n, ds[c..])
  {
    hide AllDescribe, ReplayRows, BookExact, Untrimmed, Past, AllPositive, RowIs, Spaced;
    var ds := DiffsAt(w, idx);
    forall truth: seq<Sides> | n < |truth|
      ensures AllDescribe(truth, ds) <==> AllDescribe(truth, ds[..c]) && AllDescribe(truth, ds[c..])
      ensures Untrimmed(Book(n, truth[n]), ds[c..]) ==
              Book(ds[|ds| - 1].final, ReplayRows(Start(truth[n]), rows, Some(n), maxDiffs).sides)
    {
      ReplayedIn(w, idx, rows, n, maxDiffs, c, truth);
    }
  }

  /** The replay in one exchange, as a fold of the diffs past the snapshot. */
  lemma ReplayedIn(w: World, idx: seq<nat>, rows: seq<Row>, n: nat, maxDiffs: nat, c: nat, truth: seq<Sides>)
    requires TapeOf(w, idx, rows) && c < |idx| && Spaced(DiffsAt(w, idx)) && n < |truth|
    requires var ds := DiffsAt(w, idx); Past(ds, n) == ds[c..] && |ds[c..]| <= maxDiffs && ds[|ds| - 1].final > n
    ensures var ds := DiffsAt(w, idx);
            && (AllDescribe(truth, ds) <==> AllDescribe(truth, ds[..c]) && AllDescribe(truth, ds[c..]))
            && Untrimmed(Book(n, truth[n]), ds[c..]) ==
               Book(ds[|ds| - 1].final, ReplayRows(Start(truth[n]), rows, Some(n), maxDiffs).sides)
  {
    SuffixInOrder(truth, DiffsAt(w, idx), c);
    hide AllDescribe, ReplayRows, Untrimmed, Past;
    ReplayApplies(w, idx, rows, n, truth[n], maxDiffs);
    UntrimmedId(Book(n, truth[n]), DiffsAt(w, idx)[c..]);
  }

  lemma NothingPast(w: World, idx: seq<nat>, rows: seq<Row>, n: nat, maxDiffs: nat)
    requires TapeOf(w, idx, rows) && idx != [] && Past(DiffsAt(w, idx), n) == [] && w.hist[idx[|idx| - 1]].final <= n
    ensures AlwaysRebuilds(DiffsAt(w, idx), rows, n, w.hist[idx[|idx| - 1]].final, maxDiffs)
  {
    hide Describes, ReplayRows;
    forall truth: seq<Sides> | n < |truth|
      ensures SidesExact(truth, n, ReplayRows(Start(truth[n]), rows, Some(n), maxDiffs).sides, COMPLETE)
    {
      ReplayApplies(w, idx, rows, n, truth[n], maxDiffs);
    }
  }

  /** On a tape without breaks the diffs past the snapshot chain onto it exactly when the first row starts no later. */
  lemma NoBreaksChainIff(w: World, idx: seq<nat>, rows: seq<Row>, n: nat, seed: Sides, maxDiffs: nat)
    requires Valid(w) && TapeOf(w, idx, rows) && rows != []
    requires ReplayRows(Start(seed), rows, Some(n), maxDiffs).breaks == 0
    ensures rows[0].ids.value.0 <= n <==> Chained(n, Past(DiffsAt(w, idx), n))
  {
    hide Valid, Describes, ReplayRows, Past, MissingRuns, Chained, Spaced, AllDescribe, Follows, SplitAt;
    BreaksCountHoles(w, idx, rows, Start(seed), Some(n), maxDiffs);
    WholeTapeFollows(w, idx, rows);
    TapedInOrder(w, idx, rows);
    var ds := DiffsAt(w, idx);
    var c := SplitExists(w.truth, ds, n);
    PastIsSuffix(ds, n, c);
    assert RowIs(rows[0], ds[0]);
    UnbrokenChainsIff(w.truth, ds, n, c);
  }

  /** What no breaks certify, exactly: given a report without breaks and below the limit, and a true seed, the rebuilt
      book is right for every exchange the tape describes if and only if the first row starts no later than the
      snapshot. */
  lemma NoBreaksCertifyIff(w: World, idx: seq<nat>, rows: seq<Row>, n: nat, seed: Sides, maxDiffs: nat)
    requires Valid(w) && TapeOf(w, idx, rows) && rows != []
    requires var out := ReplayRows(Start(seed), rows, Some(n), maxDiffs); out.breaks == 0 && out.applied < maxDiffs
    ensures rows[0].ids.value.0 <= n <==>
            AlwaysRebuilds(DiffsAt(w, idx), rows, n, w.hist[idx[|idx| - 1]].final, maxDiffs)
  {
    hide Valid, ReplayRows, Past, Chained, AlwaysRebuilds;
    NoBreaksChainIff(w, idx, rows, n, seed, maxDiffs);
    RebuildsIffChained(w, idx, rows, n, seed, maxDiffs);
  }

  lemma WholeTapeFollows(w: World, idx: seq<nat>, rows: seq<Row>)
    requires Valid(w) && TapeOf(w, idx, rows) && idx != [] && MissingRuns(idx) == {}
    ensures forall i :: 0 < i < |idx| ==> Follows(DiffsAt(w, idx), i)
  {
    hide Valid;
    NoRunsIsContiguous(idx);
    forall i | 0 < i < |idx| ensures Follows(DiffsAt(w, idx), i) { LinkOf(w, idx[i]); }
  }

  /** An unbroken tape chains onto `n` past it exactly when it starts no later. */
  lemma UnbrokenChainsIff(truth: seq<Sides>, ds: seq<Diff>, n: nat, c: nat)
    requires AllDescribe(truth, ds) && ds != [] && SplitAt(ds, n, c) && forall i :: 0 < i < |ds| ==> Follows(ds, i)
    ensures Chained(n, ds[c..]) <==> ds[0].prev <= n
  {
    var past := ds[c..];
    assert Describes(truth, ds[0]);
    assert 0 < c < |ds| ==> Follows(ds, c);
    forall i | 0 < i < |past| ensures Follows(past, i) { assert Follows(ds, c + i); }
  }

  // ---------------------------------------------------------------- the seed of a certificate

  /** Every wanted row is a level of `t`. */
  ghost predicate RowsOf(t: Sides, rows: seq<SnapRow>, wanted: SnapRow -> bool) {
    forall i :: 0 <= i < |rows| && wanted(rows[i]) ==> RowOf(t, rows[i])
  }

  ghost predicate RowOf(t: Sides, r: SnapRow) {
    var m := if r.isBid then t.bids else t.asks;
    r.price in m && m[r.price] == r.qty
  }

  predicate IsAt(r: SnapRow, s: Side, p: int) {
    r.price == p && (r.isBid <==> s == Bid)
  }

  ghost predicate HasRow(rows: seq<SnapRow>, wanted: SnapRow -> bool, s: Side, p: int) {
    exists i :: 0 <= i < |rows| && wanted(rows[i]) && IsAt(rows[i], s, p)
  }

  lemma {:induction false} SeedHolds(t: Sides, rows: seq<SnapRow>, wanted: SnapRow -> bool, s: Side, p: int)
    requires RowsOf(t, rows, wanted)
    ensures var seed := SeedSides(rows, wanted).Of(s);
            && (p in seed <==> HasRow(rows, wanted, s, p))
            && (p in seed ==> p in t.Of(s) && seed[p] == t.Of(s)[p])
  {
    if rows != [] {
      var init, r := rows[..|rows| - 1], rows[|rows| - 1];
      assert forall i :: 0 <= i < |init| ==> init[i] == rows[i];
      SeedHolds(t, init, wanted, s, p);
      assert HasRow(rows, wanted, s, p) <==> HasRow(init, wanted, s, p) || (wanted(r) && IsAt(r, s, p)) by {
        if i :| 0 <= i < |rows| && wanted(rows[i]) && IsAt(rows[i], s, p) { assert i < |init| ==> init[i] == rows[i]; }
        if i :| 0 <= i < |init| && wanted(init[i]) && IsAt(init[i], s, p) { assert rows[i] == init[i]; }
      }
    }
  }

  /** Of wanted rows at one price the last counts, whatever the others say. */
  lemma {:induction false} LastRowCounts(rows: seq<SnapRow>, wanted: SnapRow -> bool, s: Side, i: nat)
    requires i < |rows| && wanted(rows[i]) && IsAt(rows[i], s, rows[i].price)
    requires forall j :: i < j < |rows| && wanted(rows[j]) ==> !IsAt(rows[j], s, rows[i].price)
    ensures var seed := SeedSides(rows, wanted).Of(s); rows[i].price in seed && seed[rows[i].price] == rows[i].qty
  {
    if i < |rows| - 1 { LastRowCounts(rows[..|rows| - 1], wanted, s, i); }
  }

  /** A seed read from true rows that reach the horizon is exact there, however many snapshot files and writes of the
      same snapshot it was pieced together from. */
  lemma SeedIsExact(truth: seq<Sides>, n: nat, rows: seq<SnapRow>, wanted: SnapRow -> bool, r: Reach)
    requires n < |truth| && RowsOf(truth[n], rows, wanted)
    requires forall s: Side, p :: p in truth[n].Of(s) && Covers(s, r.Of(s), p) ==> HasRow(rows, wanted, s, p)
    ensures SidesExact(truth, n, SeedSides(rows, wanted), r)
  {
    var seed := SeedSides(rows, wanted);
    forall s: Side ensures Exact(s, seed.Of(s), truth[n].Of(s), r.Of(s)) {
      forall p
        ensures p in seed.Of(s) ==> p in truth[n].Of(s) && seed.Of(s)[p] == truth[n].Of(s)[p]
        ensures p in truth[n].Of(s) && Covers(s, r.Of(s), p) ==> p in seed.Of(s) {
        SeedHolds(truth[n], rows, wanted, s, p);
      }
    }
  }

  /** Rows that spell a book out load as that book. */
  lemma SeedIsWhatWasWritten(t: Sides, rows: seq<SnapRow>, wanted: SnapRow -> bool)
    requires RowsOf(t, rows, wanted)
    requires forall s: Side, p :: p in t.Of(s) ==> HasRow(rows, wanted, s, p)
    ensures SeedSides(rows, wanted) == t
  {
    var seed := SeedSides(rows, wanted);
    forall s: Side ensures seed.Of(s) == t.Of(s) {
      forall p ensures p in seed.Of(s) <==> p in t.Of(s) { SeedHolds(t, rows, wanted, s, p); }
      forall p | p in t.Of(s) ensures seed.Of(s)[p] == t.Of(s)[p] { SeedHolds(t, rows, wanted, s, p); }
      assert seed.Of(s).Keys == t.Of(s).Keys;
    }
    assert seed.Of(Bid) == t.Of(Bid) && seed.Of(Ask) == t.Of(Ask);
  }
}
