/** What a rebuilt book is worth when its seed is not the true book: it is wrong where the seed was wrong and the tape
    past the snapshot lists nothing. A seed is normally the live book written out again, so what a rebuild gets wrong
    goes back to what the collector had lost. */
module Seeds {
  import opened Basics
  import opened Ladder
  import opened Exchange
  import opened Healing
  import opened Chains
  import opened Ring
  import opened OrderBook
  import opened Collector
  import opened Runs
  import opened Rebuild
  import opened RebuildAt

  // ---------------------------------------------------------------- the validator

  /** For every exchange the tape describes, every seed and every horizon: the rebuilt book is exact just when the diffs
      past the snapshot list every price the seed was wrong about. */
  ghost predicate RebuildDecidedBySeed(ds: seq<Diff>, rows: seq<Row>, n: nat, last: nat, maxDiffs: nat) {
    forall truth: seq<Sides>, seed, r :: AllPositive(truth) && AllDescribe(truth, ds) && n < |truth| ==>
      (ErrorsListed(truth, n, seed, r, Past(ds, n)) <==>
         SidesExact(truth, Max(n, last), ReplayRows(Start(seed), rows, Some(n), maxDiffs).sides, r))
  }

  /** In any exchange the tape describes the replay is the fold of the diffs past the snapshot onto the seed. */
  lemma ReplayFolds(w: World, idx: seq<nat>, rows: seq<Row>, n: nat, maxDiffs: nat, truth: seq<Sides>, seed: Sides)
    requires Valid(w) && TapeOf(w, idx, rows) && rows != [] && |Past(DiffsAt(w, idx), n)| <= maxDiffs
    requires AllDescribe(truth, DiffsAt(w, idx))
    ensures AllDescribe(truth, Past(DiffsAt(w, idx), n))
    ensures Untrimmed(Book(n, seed), Past(DiffsAt(w, idx), n)) ==
            Book(Max(n, w.hist[idx[|idx| - 1]].final), ReplayRows(Start(seed), rows, Some(n), maxDiffs).sides)
  {
    hide Valid, ReplayRows, Past, Untrimmed, Describes, AllDescribe;
    var ds := DiffsAt(w, idx);
    ReplayApplies(w, idx, rows, n, seed, maxDiffs);
    TapedInOrder(w, idx, rows);
    var c := SplitExists(w.truth, ds, n);
    PastIsSuffix(ds, n, c);
    SuffixInOrder(truth, ds, c);
    UntrimmedId(Book(n, seed), ds[c..]);
  }

  /** The rebuilt book at one price, for any seed. */
  lemma RebuiltWrongIff(w: World, idx: seq<nat>, rows: seq<Row>, n: nat, maxDiffs: nat, truth: seq<Sides>, seed: Sides,
                        r: Reach, s: Side, p: int)
    requires Valid(w) && TapeOf(w, idx, rows) && rows != []
    requires ReplayRows(Start(seed), rows, Some(n), maxDiffs).applied < maxDiffs
    requires AllPositive(truth) && AllDescribe(truth, DiffsAt(w, idx)) && n < |truth|
    requires Chained(n, Past(DiffsAt(w, idx), n))
    ensures var out := ReplayRows(Start(seed), rows, Some(n), maxDiffs);
            var last := Max(n, w.hist[idx[|idx| - 1]].final);
            && last < |truth|
            && (BookWrongAt(truth, last, Book(last, out.sides), r, s, p) <==>
                  BookWrongAt(truth, n, Book(n, seed), r, s, p) && !ListedIn(Past(DiffsAt(w, idx), n), s, p))
  {
    hide Valid, ReplayRows, Past, Untrimmed, Describes, AllDescribe, AllPositive, Chained, BookWrongAt, ListedIn;
    ReplayApplies(w, idx, rows, n, seed, maxDiffs);
    ReplayFolds(w, idx, rows, n, maxDiffs, truth, seed);
    WrongExactlyWhereUnlisted(truth, n, seed, Past(DiffsAt(w, idx), n), r, s, p);
  }

  /** Below the limit the seed decides in just this way if and only if the diffs past the snapshot chain onto it and
      onto each other. */
  lemma ChainedIffSeedDecides(w: World, idx: seq<nat>, rows: seq<Row>, n: nat, seed: Sides, maxDiffs: nat)
    requires Valid(w) && TapeOf(w, idx, rows) && rows != []
    requires ReplayRows(Start(seed), rows, Some(n), maxDiffs).applied < maxDiffs
    ensures var ds := DiffsAt(w, idx);
            Chained(n, Past(ds, n)) <==> RebuildDecidedBySeed(ds, rows, n, w.hist[idx[|idx| - 1]].final, maxDiffs)
  {
    hide Valid, ReplayRows, Past, Untrimmed, Describes, AllDescribe, AllPositive, Chained, ErrorsListed, SidesExact;
    hide BookExact;
    var ds, last := DiffsAt(w, idx), w.hist[idx[|idx| - 1]].final;
    ReplayApplies(w, idx, rows, n, seed, maxDiffs);
    if Chained(n, Past(ds, n)) {
      forall truth: seq<Sides>, other, r | AllPositive(truth) && AllDescribe(truth, ds) && n < |truth|
        ensures ErrorsListed(truth, n, other, r, Past(ds, n)) <==>
                SidesExact(truth, Max(n, last), ReplayRows(Start(other), rows, Some(n), maxDiffs).sides, r)
      {
        ReplayFolds(w, idx, rows, n, maxDiffs, truth, other);
        ExactIffErrorsListed(truth, n, other, Past(ds, n), r);
        BookIsSides(truth, Max(n, last), ReplayRows(Start(other), rows, Some(n), maxDiffs).sides, r);
      }
    }
    if RebuildDecidedBySeed(ds, rows, n, last, maxDiffs) {
      forall truth: seq<Sides> | AllPositive(truth) && AllDescribe(truth, ds) && n < |truth|
        ensures SidesExact(truth, Max(n, last), ReplayRows(Start(truth[n]), rows, Some(n), maxDiffs).sides, COMPLETE)
      {
        TrueSeedHasNoErrors(truth, n, Past(ds, n));
      }
      RebuildsIffChained(w, idx, rows, n, seed, maxDiffs);
    }
  }

  lemma BookIsSides(truth: seq<Sides>, n: nat, sides: Sides, r: Reach)
    ensures BookExact(truth, Book(n, sides), r) <==> SidesExact(truth, n, sides, r)
  {
  }

  /** What no breaks certify of a seed that need not be true: for every seed the rebuilt book is exact just when the
      tape lists its errors, if and only if the first row starts no later than the snapshot. */
  lemma NoBreaksSeedDecidesIff(w: World, idx: seq<nat>, rows: seq<Row>, n: nat, seed: Sides, maxDiffs: nat)
    requires Valid(w) && TapeOf(w, idx, rows) && rows != []
    requires var out := ReplayRows(Start(seed), rows, Some(n), maxDiffs); out.breaks == 0 && out.applied < maxDiffs
    ensures rows[0].ids.value.0 <= n <==>
            RebuildDecidedBySeed(DiffsAt(w, idx), rows, n, w.hist[idx[|idx| - 1]].final, maxDiffs)
  {
    hide Valid, ReplayRows, Past, RebuildDecidedBySeed, Chained;
    NoBreaksChainIff(w, idx, rows, n, seed, maxDiffs);
    ChainedIffSeedDecides(w, idx, rows, n, seed, maxDiffs);
  }

  // ---------------------------------------------------------------- the seek

  /** The same for a seek and the diffs it applies. */
  ghost predicate SeekDecidedBySeed(ds: seq<Diff>, rows: seq<Row>, at: int, n: nat)
    requires ds != []
  {
    forall truth: seq<Sides>, seed, r :: AllPositive(truth) && AllDescribe(truth, ds) && n < |truth| ==>
      (ErrorsListed(truth, n, seed, r, ds) <==>
         SidesExact(truth, ds[|ds| - 1].final, AtRows(AtReplay(None, false, seed), rows, at, n).sides, r))
  }

  /** The book of a seek at one price, for any seed. */
  lemma SoughtWrongIff(w: World, idx: seq<nat>, rows: seq<Row>, at: int, n: nat, truth: seq<Sides>, seed: Sides,
                       r: Reach, s: Side, p: int)
    requires Valid(w) && TapeOf(w, idx, RelevantRows(rows, at, n)) && idx != []
    requires AllPositive(truth) && AllDescribe(truth, DiffsAt(w, idx)) && n < |truth|
    requires !AtRows(AtReplay(None, false, seed), rows, at, n).gap && w.hist[idx[0]].prev <= n
    ensures var out, last := AtRows(AtReplay(None, false, seed), rows, at, n), w.hist[idx[|idx| - 1]].final;
            && last < |truth|
            && (BookWrongAt(truth, last, Book(last, out.sides), r, s, p) <==>
                  BookWrongAt(truth, n, Book(n, seed), r, s, p) && !ListedIn(DiffsAt(w, idx), s, p))
  {
    hide Valid, AtRows, Untrimmed, Describes, AllDescribe, AllPositive, Chained, BookWrongAt, ListedIn, RelevantRows;
    ClearFlagChainsIff(w, idx, rows, at, n, seed);
    SeekFolds(w, idx, rows, at, n, seed);
    WrongExactlyWhereUnlisted(truth, n, seed, DiffsAt(w, idx), r, s, p);
  }

  /** THE EXACT CONDITION FOR A SEEK, ANY SEED. Whatever rows are read: for every exchange the applied diffs describe
      and every seed, the book is exact just when those diffs list every price the seed was wrong about - if and only
      if the gap flag is clear and the first of them starts no later than the snapshot. */
  lemma SeekSeedDecidesIff(w: World, idx: seq<nat>, rows: seq<Row>, at: int, n: nat, seed: Sides)
    requires Valid(w) && TapeOf(w, idx, RelevantRows(rows, at, n)) && idx != []
    ensures !AtRows(AtReplay(None, false, seed), rows, at, n).gap && w.hist[idx[0]].prev <= n <==>
            SeekDecidedBySeed(DiffsAt(w, idx), rows, at, n)
  {
    hide Valid, Describes, AtRows, RelevantRows, Chained, DecidedBySeed, SeekDecidedBySeed;
    ClearFlagChainsIff(w, idx, rows, at, n, seed);
    TapedInOrder(w, idx, RelevantRows(rows, at, n));
    ChainedIffDecidedBySeed(w.truth, [], n, DiffsAt(w, idx));
    SeekDecidedAsReplayed(w, idx, rows, at, n);
  }

  lemma SeekDecidedAsReplayed(w: World, idx: seq<nat>, rows: seq<Row>, at: int, n: nat)
    requires TapeOf(w, idx, RelevantRows(rows, at, n)) && idx != []
    ensures SeekDecidedBySeed(DiffsAt(w, idx), rows, at, n) <==> DecidedBySeed([], n, DiffsAt(w, idx))
  {
    hide Describes, AtRows, Untrimmed, AllPositive, RelevantRows, ErrorsListed, SidesExact, BookExact;
    var ds := DiffsAt(w, idx);
    forall truth: seq<Sides>, seed, r
      ensures Untrimmed(Book(n, seed), ds) ==
              Book(ds[|ds| - 1].final, AtRows(AtReplay(None, false, seed), rows, at, n).sides)
      ensures BookExact(truth, Untrimmed(Book(n, seed), ds), r) <==>
              SidesExact(truth, ds[|ds| - 1].final, AtRows(AtReplay(None, false, seed), rows, at, n).sides, r)
    {
      SeekFolds(w, idx, rows, at, n, seed);
      BookIsSides(truth, ds[|ds| - 1].final, AtRows(AtReplay(None, false, seed), rows, at, n).sides, r);
    }
  }

  // ---------------------------------------------------------------- the live book as a seed

  /** One side written out under a stamp and an id, best price first. */
  ghost predicate WritesSide(rows: seq<SnapRow>, s: Side, m: Levels, id: nat, now: int) {
    && (forall i :: 0 <= i < |rows| ==>
          && rows[i].ts == Some(now) && rows[i].id == Some(id) && rows[i].isBid == (s == Bid) && rows[i].readable
          && rows[i].price in m && rows[i].qty == m[rows[i].price])
    && (forall i, j :: 0 <= i < j < |rows| ==> Rank(s, rows[i].price) < Rank(s, rows[j].price))
    && (forall p :: p in m ==> exists i :: 0 <= i < |rows| && rows[i].price == p)
  }

  /** A book written out: its bids, then its asks. */
  ghost predicate WritesBook(rows: seq<SnapRow>, b: Book, now: int) {
    exists k :: 0 <= k <= |rows| && WritesSide(rows[..k], Bid, b.sides.bids, b.id, now)
                && WritesSide(rows[k..], Ask, b.sides.asks, b.id, now)
  }

  method WriteSide(s: Side, m: Levels, id: nat, now: int) returns (rows: seq<SnapRow>)
    ensures WritesSide(rows, s, m, id, now)
  {
    var prices := SortPrices(s, m.Keys);
    assert forall i :: 0 <= i < |prices| ==> prices[i] in prices;
    rows := [];
    for i := 0 to |prices|
      invariant |rows| == i
      invariant forall j :: 0 <= j < i ==>
                  rows[j] == SnapRow(Some(now), Some(id), s == Bid, prices[j], m[prices[j]], true)
    {
      rows := rows + [SnapRow(Some(now), Some(id), s == Bid, prices[i], m[prices[i]], true)];
    }
    forall p | p in m ensures exists i :: 0 <= i < |rows| && rows[i].price == p {
      var i :| 0 <= i < |prices| && prices[i] == p;
      assert rows[i].price == p;
    }
  }

  /** The periodic snapshot: the book in memory written out under its own id, not a fresh response. */
  method WriteCurrentSnapshot(book: Orderbook?, now: int) returns (rows: seq<SnapRow>)
    ensures book == null ==> rows == []
    ensures book != null ==> WritesBook(rows, book.Value(), now)
  {
    hide WritesSide;
    if book == null {
      return [];
    }
    var bids := WriteSide(Bid, book.bids, book.lastUpdateId, now);
    var asks := WriteSide(Ask, book.asks, book.lastUpdateId, now);
    rows := bids + asks;
    assert rows[..|bids|] == bids && rows[|bids|..] == asks;
  }

  lemma WrittenRow(rows: seq<SnapRow>, b: Book, now: int, i: nat)
    requires WritesBook(rows, b, now) && i < |rows|
    ensures rows[i].ts == Some(now) && rows[i].id == Some(b.id) && rows[i].readable && RowOf(b.sides, rows[i])
  {
    var k :| 0 <= k <= |rows| && WritesSide(rows[..k], Bid, b.sides.bids, b.id, now)
             && WritesSide(rows[k..], Ask, b.sides.asks, b.id, now);
    assert rows[i] == if i < k then rows[..k][i] else rows[k..][i - k];
  }

  lemma WrittenAt(rows: seq<SnapRow>, s: Side, m: Levels, id: nat, now: int, p: int) returns (i: nat)
    requires WritesSide(rows, s, m, id, now) && p in m
    ensures i < |rows| && IsAt(rows[i], s, p)
  {
    i :| 0 <= i < |rows| && rows[i].price == p;
  }

  lemma WrittenLevel(rows: seq<SnapRow>, b: Book, now: int, s: Side, p: int) returns (i: nat)
    requires WritesBook(rows, b, now) && p in b.sides.Of(s)
    ensures i < |rows| && IsAt(rows[i], s, p)
  {
    hide WritesSide, IsAt;
    var k :| 0 <= k <= |rows| && WritesSide(rows[..k], Bid, b.sides.bids, b.id, now)
             && WritesSide(rows[k..], Ask, b.sides.asks, b.id, now);
    if s == Bid {
      i := WrittenAt(rows[..k], Bid, b.sides.bids, b.id, now, p);
    } else {
      var j := WrittenAt(rows[k..], Ask, b.sides.asks, b.id, now, p);
      assert rows[k..][j] == rows[k + j];
      i := k + j;
    }
  }

  /** Such a snapshot loads as the very book, from among the rows of any number of other snapshots. */
  lemma WrittenBookLoads(snaps: seq<SnapRow>, wanted: SnapRow -> bool, rows: seq<SnapRow>, b: Book, now: int)
    requires WritesBook(rows, b, now)
    requires forall i :: 0 <= i < |snaps| && wanted(snaps[i]) ==> snaps[i] in rows
    requires forall i :: 0 <= i < |rows| ==> rows[i] in snaps && wanted(rows[i])
    ensures SeedSides(snaps, wanted) == b.sides && AllReadable(snaps, wanted)
  {
    hide WritesBook, RowOf, IsAt;
    forall i | 0 <= i < |snaps| && wanted(snaps[i]) ensures RowOf(b.sides, snaps[i]) && snaps[i].readable {
      var j :| 0 <= j < |rows| && rows[j] == snaps[i];
      WrittenRow(rows, b, now, j);
    }
    forall s: Side, p | p in b.sides.Of(s) ensures HasRow(snaps, wanted, s, p) {
      var j := WrittenLevel(rows, b, now, s, p);
      var i :| 0 <= i < |snaps| && snaps[i] == rows[j];
      assert wanted(snaps[i]) && IsAt(snaps[i], s, p);
    }
    SeedIsWhatWasWritten(b.sides, snaps, wanted);
  }

  /** WHERE DRIFT COMES FROM. Seed the validator with the live book of any run with in-order arrivals, however lossy,
      and quiet sweeps; let the tape show no break and start no later than that book. Then the rebuilt book is wrong
      exactly where the live book was and the tape past it lists nothing: each such price was touched by a diff lost
      since the attach, and listed neither by what the live loop received after that loss nor by the tape. */
  lemma RebuiltFromLive(c: Config, w: World, sent: nat, acts: seq<Action>, idx: seq<nat>, rows: seq<Row>,
                        maxDiffs: nat)
    returns (from: nat, received: seq<nat>)
    requires Valid(w) && Along(c, w, sent, acts, QuietInOrder) && TapeOf(w, idx, rows) && rows != []
    requires var s := Run(c, w, sent, acts); s.phase == Live && s.book.Some?
    requires var b := Run(c, w, sent, acts).book.value;
             var out := ReplayRows(Start(b.sides), rows, Some(b.id), maxDiffs);
             out.breaks == 0 && out.applied < maxDiffs && rows[0].ids.value.0 <= b.id
    ensures var s := Run(c, w, sent, acts); var b := s.book.value;
            var out, last := ReplayRows(Start(b.sides), rows, Some(b.id), maxDiffs),
                             Max(b.id, w.hist[idx[|idx| - 1]].final);
            && 0 < from <= |w.hist| && w.hist[from - 1].final == s.anchor.id
            && InOrder(w, from, received) && DiffsAt(w, received) == s.log
            && b.id < |w.truth| && last < |w.truth|
            && forall side: Side, p ::
                 && (BookWrongAt(w.truth, last, Book(last, out.sides), s.reach, side, p) <==>
                       BookWrongAt(w.truth, b.id, b, s.reach, side, p)
                       && !ListedIn(Past(DiffsAt(w, idx), b.id), side, p))
                 && (BookWrongAt(w.truth, b.id, b, s.reach, side, p) ==> Unrepaired(w, from, received, side, p))
  {
    hide Valid, Along, Run, Describes, AllDescribe, AllPositive, Chained, BookExact, Fold, FoldReach, FromSnapshot;
    hide Unrepaired, BookWrongAt, ListedIn, Past, ReplayRows;
    from, received := LiveSelfHealing(c, w, sent, acts);
    var s := Run(c, w, sent, acts);
    var b := s.book.value;
    TapedInOrder(w, idx, rows);
    NoBreaksChainIff(w, idx, rows, b.id, b.sides, maxDiffs);
    RebuiltWrongIff(w, idx, rows, b.id, maxDiffs, w.truth, b.sides, s.reach, Bid, 0);
    forall side: Side, p
      ensures var out, last := ReplayRows(Start(b.sides), rows, Some(b.id), maxDiffs),
                               Max(b.id, w.hist[idx[|idx| - 1]].final);
              BookWrongAt(w.truth, last, Book(last, out.sides), s.reach, side, p) <==>
                BookWrongAt(w.truth, b.id, b, s.reach, side, p)
                && !ListedIn(Past(DiffsAt(w, idx), b.id), side, p)
    {
      RebuiltWrongIff(w, idx, rows, b.id, maxDiffs, w.truth, b.sides, s.reach, side, p);
    }
  }

  /** The same for a seek: a clear gap flag and a first applied diff that starts no later than the live book's id. */
  lemma SoughtFromLive(c: Config, w: World, sent: nat, acts: seq<Action>, idx: seq<nat>, rows: seq<Row>, at: int)
    returns (from: nat, received: seq<nat>)
    requires Valid(w) && Along(c, w, sent, acts, QuietInOrder) && idx != []
    requires var s := Run(c, w, sent, acts); s.phase == Live && s.book.Some?
    requires var b := Run(c, w, sent, acts).book.value;
             && TapeOf(w, idx, RelevantRows(rows, at, b.id)) && w.hist[idx[0]].prev <= b.id
             && !AtRows(AtReplay(None, false, b.sides), rows, at, b.id).gap
    ensures var s := Run(c, w, sent, acts); var b := s.book.value;
            var out, last := AtRows(AtReplay(None, false, b.sides), rows, at, b.id), w.hist[idx[|idx| - 1]].final;
            && 0 < from <= |w.hist| && w.hist[from - 1].final == s.anchor.id
            && InOrder(w, from, received) && DiffsAt(w, received) == s.log
            && b.id < |w.truth| && last < |w.truth|
            && forall side: Side, p ::
                 && (BookWrongAt(w.truth, last, Book(last, out.sides), s.reach, side, p) <==>
                       BookWrongAt(w.truth, b.id, b, s.reach, side, p) && !ListedIn(DiffsAt(w, idx), side, p))
                 && (BookWrongAt(w.truth, b.id, b, s.reach, side, p) ==> Unrepaired(w, from, received, side, p))
  {
    hide Valid, Along, Run, Describes, AllDescribe, AllPositive, Chained, BookExact, Fold, FoldReach, FromSnapshot;
    hide Unrepaired, BookWrongAt, ListedIn, AtRows, RelevantRows;
    from, received := LiveSelfHealing(c, w, sent, acts);
    var s := Run(c, w, sent, acts);
    var b := s.book.value;
    TapedInOrder(w, idx, RelevantRows(rows, at, b.id));
    SoughtWrongIff(w, idx, rows, at, b.id, w.truth, b.sides, s.reach, Bid, 0);
    forall side: Side, p
      ensures var out, last := AtRows(AtReplay(None, false, b.sides), rows, at, b.id), w.hist[idx[|idx| - 1]].final;
              BookWrongAt(w.truth, last, Book(last, out.sides), s.reach, side, p) <==>
                BookWrongAt(w.truth, b.id, b, s.reach, side, p) && !ListedIn(DiffsAt(w, idx), side, p)
    {
      SoughtWrongIff(w, idx, rows, at, b.id, w.truth, b.sides, s.reach, side, p);
    }
  }

  // A bid at 100 disappears at id 2; the diff that says so is lost, and nothing lists that price again.
  const DRIFT_TRUTH: seq<Sides> := [WITH_BID, WITH_BID, QUIET, QUIET, QUIET]
  const DRIFT_WORLD := World(DRIFT_TRUTH, [Diff(1, 1, 0, 0, [], []), Diff(2, 2, 1, 0, [Level(100, 0)], []),
                                           Diff(3, 3, 2, 0, [], []), Diff(4, 4, 3, 0, [], [])])
  const DRIFT_ROW := Row(Some(0), Some((3, 4)), [], [], false)

  lemma QuietDiff(truth: seq<Sides>, n: nat)
    requires n + 1 < |truth| && truth[n] == truth[n + 1]
    ensures Describes(truth, Diff(n + 1, n + 1, n, 0, [], []))
  {
  }

  lemma DeletingDiff()
    ensures Describes(DRIFT_TRUTH, Diff(2, 2, 1, 0, [Level(100, 0)], []))
  {
    var d := Diff(2, 2, 1, 0, [Level(100, 0)], []);
    assert d.bids[0].price == 100;
    assert Lists(d.Of(Bid), 100);
    assert Truthful(d.Of(Bid), DRIFT_TRUTH[2].Of(Bid)) && Truthful(d.Of(Ask), DRIFT_TRUTH[2].Of(Ask));
  }

  lemma DriftWorldIsValid()
    ensures Valid(DRIFT_WORLD)
  {
    forall n, s: Side | 0 <= n < |DRIFT_TRUTH| ensures Positive(DRIFT_TRUTH[n].Of(s)) {}
    QuietDiff(DRIFT_TRUTH, 0);
    DeletingDiff();
    QuietDiff(DRIFT_TRUTH, 2);
    QuietDiff(DRIFT_TRUTH, 3);
    hide Describes;
  }

  lemma OneBidKept(depth: nat)
    requires depth > 0
    ensures RestSnapshot(DRIFT_TRUTH, 0, depth) == Book(0, WITH_BID)
    ensures forall id: nat, d: Diff :: d.bids == [] && d.asks == [] ==>
              ApplyDiff(Book(id, WITH_BID), d, depth) == Book(d.final, WITH_BID)
  {
    var only: Levels := map[100 := 1];
    assert only.Keys == {100} && |only| == |only.Keys| == 1;
    KeptWhole(Bid, only, depth);
    KeptWhole(Ask, map[], depth);
  }

  /** Fetch the snapshot at id `n` and drain the first diff. */
  lemma FirstDrained(c: Config, w: World, n: nat, b: Book) returns (acts: seq<Action>)
    requires c.capacity > 0 && n < |w.truth| && w.hist != [] && RestSnapshot(w.truth, n, c.depth) == b
    ensures var s := Run(c, w, 0, acts);
            && Along(c, w, 0, acts, QuietInOrder) && s.phase == Syncing && s.task == Draining([w.hist[0]])
            && s.book == Some(b) && s.ring == [] && s.pending == [] && s.sent == 1
  {
    hide Run, Along, Push, RestSnapshot, SnapshotReach, Receive, BridgeStep, AttachStep;
    acts := [];
    NoActions(c, w);
    OneMore(c, w, acts, BeginFetch);
    acts := acts + [BeginFetch];
    OneMore(c, w, acts, Snapshot(n));
    acts := acts + [Snapshot(n)];
    OneMore(c, w, acts, Stored(true));
    acts := acts + [Stored(true)];
    OneMore(c, w, acts, Arrive(0, 0));
    acts := acts + [Arrive(0, 0)];
    PushOne(c, w.hist[0], 0);
    OneMore(c, w, acts, DrainForAttach);
    acts := acts + [DrainForAttach];
  }

  /** Attach a single drained diff that starts at the book's id, and go Live. */
  lemma OneDiffLive(c: Config, w: World, before: seq<Action>, b: Book, d: Diff, after: Book)
    returns (acts: seq<Action>)
    requires d.prev == b.id && d.prev < d.first <= d.final && ApplyDiff(b, d, c.depth) == after
    requires var s := Run(c, w, 0, before);
             && Along(c, w, 0, before, QuietInOrder) && s.phase == Syncing && s.task == Draining([d])
             && s.book == Some(b) && s.ring == [] && s.pending == []
    ensures var s := Run(c, w, 0, acts);
            && Along(c, w, 0, acts, QuietInOrder) && s.phase == Live && s.book == Some(after)
            && s.ring == [] && s.pending == [] && s.sent == Run(c, w, 0, before).sent
  {
    hide Run, Along, BridgeStep, ApplyDiff, ReachAfter, QuietInOrder, Push, RestSnapshot, SnapshotReach;
    OneDiffBridges(Run(c, w, 0, before), d);
    OneMore(c, w, before, RunAttach);
    acts := before + [RunAttach];
    OneMore(c, w, acts, AttachNext);
    acts := acts + [AttachNext];
    OneMore(c, w, acts, Promote);
    acts := acts + [Promote];
  }

  /** One later diff arrives, whatever was lost before it, and is applied. */
  lemma OneDiffReceived(c: Config, w: World, before: seq<Action>, b: Book, i: nat, after: Book)
    returns (acts: seq<Action>)
    requires c.capacity > 0 && i < |w.hist| && ApplyDiff(b, w.hist[i], c.depth) == after
    requires var s := Run(c, w, 0, before);
             && Along(c, w, 0, before, QuietInOrder) && s.phase == Live && s.book == Some(b)
             && s.ring == [] && s.pending == [] && s.sent <= i
    ensures var s := Run(c, w, 0, acts);
            Along(c, w, 0, acts, QuietInOrder) && s.phase == Live && s.book == Some(after)
  {
    hide Run, Along, Push, ApplyDiff, ReachAfter, BridgeStep, AttachStep;
    acts := before;
    OneMore(c, w, acts, Arrive(i, 0));
    acts := acts + [Arrive(i, 0)];
    PushOne(c, w.hist[i], 0);
    OneMore(c, w, acts, ListLive);
    acts := acts + [ListLive];
    OneMore(c, w, acts, DrainLive);
    acts := acts + [DrainLive];
    OneMore(c, w, acts, ApplyLive);
    acts := acts + [ApplyLive];
  }

  lemma DriftHistory()
    ensures |DRIFT_WORLD.hist| == 4 && |DRIFT_TRUTH| == 5 && DRIFT_WORLD.truth == DRIFT_TRUTH
    ensures DRIFT_WORLD.hist[0] == Diff(1, 1, 0, 0, [], []) && DRIFT_WORLD.hist[2] == Diff(3, 3, 2, 0, [], [])
  {
  }

  /** Attach the first diff to the snapshot at id 0, lose the second and receive the third. */
  lemma DriftRun(c: Config) returns (acts: seq<Action>)
    requires c.depth > 0 && c.capacity > 0
    ensures var s := Run(c, DRIFT_WORLD, 0, acts);
            && Along(c, DRIFT_WORLD, 0, acts, QuietInOrder) && s.phase == Live && s.book == Some(Book(3, WITH_BID))
  {
    OneBidKept(c.depth);
    DriftHistory();
    hide *;
    acts := FirstDrained(c, DRIFT_WORLD, 0, Book(0, WITH_BID));
    acts := OneDiffLive(c, DRIFT_WORLD, acts, Book(0, WITH_BID), DRIFT_WORLD.hist[0], Book(1, WITH_BID));
    acts := OneDiffReceived(c, DRIFT_WORLD, acts, Book(1, WITH_BID), 2, Book(3, WITH_BID));
  }

  lemma GhostBid(r: Reach)
    ensures !SidesExact(DRIFT_TRUTH, 4, WITH_BID, r)
  {
    assert 100 in WITH_BID.Of(Bid) && 100 !in DRIFT_TRUTH[4].Of(Bid);
    assert !Exact(Bid, WITH_BID.Of(Bid), DRIFT_TRUTH[4].Of(Bid), r.Of(Bid));
  }

  /** A clean tape does not mend a drifted seed. One diff is lost while Live; the live book, written out at id 3 and
      replayed over the only later diff, keeps a bid that is gone - with no break, a clear gap flag, and a first row
      that starts at the snapshot's very id. */
  lemma CleanTapeOverDriftedSeed(c: Config) returns (acts: seq<Action>)
    requires c.depth > 0 && c.capacity > 0
    ensures Valid(DRIFT_WORLD) && TapeOf(DRIFT_WORLD, [3], [DRIFT_ROW])
    ensures Along(c, DRIFT_WORLD, 0, acts, QuietInOrder)
    ensures var s := Run(c, DRIFT_WORLD, 0, acts); s.phase == Live && s.book == Some(Book(3, WITH_BID))
    ensures var out := ReplayRows(Start(WITH_BID), [DRIFT_ROW], Some(3), 200_000);
            out.breaks == 0 && out.applied == 1 && forall r :: !SidesExact(DRIFT_TRUTH, 4, out.sides, r)
    ensures var out := AtRows(AtReplay(None, false, WITH_BID), [DRIFT_ROW], 0, 3);
            !out.gap && out.lastU == Some(4) && forall r :: !SidesExact(DRIFT_TRUTH, 4, out.sides, r)
  {
    hide Run, Along, Valid, SidesExact;
    DriftWorldIsValid();
    acts := DriftRun(c);
    DriftRebuilt();
    forall r ensures !SidesExact(DRIFT_TRUTH, 4, WITH_BID, r) { GhostBid(r); }
  }

  lemma DriftRebuilt()
    ensures var out := ReplayRows(Start(WITH_BID), [DRIFT_ROW], Some(3), 200_000);
            out.breaks == 0 && out.applied == 1 && out.sides == WITH_BID
    ensures var out := AtRows(AtReplay(None, false, WITH_BID), [DRIFT_ROW], 0, 3);
            !out.gap && out.lastU == Some(4) && out.sides == WITH_BID
  {
    hide Crossed;
    assert [DRIFT_ROW][..0] == [];
    assert ReplayRows(Start(WITH_BID), [], Some(3), 200_000) == Start(WITH_BID);
    AtOneRow(AtReplay(None, false, WITH_BID), DRIFT_ROW, 0, 3);
  }
}
