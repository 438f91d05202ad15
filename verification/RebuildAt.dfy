/** Rebuilding the book as of an instant: newest snapshot at or before it, then the diffs up to it, opening only
    the hourly files whose names overlap that window. */
module RebuildAt {
  import opened Basics
  import opened Ladder
  import opened Exchange
  import opened Chains
  import opened Rebuild

  const HOUR := 3_600_000

  /** An hourly update file: the hour its name encodes (milliseconds), or none if the name does not say. */
  datatype UpdFile = UpdFile(hour: Option<int>, rows: seq<Row>)

  /** The file the writer appends a row stamped `ts` to is named for this hour. */
  function HourOf(ts: int): int {
    ts - ts % HOUR
  }

  function Overlaps(hour: Option<int>, at: int, snapTs: int): bool {
    hour.None? || (hour.value <= at && hour.value + HOUR > snapTs)
  }

  // ---------------------------------------------------------------- choosing the snapshot

  /** The stamp of a snapshot row usable at `at`: written no later, both fields readable. */
  function Stamp(r: SnapRow, at: int): Option<(int, nat)> {
    if r.ts.Some? && r.id.Some? && r.ts.value <= at then Some((r.ts.value, r.id.value)) else None
  }

  predicate Later(a: (int, nat), b: (int, nat)) {
    a.0 > b.0 || (a.0 == b.0 && a.1 > b.1)
  }

  function NewestStamp(rows: seq<SnapRow>, at: int): Option<(int, nat)> {
    if rows == [] then None
    else
      var best, s := NewestStamp(rows[..|rows| - 1], at), Stamp(rows[|rows| - 1], at);
      if s.Some? && (best.None? || Later(s.value, best.value)) then s else best
  }

  /** The rows a seed with this stamp is made of. */
  function StampedRow(at: int, stamp: (int, nat)): SnapRow -> bool {
    (r: SnapRow) => Stamp(r, at) == Some(stamp)
  }

  /** None if and only if no row with both fields readable is stamped at or before `at`, else some such row bears it and
      none has a larger timestamp, or the same timestamp and a larger id. */
  ghost predicate IsLatestStamp(rows: seq<SnapRow>, at: int, stamp: Option<(int, nat)>) {
    && (stamp.None? <==>
          forall i :: 0 <= i < |rows| ==> !(rows[i].ts.Some? && rows[i].id.Some? && rows[i].ts.value <= at))
    && (stamp.Some? ==>
          && stamp.value.0 <= at
          && (exists i :: 0 <= i < |rows| && rows[i].ts == Some(stamp.value.0) && rows[i].id == Some(stamp.value.1))
          && (forall i :: 0 <= i < |rows| && rows[i].ts.Some? && rows[i].id.Some? && rows[i].ts.value <= at ==>
                rows[i].ts.value < stamp.value.0
                || (rows[i].ts.value == stamp.value.0 && rows[i].id.value <= stamp.value.1)))
  }

  lemma {:induction false} NewestStampIsLatest(rows: seq<SnapRow>, at: int)
    ensures IsLatestStamp(rows, at, NewestStamp(rows, at))
  {
    if rows != [] {
      var init, r := rows[..|rows| - 1], rows[|rows| - 1];
      NewestStampIsLatest(init, at);
      assert forall i :: 0 <= i < |init| ==> init[i] == rows[i];
      var best := NewestStamp(init, at);
      if best.Some? {
        var k :| 0 <= k < |init| && init[k].ts == Some(best.value.0) && init[k].id == Some(best.value.1);
        assert rows[k] == init[k];
      }
    }
  }

  // ---------------------------------------------------------------- the replay

  datatype AtReplay = AtReplay(lastU: Option<nat>, gap: bool, sides: Sides)

  /** Rows after the snapshot and at or before the instant. */
  predicate Relevant(r: Row, at: int, n: nat) {
    r.ts.Some? && r.ids.Some? && r.ts.value <= at && r.ids.value.1 > n
  }

  function AtRow(st: AtReplay, r: Row, at: int, n: nat): AtReplay {
    if !Relevant(r, at, n) then st
    else
      var (pu, u) := r.ids.value;
      AtReplay(Some(u), st.gap || (st.lastU.Some? && pu != st.lastU.value),
               Sides(ApplyLevels(st.sides.bids, r.bids), ApplyLevels(st.sides.asks, r.asks)))
  }

  function AtRows(st: AtReplay, rows: seq<Row>, at: int, n: nat): AtReplay {
    if rows == [] then st else AtRow(AtRows(st, rows[..|rows| - 1], at, n), rows[|rows| - 1], at, n)
  }

  function AllRows(files: seq<UpdFile>): seq<Row> {
    if files == [] then [] else AllRows(files[..|files| - 1]) + files[|files| - 1].rows
  }

  /** The rows of the files a seek opens. */
  function OpenedRows(files: seq<UpdFile>, at: int, snapTs: int): seq<Row> {
    if files == [] then []
    else
      var before, f := OpenedRows(files[..|files| - 1], at, snapTs), files[|files| - 1];
      if Overlaps(f.hour, at, snapTs) then before + f.rows else before
  }

  method ReconstructAt(snapFiles: seq<seq<SnapRow>>, files: seq<UpdFile>, at: int)
    returns (done: bool, stamp: Option<(int, nat)>, out: AtReplay)
    ensures stamp == NewestStamp(Flatten(snapFiles), at) && IsLatestStamp(Flatten(snapFiles), at, stamp)
    ensures done == (stamp.None? || AllReadable(Flatten(snapFiles), StampedRow(at, stamp.value)))
    ensures stamp.None? ==> out == AtReplay(None, false, Sides(map[], map[]))
    ensures done && stamp.Some? ==>
              var seed := SeedSides(Flatten(snapFiles), StampedRow(at, stamp.value));
              out == AtRows(AtReplay(None, false, seed), OpenedRows(files, at, stamp.value.0), at, stamp.value.1)
  {
    hide ApplyLevels, SeedSides, AllReadable, IsLatestStamp;
    done, stamp := false, None;
    for f := 0 to |snapFiles|
      invariant stamp == NewestStamp(Flatten(snapFiles[..f]), at)
    {
      FlattenSnoc(snapFiles, f);
      for i := 0 to |snapFiles[f]|
        invariant stamp == NewestStamp(Flatten(snapFiles[..f]) + snapFiles[f][..i], at)
      {
        ConcatSnoc(Flatten(snapFiles[..f]), snapFiles[f], i);
        var s := Stamp(snapFiles[f][i], at);
        if s.Some? && (stamp.None? || Later(s.value, stamp.value)) {
          stamp := s;
        }
      }
    }
    assert snapFiles[..|snapFiles|] == snapFiles;
    NewestStampIsLatest(Flatten(snapFiles), at);
    out := AtReplay(None, false, Sides(map[], map[]));
    if stamp.None? {
      done := true;
      return;
    }
    var seed;
    done, seed := LoadSeed(snapFiles, StampedRow(at, stamp.value));
    if !done {
      return;
    }
    out := Replay(seed, files, at, stamp.value);
  }

  /** The pass over the update files. */
  method Replay(seed: Sides, files: seq<UpdFile>, at: int, stamp: (int, nat)) returns (out: AtReplay)
    ensures out == AtRows(AtReplay(None, false, seed), OpenedRows(files, at, stamp.0), at, stamp.1)
  {
    hide ApplyLevels;
    out := AtReplay(None, false, seed);
    for f := 0 to |files|
      invariant out == AtRows(AtReplay(None, false, seed), OpenedRows(files[..f], at, stamp.0), at, stamp.1)
    {
      ghost var seen := OpenedRows(files[..f], at, stamp.0);
      assert files[..f + 1][..f] == files[..f];
      if !Overlaps(files[f].hour, at, stamp.0) {
        continue;
      }
      assert seen + files[f].rows[..0] == seen;
      for i := 0 to |files[f].rows|
        invariant out == AtRows(AtReplay(None, false, seed), seen + files[f].rows[..i], at, stamp.1)
      {
        ConcatSnoc(seen, files[f].rows, i);
        var r := files[f].rows[i];
        if !Relevant(r, at, stamp.1) {
          continue;
        }
        var (pu, u) := r.ids.value;
        var gap := out.gap || (out.lastU.Some? && pu != out.lastU.value);
        out := AtReplay(Some(u), gap, Sides(ApplyLevels(out.sides.bids, r.bids), ApplyLevels(out.sides.asks, r.asks)));
      }
      assert files[f].rows[..|files[f].rows|] == files[f].rows;
    }
    assert files[..|files|] == files;
  }

  // ---------------------------------------------------------------- skipping files is exact

  function RelevantRows(rows: seq<Row>, at: int, n: nat): seq<Row> {
    if rows == [] then []
    else
      var before, r := RelevantRows(rows[..|rows| - 1], at, n), rows[|rows| - 1];
      if Relevant(r, at, n) then before + [r] else before
  }

  lemma {:induction false} RelevantConcat(a: seq<Row>, b: seq<Row>, at: int, n: nat)
    ensures RelevantRows(a + b, at, n) == RelevantRows(a, at, n) + RelevantRows(b, at, n)
  {
    if b == [] {
      assert a + b == a;
    } else {
      var init := b[..|b| - 1];
      RelevantConcat(a, init, at, n);
      assert (a + b)[..|a + b| - 1] == a + init;
    }
  }

  /** Only the relevant rows matter to a replay. */
  lemma {:induction false} OnlyRelevant(st: AtReplay, rows: seq<Row>, at: int, n: nat)
    ensures AtRows(st, rows, at, n) == AtRows(st, RelevantRows(rows, at, n), at, n)
    ensures forall r :: r in RelevantRows(rows, at, n) ==> Relevant(r, at, n)
  {
    hide ApplyLevels;
    if rows != [] {
      var init, r := rows[..|rows| - 1], rows[|rows| - 1];
      OnlyRelevant(st, init, at, n);
      var before := RelevantRows(init, at, n);
      assert (before + [r])[..|before|] == before;
    }
  }

  ghost predicate NoneRelevant(f: UpdFile, at: int, n: nat) {
    forall i :: 0 <= i < |f.rows| ==> !Relevant(f.rows[i], at, n)
  }

  /** No file the seek leaves closed holds a relevant row. */
  ghost predicate SkipsNothing(files: seq<UpdFile>, at: int, stamp: (int, nat)) {
    forall i :: 0 <= i < |files| && !Overlaps(files[i].hour, at, stamp.0) ==> NoneRelevant(files[i], at, stamp.1)
  }

  lemma {:induction false} NoneRelevantIsEmpty(f: UpdFile, rows: seq<Row>, at: int, n: nat)
    requires rows <= f.rows
    ensures RelevantRows(rows, at, n) == [] <==> forall i :: 0 <= i < |rows| ==> !Relevant(rows[i], at, n)
  {
    if rows != [] {
      var init := rows[..|rows| - 1];
      NoneRelevantIsEmpty(f, init, at, n);
      assert forall i :: 0 <= i < |init| ==> init[i] == rows[i];
    }
  }

  /** A seek replays the very rows a full scan would exactly when no closed file holds a relevant one. */
  lemma {:induction false} SkippingLosesNothingIff(files: seq<UpdFile>, at: int, stamp: (int, nat))
    ensures var seen := RelevantRows(OpenedRows(files, at, stamp.0), at, stamp.1);
            var all := RelevantRows(AllRows(files), at, stamp.1);
            && |seen| <= |all|
            && (seen == all <==> SkipsNothing(files, at, stamp))
  {
    if files != [] {
      var init, f := files[..|files| - 1], files[|files| - 1];
      SkippingLosesNothingIff(init, at, stamp);
      RelevantConcat(OpenedRows(init, at, stamp.0), f.rows, at, stamp.1);
      RelevantConcat(AllRows(init), f.rows, at, stamp.1);
      NoneRelevantIsEmpty(f, f.rows, at, stamp.1);
      SkipsStep(files, at, stamp);
      var o := RelevantRows(OpenedRows(init, at, stamp.0), at, stamp.1);
      var a, x := RelevantRows(AllRows(init), at, stamp.1), RelevantRows(f.rows, at, stamp.1);
      if Overlaps(f.hour, at, stamp.0) {
        assert o + x == a + x ==> o == a by {
          if o + x == a + x { assert |o| == |a|; assert o == (o + x)[..|o|] == (a + x)[..|a|] == a; }
        }
      } else {
        assert o == a + x ==> x == [];
      }
    }
  }

  lemma SkipsStep(files: seq<UpdFile>, at: int, stamp: (int, nat))
    requires files != []
    ensures var init, f := files[..|files| - 1], files[|files| - 1];
            SkipsNothing(files, at, stamp) <==>
              SkipsNothing(init, at, stamp) && (Overlaps(f.hour, at, stamp.0) || NoneRelevant(f, at, stamp.1))
  {
    var init := files[..|files| - 1];
    assert forall i :: 0 <= i < |init| ==> init[i] == files[i];
  }

  /** Every readable row sits in the file the writer's path rule names for its stamp. */
  ghost predicate FiledByHour(files: seq<UpdFile>) {
    forall i, j :: 0 <= i < |files| && files[i].hour.Some? && 0 <= j < |files[i].rows| && files[i].rows[j].ts.Some?
      ==> files[i].hour.value == HourOf(files[i].rows[j].ts.value)
  }

  lemma HourSpans(ts: int)
    ensures HourOf(ts) <= ts < HourOf(ts) + 3_600_000 && HourOf(ts) % 3_600_000 == 0
  {
  }

  /** A row of an hour that ended by the snapshot's stamp is covered by the snapshot. */
  predicate CoveredIfPast(r: Row, snapTs: int, n: nat) {
    r.ts.Some? && r.ids.Some? && HourOf(r.ts.value) + HOUR <= snapTs ==> r.ids.value.1 <= n
  }

  /** What the name test takes for granted. Snapshot rows carry the collector's clock and diffs the exchange's, so
      this is about two clocks - but only across the end of an hour. */
  ghost predicate PastHoursCovered(files: seq<UpdFile>, stamp: (int, nat)) {
    forall i, j :: 0 <= i < |files| && files[i].hour.Some? && 0 <= j < |files[i].rows| ==>
      CoveredIfPast(files[i].rows[j], stamp.0, stamp.1)
  }

  lemma ClosedFileIff(f: UpdFile, at: int, stamp: (int, nat))
    requires stamp.0 <= at && f.hour.Some?
    requires forall j :: 0 <= j < |f.rows| && f.rows[j].ts.Some? ==> f.hour.value == HourOf(f.rows[j].ts.value)
    ensures Overlaps(f.hour, at, stamp.0) || NoneRelevant(f, at, stamp.1) <==>
            forall j :: 0 <= j < |f.rows| ==> CoveredIfPast(f.rows[j], stamp.0, stamp.1)
  {
    forall j | 0 <= j < |f.rows| && f.rows[j].ts.Some?
      ensures f.hour.value <= f.rows[j].ts.value < f.hour.value + HOUR {
      HourSpans(f.rows[j].ts.value);
    }
    hide HourOf;
    if NoneRelevant(f, at, stamp.1) {
      forall j | 0 <= j < |f.rows| ensures CoveredIfPast(f.rows[j], stamp.0, stamp.1) {
        assert !Relevant(f.rows[j], at, stamp.1);
      }
    }
    if forall j :: 0 <= j < |f.rows| ==> CoveredIfPast(f.rows[j], stamp.0, stamp.1) {
      forall j | 0 <= j < |f.rows| && !Overlaps(f.hour, at, stamp.0) ensures !Relevant(f.rows[j], at, stamp.1) {
        assert CoveredIfPast(f.rows[j], stamp.0, stamp.1);
      }
    }
  }

  /** With rows filed by the hour of their stamp, a seek replays the very rows a full scan would if and only if every
      row of an hour that ended by the snapshot's stamp is covered by the snapshot. */
  lemma SkippingIsExactIff(files: seq<UpdFile>, at: int, stamp: (int, nat))
    requires FiledByHour(files) && stamp.0 <= at
    ensures RelevantRows(OpenedRows(files, at, stamp.0), at, stamp.1) == RelevantRows(AllRows(files), at, stamp.1) <==>
            PastHoursCovered(files, stamp)
  {
    hide RelevantRows, OpenedRows, AllRows, NoneRelevant, CoveredIfPast;
    SkippingLosesNothingIff(files, at, stamp);
    forall i | 0 <= i < |files| && files[i].hour.Some?
      ensures Overlaps(files[i].hour, at, stamp.0) || NoneRelevant(files[i], at, stamp.1) <==>
              forall j :: 0 <= j < |files[i].rows| ==> CoveredIfPast(files[i].rows[j], stamp.0, stamp.1)
    {
      ClosedFileIff(files[i], at, stamp);
    }
  }

  /** FILE SKIPPING IS EXACT. Under those two conditions the seek gives the book and the gap flag of a replay of
      every file. */
  lemma FileSkippingIsExact(files: seq<UpdFile>, at: int, stamp: (int, nat), seed: Sides)
    requires FiledByHour(files) && PastHoursCovered(files, stamp) && stamp.0 <= at
    ensures AtRows(AtReplay(None, false, seed), OpenedRows(files, at, stamp.0), at, stamp.1)
         == AtRows(AtReplay(None, false, seed), AllRows(files), at, stamp.1)
  {
    hide PastHoursCovered, FiledByHour, AtRows, RelevantRows, OpenedRows, AllRows;
    SkippingIsExactIff(files, at, stamp);
    OnlyRelevant(AtReplay(None, false, seed), OpenedRows(files, at, stamp.0), at, stamp.1);
    OnlyRelevant(AtReplay(None, false, seed), AllRows(files), at, stamp.1);
  }

  /** The stamp a seek chooses is never later than its instant. */
  lemma {:induction false} StampNotAfter(rows: seq<SnapRow>, at: int)
    ensures NewestStamp(rows, at).Some? ==> NewestStamp(rows, at).value.0 <= at
  {
    if rows != [] { StampNotAfter(rows[..|rows| - 1], at); }
  }

  lemma AtOneRow(st: AtReplay, r: Row, at: int, n: nat)
    ensures AtRows(st, [r], at, n) == AtRow(st, r, at, n)
  {
    assert [r][..0] == [];
    assert AtRows(st, [], at, n) == st;
  }

  // A diff stamped one millisecond before the hour, newer than a snapshot stamped on the hour.
  const EARLY_ROW := Row(Some(HOUR - 1), Some((3, 5)), [Level(100, 1)], [], false)
  const EARLY_FILE := UpdFile(Some(0), [EARLY_ROW])

  /** The clock condition is needed: without it a seek can drop a diff that a full replay applies. */
  lemma ClockSkewLosesDiffs()
    ensures FiledByHour([EARLY_FILE]) && !PastHoursCovered([EARLY_FILE], (HOUR, 3))
    ensures var st := AtReplay(None, false, Sides(map[], map[]));
            AtRows(st, OpenedRows([EARLY_FILE], HOUR, HOUR), HOUR, 3) != AtRows(st, AllRows([EARLY_FILE]), HOUR, 3)
  {
    var files, st := [EARLY_FILE], AtReplay(None, false, Sides(map[], map[]));
    assert files[..0] == [];
    assert OpenedRows(files, HOUR, HOUR) == [];
    assert AllRows(files) == [EARLY_ROW];
    AtOneRow(st, EARLY_ROW, HOUR, 3);
    assert !CoveredIfPast(files[0].rows[0], HOUR, 3);
  }

  // ---------------------------------------------------------------- the gap flag and the junction

  lemma {:induction false} AtRowsState(st: AtReplay, w: World, idx: seq<nat>, rows: seq<Row>, at: int, n: nat)
    requires Valid(w) && TapeOf(w, idx, rows) && (forall r :: r in rows ==> Relevant(r, at, n))
    requires st.lastU == None && !st.gap
    ensures var out := AtRows(st, rows, at, n);
            && out.lastU == (if idx == [] then None else Some(w.hist[idx[|idx| - 1]].final))
            && (out.gap <==> MissingRuns(idx) != {})
    decreases |idx|
  {
    hide ApplyLevels, MissingRuns;
    if idx == [] {
      NoRuns(idx);
    } else {
      var init, row := idx[..|idx| - 1], rows[|rows| - 1];
      TapeInit(w, idx, rows);
      AtRowsState(st, w, init, rows[..|rows| - 1], at, n);
      assert RowIs(row, w.hist[idx[|idx| - 1]]);
      assert row in rows;
      if |idx| == 1 {
        NoRuns(idx);
        NoRuns(init);
      } else {
        MissingRunsStep(idx);
        ChainedIffNext(w, idx[|idx| - 2], idx[|idx| - 1]);
      }
    }
  }

  lemma {:induction false} AtRowsExact(w: World, a: nat, rows: seq<Row>, at: int, n: nat, seed: Sides, r: Reach)
    requires Valid(w) && ContiguousTape(w, a, rows) && rows != [] && w.hist[a].prev <= n <= w.hist[a].final
    requires (forall x :: x in rows ==> Relevant(x, at, n)) && SidesExact(w.truth, n, seed, r)
    ensures SidesExact(w.truth, w.hist[a + |rows| - 1].final, AtRows(AtReplay(None, false, seed), rows, at, n).sides, r)
    decreases |rows|
  {
    hide Valid, Describes, ApplyLevels, SidesExact;
    var init, row, d := rows[..|rows| - 1], rows[|rows| - 1], w.hist[a + |rows| - 1];
    assert RowIs(row, d) && row in rows;
    DescribedAt(w, a + |rows| - 1);
    var before := AtRows(AtReplay(None, false, seed), init, at, n);
    if |rows| == 1 {
      assert init == [];
      RowExact(w.truth, n, d, seed, r);
    } else {
      assert forall k :: 0 <= k < |init| ==> RowIs(init[k], w.hist[a + k]);
      assert forall x :: x in init ==> x in rows;
      AtRowsExact(w, a, init, at, n, seed, r);
      LinkOf(w, a + |rows| - 1);
      RowExact(w.truth, d.prev, d, before.sides, r);
    }
  }

  /** The gap flag says exactly whether diffs are missing between the first and the last row applied. With it
      clear and a first applied diff that starts no later than the snapshot, the book is exact. */
  lemma SeekCertificate(w: World, idx: seq<nat>, rows: seq<Row>, at: int, n: nat, seed: Sides, r: Reach)
    requires Valid(w) && TapeOf(w, idx, rows) && rows != [] && (forall x :: x in rows ==> Relevant(x, at, n))
    requires SidesExact(w.truth, n, seed, r)
    ensures var out := AtRows(AtReplay(None, false, seed), rows, at, n);
            && (out.gap <==> MissingRuns(idx) != {})
            && (!out.gap && w.hist[idx[0]].prev <= n ==>
                  SidesExact(w.truth, w.hist[idx[|idx| - 1]].final, out.sides, r))
  {
    hide Valid, ApplyLevels, SidesExact, MissingRuns;
    AtRowsState(AtReplay(None, false, seed), w, idx, rows, at, n);
    if MissingRuns(idx) == {} && w.hist[idx[0]].prev <= n {
      NoRunsIsContiguous(idx);
      assert forall k :: 0 <= k < |rows| ==> RowIs(rows[k], w.hist[idx[0] + k]);
      assert rows[0] in rows && RowIs(rows[0], w.hist[idx[0]]);
      AtRowsExact(w, idx[0], rows, at, n, seed, r);
    }
  }

  /** From files to book, the seed's rows being those the code picks; `Reports.FilesToBook` says which they are. */
  lemma StampedFilesToBook(w: World, idx: seq<nat>, snaps: seq<SnapRow>, files: seq<UpdFile>, at: int,
                           stamp: (int, nat), r: Reach)
    requires Valid(w) && NewestStamp(snaps, at) == Some(stamp) && stamp.1 < |w.truth|
    requires FiledByHour(files) && PastHoursCovered(files, stamp)
    requires TapeOf(w, idx, RelevantRows(AllRows(files), at, stamp.1))
    requires RowsOf(w.truth[stamp.1], snaps, StampedRow(at, stamp))
    requires forall s: Side, p :: p in w.truth[stamp.1].Of(s) && Covers(s, r.Of(s), p) ==>
               HasRow(snaps, StampedRow(at, stamp), s, p)
    ensures var seed := SeedSides(snaps, StampedRow(at, stamp));
            var out := AtRows(AtReplay(None, false, seed), OpenedRows(files, at, stamp.0), at, stamp.1);
            && (out.gap <==> MissingRuns(idx) != {})
            && (!out.gap && (idx != [] ==> w.hist[idx[0]].prev <= stamp.1) ==>
                  SidesExact(w.truth, if idx == [] then stamp.1 else w.hist[idx[|idx| - 1]].final, out.sides, r))
  {
    hide Valid, AtRows, RelevantRows, OpenedRows, AllRows, SidesExact, MissingRuns, NewestStamp, RowsOf, HasRow;
    hide SeedSides, FiledByHour, PastHoursCovered;
    StampNotAfter(snaps, at);
    var seed := SeedSides(snaps, StampedRow(at, stamp));
    SeedIsExact(w.truth, stamp.1, snaps, StampedRow(at, stamp), r);
    FileSkippingIsExact(files, at, stamp, seed);
    OnlyRelevant(AtReplay(None, false, seed), AllRows(files), at, stamp.1);
    var relevant := RelevantRows(AllRows(files), at, stamp.1);
    if idx == [] {
      NoRuns(idx);
      NothingRelevant(AtReplay(None, false, seed), relevant, at, stamp.1);
    } else {
      SeekCertificate(w, idx, relevant, at, stamp.1, seed, r);
    }
  }

  lemma NothingRelevant(st: AtReplay, rows: seq<Row>, at: int, n: nat)
    requires rows == []
    ensures AtRows(st, rows, at, n) == st
  {
  }

  /** For every exchange the applied diffs describe, the seek seeded with its book at `n` ends with its book. */
  ghost predicate AlwaysSeeks(ds: seq<Diff>, rows: seq<Row>, at: int, n: nat)
    requires ds != []
  {
    forall truth: seq<Sides> :: AllPositive(truth) && AllDescribe(truth, ds) && n < |truth| ==>
      SidesExact(truth, ds[|ds| - 1].final, AtRows(AtReplay(None, false, truth[n]), rows, at, n).sides, COMPLETE)
  }

  lemma {:induction false} AtRowsApply(w: World, idx: seq<nat>, rows: seq<Row>, at: int, n: nat, seed: Sides)
    requires TapeOf(w, idx, rows) && forall r :: r in rows ==> Relevant(r, at, n)
    ensures AtRows(AtReplay(None, false, seed), rows, at, n).sides == Untrimmed(Book(n, seed), DiffsAt(w, idx)).sides
    decreases |rows|
  {
    hide ApplyLevels, Untrimmed;
    if rows == [] {
      UntrimmedNothing(Book(n, seed));
    } else {
      var init, row := idx[..|idx| - 1], rows[|rows| - 1];
      var d := w.hist[idx[|idx| - 1]];
      TapeInit(w, idx, rows);
      AtRowsApply(w, init, rows[..|rows| - 1], at, n, seed);
      assert RowIs(row, d) && row in rows;
      assert DiffsAt(w, idx) == DiffsAt(w, init) + [d];
      UntrimmedSnoc(Book(n, seed), DiffsAt(w, init), d);
    }
  }

  lemma UntrimmedNothing(b: Book)
    ensures Untrimmed(b, []) == b
  {
  }

  /** The taped diffs chain onto `n` exactly when none is missing in between and the first reaches back to `n`. */
  lemma ChainedIffWhole(w: World, idx: seq<nat>, rows: seq<Row>, n: nat)
    requires Valid(w) && TapeOf(w, idx, rows) && idx != [] && w.hist[idx[0]].final > n
    ensures Chained(n, DiffsAt(w, idx)) <==> MissingRuns(idx) == {} && w.hist[idx[0]].prev <= n
  {
    hide Valid, Describes;
    var ds := DiffsAt(w, idx);
    if MissingRuns(idx) == {} { WholeTapeFollows(w, idx, rows); }
    if MissingRuns(idx) != {} {
      var k := RunMeansBreak(w, idx, rows);
      assert !Follows(ds, k);
    }
  }

  lemma RunMeansBreak(w: World, idx: seq<nat>, rows: seq<Row>) returns (k: nat)
    requires Valid(w) && TapeOf(w, idx, rows) && MissingRuns(idx) != {}
    ensures 0 < k < |idx| && !Follows(DiffsAt(w, idx), k)
  {
    hide Valid;
    var j := RunFollows(idx);
    k := j + 1;
    ChainedIffNext(w, idx[j], idx[k]);
  }

  lemma RunFollows(idx: seq<nat>) returns (j: nat)
    requires MissingRuns(idx) != {} && forall k, l :: 0 <= k < l < |idx| ==> idx[k] < idx[l]
    ensures j + 1 < |idx| && idx[j + 1] > idx[j] + 1
  {
    var i: nat :| i in MissingRuns(idx);
    j :| j < |idx| && idx[j] == i - 1;
    assert idx[j + 1] in idx;
  }

  /** Whatever rows a seek reads: the gap flag is clear and the first applied diff starts no later than the snapshot
      exactly when the applied diffs chain onto the snapshot and onto each other. */
  lemma ClearFlagChainsIff(w: World, idx: seq<nat>, rows: seq<Row>, at: int, n: nat, seed: Sides)
    requires Valid(w) && TapeOf(w, idx, RelevantRows(rows, at, n)) && idx != []
    ensures w.hist[idx[0]].final > n
    ensures !AtRows(AtReplay(None, false, seed), rows, at, n).gap && w.hist[idx[0]].prev <= n <==>
            Chained(n, DiffsAt(w, idx))
  {
    hide Valid, MissingRuns, AtRows, RelevantRows, Chained;
    var relevant := RelevantRows(rows, at, n);
    OnlyRelevant(AtReplay(None, false, seed), rows, at, n);
    AtRowsState(AtReplay(None, false, seed), w, idx, relevant, at, n);
    assert relevant[0] in relevant && RowIs(relevant[0], w.hist[idx[0]]);
    ChainedIffWhole(w, idx, relevant, n);
  }

  /** THE EXACT CONDITION. Whatever rows a seek reads: seeded with the true book, what it rebuilds is right for every
      exchange the applied diffs describe if and only if the gap flag is clear and the first applied diff starts no
      later than the snapshot. */
  lemma SeekCertificateIff(w: World, idx: seq<nat>, rows: seq<Row>, at: int, n: nat, seed: Sides)
    requires Valid(w) && TapeOf(w, idx, RelevantRows(rows, at, n)) && idx != []
    ensures !AtRows(AtReplay(None, false, seed), rows, at, n).gap && w.hist[idx[0]].prev <= n <==>
            AlwaysSeeks(DiffsAt(w, idx), rows, at, n)
  {
    hide Valid, Describes, AtRows, RelevantRows, AlwaysSeeks, Chained, AlwaysRight;
    ClearFlagChainsIff(w, idx, rows, at, n, seed);
    TapedInOrder(w, idx, RelevantRows(rows, at, n));
    ChainedIffAlwaysRight(w.truth, [], n, DiffsAt(w, idx));
    SeeksAsReplayed(w, idx, rows, at, n);
  }

  /** A seek is the fold of the relevant diffs onto its seed, whatever the seed. */
  lemma SeekFolds(w: World, idx: seq<nat>, rows: seq<Row>, at: int, n: nat, seed: Sides)
    requires TapeOf(w, idx, RelevantRows(rows, at, n)) && idx != []
    ensures Untrimmed(Book(n, seed), DiffsAt(w, idx)) ==
            Book(w.hist[idx[|idx| - 1]].final, AtRows(AtReplay(None, false, seed), rows, at, n).sides)
  {
    hide AtRows, Untrimmed, RelevantRows;
    OnlyRelevant(AtReplay(None, false, seed), rows, at, n);
    AtRowsApply(w, idx, RelevantRows(rows, at, n), at, n, seed);
    UntrimmedId(Book(n, seed), DiffsAt(w, idx));
  }

  lemma SeeksAsReplayed(w: World, idx: seq<nat>, rows: seq<Row>, at: int, n: nat)
    requires TapeOf(w, idx, RelevantRows(rows, at, n)) && idx != []
    ensures AlwaysSeeks(DiffsAt(w, idx), rows, at, n) <==> AlwaysRight([], n, DiffsAt(w, idx))
  {
    hide Describes, AtRows, BookExact, Untrimmed, AllPositive, RelevantRows;
    var ds := DiffsAt(w, idx);
    forall truth: seq<Sides> | n < |truth|
      ensures Untrimmed(Book(n, truth[n]), ds) ==
              Book(ds[|ds| - 1].final, AtRows(AtReplay(None, false, truth[n]), rows, at, n).sides)
    {
      SeekFolds(w, idx, rows, at, n, truth[n]);
    }
  }

  // One diff, captured after an uncaptured change: the bid at 100 disappears at id 1.
  const JUNCTION_TRUTH: seq<Sides> := [Sides(map[100 := 1], map[]), Sides(map[], map[]), Sides(map[], map[])]
  const JUNCTION_WORLD := World(JUNCTION_TRUTH, [Diff(1, 1, 0, 0, [Level(100, 0)], []), Diff(2, 2, 1, 0, [], [])])
  const JUNCTION_ROW := Row(Some(0), Some((1, 2)), [], [], false)

  /** The flag does not check the junction: with the diff right after the snapshot missing it stays clear and the
      book is wrong. */
  lemma GapFlagMissesJunction()
    ensures Valid(JUNCTION_WORLD) && TapeOf(JUNCTION_WORLD, [1], [JUNCTION_ROW])
    ensures SidesExact(JUNCTION_TRUTH, 0, JUNCTION_TRUTH[0], COMPLETE)
    ensures var out := AtRows(AtReplay(None, false, JUNCTION_TRUTH[0]), [JUNCTION_ROW], 0, 0);
            !out.gap && out.lastU == Some(2) && forall r :: !SidesExact(JUNCTION_TRUTH, 2, out.sides, r)
  {
    JunctionWorldIsValid();
    var st := AtReplay(None, false, JUNCTION_TRUTH[0]);
    var out := AtRows(st, [JUNCTION_ROW], 0, 0);
    AtOneRow(st, JUNCTION_ROW, 0, 0);
    assert out.sides == JUNCTION_TRUTH[0];
    forall r ensures !SidesExact(JUNCTION_TRUTH, 2, out.sides, r) {
      assert 100 in out.sides.Of(Bid) && 100 !in JUNCTION_TRUTH[2].Of(Bid);
      assert !Exact(Bid, out.sides.Of(Bid), JUNCTION_TRUTH[2].Of(Bid), r.Of(Bid));
    }
  }

  /** Nor does the validator's break count when the tape starts past the snapshot: on the same tape it finds no break
      and rebuilds the same wrong book. */
  lemma LateTapeGoesUnnoticed()
    ensures var out := ReplayRows(Start(JUNCTION_TRUTH[0]), [JUNCTION_ROW], Some(0), 200_000);
            && out.breaks == 0 && out.applied == 1 && out.prevU == Some(2)
            && forall r :: !SidesExact(JUNCTION_TRUTH, 2, out.sides, r)
  {
    var start := Start(JUNCTION_TRUTH[0]);
    assert [JUNCTION_ROW][..0] == [];
    assert ReplayRows(start, [], Some(0), 200_000) == start;
    var out := ReplayRows(start, [JUNCTION_ROW], Some(0), 200_000);
    assert out == ReplayRow(start, JUNCTION_ROW, Some(0), 200_000);
    assert out.sides == JUNCTION_TRUTH[0];
    forall r ensures !SidesExact(JUNCTION_TRUTH, 2, out.sides, r) {
      assert 100 in out.sides.Of(Bid) && 100 !in JUNCTION_TRUTH[2].Of(Bid);
      assert !Exact(Bid, out.sides.Of(Bid), JUNCTION_TRUTH[2].Of(Bid), r.Of(Bid));
    }
  }

  lemma JunctionWorldIsValid()
    ensures Valid(JUNCTION_WORLD)
  {
    forall n, s: Side | 0 <= n < |JUNCTION_TRUTH| ensures Positive(JUNCTION_TRUTH[n].Of(s)) {}
    var d := JUNCTION_WORLD.hist[0];
    assert d.bids[0].price == 100;
    assert Lists(d.Of(Bid), 100);
    forall i | 0 <= i < 2 ensures Describes(JUNCTION_TRUTH, JUNCTION_WORLD.hist[i]) {
      var e := JUNCTION_WORLD.hist[i];
      assert Truthful(e.Of(Bid), JUNCTION_TRUTH[e.final].Of(Bid));
      assert Truthful(e.Of(Ask), JUNCTION_TRUTH[e.final].Of(Ask));
    }
  }
}
