/** What the two rebuilds report, for any rows whatever and said of the rows alone: which rows count, what is counted of
    them, and where the instant cuts. */
module Reports {
  import opened Basics
  import opened Ladder
  import opened Exchange
  import opened Rebuild
  import opened RebuildAt

  predicate InRange(kept: seq<nat>, n: nat) {
    forall i :: 0 <= i < |kept| ==> kept[i] < n
  }

  /** `kept` are the positions of the wanted rows, in order. */
  ghost predicate Picks(rows: seq<Row>, kept: seq<nat>, wanted: Row -> bool) {
    && (forall i :: 0 <= i < |kept| ==> kept[i] < |rows| && wanted(rows[kept[i]]))
    && (forall i, j :: 0 <= i < j < |kept| ==> kept[i] < kept[j])
    && (forall k: nat :: k < |rows| && wanted(rows[k]) ==> k in kept)
  }

  /** A row as a diff; only its levels matter to a replay. */
  function AsDiff(r: Row): Diff {
    var (pu, u) := if r.ids.Some? then r.ids.value else (0, 0);
    Diff(u, u, pu, 0, r.bids, r.asks)
  }

  ghost function Told(rows: seq<Row>, kept: seq<nat>): seq<Diff>
    requires InRange(kept, |rows|)
  {
    seq(|kept|, i requires 0 <= i < |kept| => AsDiff(rows[kept[i]]))
  }

  /** The seed with the levels of the picked rows applied. */
  ghost function BookOf(seed: Sides, rows: seq<Row>, kept: seq<nat>): Sides
    requires InRange(kept, |rows|)
  {
    Untrimmed(Book(0, seed), Told(rows, kept)).sides
  }

  lemma PickLast(rows: seq<Row>, kept: seq<nat>, wanted: Row -> bool) returns (all: seq<nat>)
    requires rows != [] && Picks(rows[..|rows| - 1], kept, wanted)
    ensures Picks(rows, all, wanted) && InRange(kept, |rows| - 1)
    ensures all == if wanted(rows[|rows| - 1]) then kept + [|rows| - 1] else kept
  {
    var m: nat := |rows| - 1;
    all := if wanted(rows[m]) then kept + [m] else kept;
    forall k: nat | k < |rows| && wanted(rows[k]) ensures k in all {
      if k < m { assert rows[..m][k] == rows[k]; }
    }
  }

  lemma PicksSame(rows: seq<Row>, kept: seq<nat>, wanted: Row -> bool, same: Row -> bool)
    requires Picks(rows, kept, wanted) && forall r :: wanted(r) <==> same(r)
    ensures Picks(rows, kept, same)
  {
  }

  lemma BookOfPrefix(seed: Sides, rows: seq<Row>, m: nat, kept: seq<nat>)
    requires m <= |rows| && InRange(kept, m)
    ensures BookOf(seed, rows[..m], kept) == BookOf(seed, rows, kept)
  {
    assert Told(rows[..m], kept) == Told(rows, kept);
  }

  lemma BookOfSnoc(seed: Sides, rows: seq<Row>, kept: seq<nat>, k: nat)
    requires k < |rows| && InRange(kept, |rows|)
    ensures var before, r := BookOf(seed, rows, kept), rows[k];
            BookOf(seed, rows, kept + [k]) == Sides(ApplyLevels(before.bids, r.bids), ApplyLevels(before.asks, r.asks))
  {
    assert Told(rows, kept + [k]) == Told(rows, kept) + [AsDiff(rows[k])];
    UntrimmedSnoc(Book(0, seed), Told(rows, kept), AsDiff(rows[k]));
    hide Untrimmed, ApplyLevels;
  }

  lemma BookOfNothing(seed: Sides, rows: seq<Row>)
    ensures BookOf(seed, rows, []) == seed
  {
  }

  /** The picked row at `i` does not continue the one before it. */
  predicate BreaksAt(rows: seq<Row>, kept: seq<nat>, i: nat)
    requires 0 < i < |kept| && InRange(kept, |rows|)
  {
    var before, r := rows[kept[i - 1]], rows[kept[i]];
    before.ids.Some? && r.ids.Some? && r.ids.value.0 != before.ids.value.1
  }

  // ---------------------------------------------------------------- the seek

  ghost predicate Sought(rows: seq<Row>, seed: Sides, kept: seq<nat>, out: AtReplay)
    requires InRange(kept, |rows|)
  {
    && out.sides == BookOf(seed, rows, kept)
    && out.lastU == (if kept == [] || rows[Last(kept)].ids.None? then None else Some(rows[Last(kept)].ids.value.1))
    && (out.gap <==> exists i :: 0 < i < |kept| && BreaksAt(rows, kept, i))
  }

  lemma SoughtPrefix(rows: seq<Row>, m: nat, seed: Sides, kept: seq<nat>, out: AtReplay)
    requires m <= |rows| && InRange(kept, m) && Sought(rows[..m], seed, kept, out)
    ensures Sought(rows, seed, kept, out)
  {
    BookOfPrefix(seed, rows, m, kept);
    hide BookOf;
    assert forall i :: 0 < i < |kept| ==> (BreaksAt(rows[..m], kept, i) <==> BreaksAt(rows, kept, i));
  }

  lemma SoughtSnoc(rows: seq<Row>, at: int, n: nat, seed: Sides, kept: seq<nat>, m: nat, out: AtReplay)
    requires InRange(kept, |rows|) && m < |rows| && Sought(rows, seed, kept, out)
    requires Sees(rows[m], at, n) && forall i :: 0 <= i < |kept| ==> Sees(rows[kept[i]], at, n)
    ensures Sought(rows, seed, kept + [m], AtRow(out, rows[m], at, n))
  {
    BookOfSnoc(seed, rows, kept, m);
    hide BookOf, ApplyLevels;
    var all := kept + [m];
    assert forall i :: 0 < i < |kept| ==> (BreaksAt(rows, all, i) <==> BreaksAt(rows, kept, i));
    if kept != [] {
      assert all[|kept| - 1] == Last(kept) && all[|kept|] == m;
      assert BreaksAt(rows, all, |kept|) <==> rows[m].ids.value.0 != rows[Last(kept)].ids.value.1;
    }
    assert Last(all) == m;
  }

  predicate Sees(r: Row, at: int, n: nat) {
    r.ts.Some? && r.ids.Some? && r.ts.value <= at && r.ids.value.1 > n
  }

  lemma {:induction false} SeekHolds(rows: seq<Row>, at: int, n: nat, seed: Sides) returns (kept: seq<nat>)
    ensures Picks(rows, kept, (r: Row) => Sees(r, at, n))
    ensures Sought(rows, seed, kept, AtRows(AtReplay(None, false, seed), rows, at, n))
  {
    if rows == [] {
      kept := [];
      BookOfNothing(seed, rows);
    } else {
      hide AtRow, Sought, Sees;
      var m: nat := |rows| - 1;
      var before := SeekHolds(rows[..m], at, n, seed);
      kept := PickLast(rows, before, (r: Row) => Sees(r, at, n));
      var out := AtRows(AtReplay(None, false, seed), rows[..m], at, n);
      SoughtPrefix(rows, m, seed, before, out);
      if Sees(rows[m], at, n) {
        SoughtSnoc(rows, at, n, seed, before, m, out);
      } else {
        Unwanted(out, rows[m], at, n);
      }
    }
  }

  lemma Unwanted(out: AtReplay, r: Row, at: int, n: nat)
    requires !Sees(r, at, n)
    ensures AtRow(out, r, at, n) == out
  {
  }

  /** THE SEEK, ROW BY ROW. For any rows: those that count are exactly the ones whose three fields read, stamped at or
      before the instant, and past the snapshot. The book is the seed with their levels, the last id is the last
      one's, and the flag says that somewhere among them a row does not continue the one before it. */
  lemma SeekIs(rows: seq<Row>, at: int, n: nat, seed: Sides) returns (kept: seq<nat>)
    ensures Picks(rows, kept, (r: Row) => r.ts.Some? && r.ids.Some? && r.ts.value <= at && r.ids.value.1 > n)
    ensures var out := AtRows(AtReplay(None, false, seed), rows, at, n);
            && out.sides == BookOf(seed, rows, kept)
            && out.lastU == (if kept == [] then None else Some(rows[kept[|kept| - 1]].ids.value.1))
            && (out.gap <==>
                  exists i {:trigger kept[i]} ::
                    0 < i < |kept| && rows[kept[i]].ids.value.0 != rows[kept[i - 1]].ids.value.1)
  {
    hide AtRows, BookOf;
    kept := SeekHolds(rows, at, n, seed);
    PicksSame(rows, kept, (r: Row) => Sees(r, at, n),
              (r: Row) => r.ts.Some? && r.ids.Some? && r.ts.value <= at && r.ids.value.1 > n);
    assert forall i :: 0 < i < |kept| ==>
             (BreaksAt(rows, kept, i) <==> rows[kept[i]].ids.value.0 != rows[kept[i - 1]].ids.value.1);
  }

  // ---------------------------------------------------------------- nothing after the instant

  /** The rows not stamped after the instant. */
  function UpTo(rows: seq<Row>, at: int): seq<Row> {
    if rows == [] then []
    else
      var before, r := UpTo(rows[..|rows| - 1], at), rows[|rows| - 1];
      if r.ts.Some? && r.ts.value > at then before else before + [r]
  }

  function SnapsUpTo(rows: seq<SnapRow>, at: int): seq<SnapRow> {
    if rows == [] then []
    else
      var before, r := SnapsUpTo(rows[..|rows| - 1], at), rows[|rows| - 1];
      if r.ts.Some? && r.ts.value > at then before else before + [r]
  }

  lemma {:induction false} UpToConcat(a: seq<Row>, b: seq<Row>, at: int)
    ensures UpTo(a + b, at) == UpTo(a, at) + UpTo(b, at)
  {
    if b == [] {
      assert a + b == a;
    } else {
      UpToConcat(a, b[..|b| - 1], at);
      assert (a + b)[..|a + b| - 1] == a + b[..|b| - 1];
    }
  }

  lemma {:induction false} LaterIgnored(st: AtReplay, rows: seq<Row>, at: int, n: nat)
    ensures AtRows(st, rows, at, n) == AtRows(st, UpTo(rows, at), at, n)
  {
    hide ApplyLevels;
    if rows != [] {
      var init, r := rows[..|rows| - 1], rows[|rows| - 1];
      LaterIgnored(st, init, at, n);
      assert (UpTo(init, at) + [r])[..|UpTo(init, at)|] == UpTo(init, at);
    }
  }

  /** The same hours, and the same rows but for ones stamped after the instant. */
  ghost predicate SameUpTo(files: seq<UpdFile>, others: seq<UpdFile>, at: int) {
    && |files| == |others|
    && forall i :: 0 <= i < |files| ==>
         files[i].hour == others[i].hour && UpTo(files[i].rows, at) == UpTo(others[i].rows, at)
  }

  lemma {:induction false} OpenedSame(files: seq<UpdFile>, others: seq<UpdFile>, at: int, snapTs: int)
    requires SameUpTo(files, others, at)
    ensures UpTo(OpenedRows(files, at, snapTs), at) == UpTo(OpenedRows(others, at, snapTs), at)
  {
    hide UpTo;
    if files != [] {
      var f, g := files[..|files| - 1], others[..|others| - 1];
      OpenedSame(f, g, at, snapTs);
      UpToConcat(OpenedRows(f, at, snapTs), files[|files| - 1].rows, at);
      UpToConcat(OpenedRows(g, at, snapTs), others[|others| - 1].rows, at);
    }
  }

  lemma {:induction false} LaterSnapsIgnored(rows: seq<SnapRow>, at: int, stamp: (int, nat))
    requires stamp.0 <= at
    ensures NewestStamp(rows, at) == NewestStamp(SnapsUpTo(rows, at), at)
    ensures SeedSides(rows, StampedRow(at, stamp)) == SeedSides(SnapsUpTo(rows, at), StampedRow(at, stamp))
    ensures AllReadable(rows, StampedRow(at, stamp)) <==> AllReadable(SnapsUpTo(rows, at), StampedRow(at, stamp))
  {
    hide PutRow;
    if rows != [] {
      var init, r := rows[..|rows| - 1], rows[|rows| - 1];
      LaterSnapsIgnored(init, at, stamp);
      ReadableSplit(init, r, StampedRow(at, stamp));
      ReadableSplit(SnapsUpTo(init, at), r, StampedRow(at, stamp));
      assert rows == init + [r];
      hide AllReadable;
      assert (SnapsUpTo(init, at) + [r])[..|SnapsUpTo(init, at)|] == SnapsUpTo(init, at);
    }
  }

  lemma ReadableSplit(rows: seq<SnapRow>, r: SnapRow, wanted: SnapRow -> bool)
    ensures AllReadable(rows + [r], wanted) <==> AllReadable(rows, wanted) && (wanted(r) ==> r.readable)
  {
    var all := rows + [r];
    assert all[|rows|] == r;
    if AllReadable(all, wanted) {
      forall i | 0 <= i < |rows| && wanted(rows[i]) ensures rows[i].readable { assert all[i] == rows[i]; }
    }
  }

  /** THE INSTANT CUTS. Whatever is stamped after the instant - rows of the files, opened or not, and rows of snapshots
      - makes no difference to the snapshot chosen, the seed, whether it reads, the book, the last id or the flag. */
  lemma NothingLaterMatters(snaps: seq<SnapRow>, otherSnaps: seq<SnapRow>, files: seq<UpdFile>, others: seq<UpdFile>,
                            at: int)
    requires SnapsUpTo(snaps, at) == SnapsUpTo(otherSnaps, at) && SameUpTo(files, others, at)
    ensures NewestStamp(snaps, at) == NewestStamp(otherSnaps, at)
    ensures NewestStamp(snaps, at).Some? ==>
              var stamp := NewestStamp(snaps, at).value;
              var seed, other := SeedSides(snaps, StampedRow(at, stamp)), SeedSides(otherSnaps, StampedRow(at, stamp));
              && seed == other
              && (AllReadable(snaps, StampedRow(at, stamp)) <==> AllReadable(otherSnaps, StampedRow(at, stamp)))
              && AtRows(AtReplay(None, false, seed), OpenedRows(files, at, stamp.0), at, stamp.1) ==
                 AtRows(AtReplay(None, false, other), OpenedRows(others, at, stamp.0), at, stamp.1)
  {
    hide SnapsUpTo, UpTo, SameUpTo, AtRows, OpenedRows, SeedSides, AllReadable, NewestStamp, StampedRow;
    LaterSnapsIgnored(snaps, at, (at, 0));
    LaterSnapsIgnored(otherSnaps, at, (at, 0));
    if NewestStamp(snaps, at).Some? {
      var stamp := NewestStamp(snaps, at).value;
      StampNotAfter(snaps, at);
      LaterSnapsIgnored(snaps, at, stamp);
      LaterSnapsIgnored(otherSnaps, at, stamp);
      OpenedSame(files, others, at, stamp.0);
      var st := AtReplay(None, false, SeedSides(snaps, StampedRow(at, stamp)));
      LaterIgnored(st, OpenedRows(files, at, stamp.0), at, stamp.1);
      LaterIgnored(st, OpenedRows(others, at, stamp.0), at, stamp.1);
    }
  }

  // ---------------------------------------------------------------- the validator

  /** What the levels leave after the row at `i`, if it was read in full. */
  ghost predicate CrossesAfter(seed: Sides, rows: seq<Row>, kept: seq<nat>, i: nat)
    requires InRange(kept, |rows|) && i < |kept|
  {
    var book := BookOf(seed, rows, kept[..i + 1]);
    !rows[kept[i]].broken && exists b, a :: b in book.bids && a in book.asks && b > a
  }

  ghost function Whole(rows: seq<Row>, kept: seq<nat>, j: nat): set<nat>
    requires InRange(kept, |rows|) && j <= |kept|
  {
    set i: nat | i < j && !rows[kept[i]].broken
  }

  ghost function Crossings(seed: Sides, rows: seq<Row>, kept: seq<nat>, j: nat): set<nat>
    requires InRange(kept, |rows|) && j <= |kept|
  {
    set i: nat | i < j && CrossesAfter(seed, rows, kept, i)
  }

  /** The report of a replay that took the first `j` of the rows past the snapshot. */
  ghost predicate Reported(rows: seq<Row>, seed: Sides, max: nat, kept: seq<nat>, j: nat, out: Replay)
    requires InRange(kept, |rows|) && j <= |kept|
  {
    && out.sides == BookOf(seed, rows, kept[..j])
    && out.applied == |Whole(rows, kept, j)| <= max
    && out.crossed == |Crossings(seed, rows, kept, j)|
    && (j < |kept| ==> out.applied == max)
    && (j > 0 ==> |Whole(rows, kept, j - 1)| < max)
  }

  lemma ReportedPrefix(rows: seq<Row>, m: nat, seed: Sides, max: nat, kept: seq<nat>, j: nat, out: Replay)
    requires m <= |rows| && InRange(kept, m) && j <= |kept| && Reported(rows[..m], seed, max, kept, j, out)
    ensures Reported(rows, seed, max, kept, j, out)
  {
    BookOfPrefix(seed, rows, m, kept[..j]);
    forall i: nat | i < j ensures CrossesAfter(seed, rows[..m], kept, i) <==> CrossesAfter(seed, rows, kept, i) {
      BookOfPrefix(seed, rows, m, kept[..i + 1]);
    }
    hide BookOf, CrossesAfter;
    assert Whole(rows[..m], kept, j) == Whole(rows, kept, j);
    assert j > 0 ==> Whole(rows[..m], kept, j - 1) == Whole(rows, kept, j - 1);
    assert Crossings(seed, rows[..m], kept, j) == Crossings(seed, rows, kept, j);
  }

  /** More rows picked after the limit change nothing. */
  lemma ReportedLonger(rows: seq<Row>, seed: Sides, max: nat, kept: seq<nat>, j: nat, m: nat, out: Replay)
    requires InRange(kept, |rows|) && m < |rows| && j <= |kept| && Reported(rows, seed, max, kept, j, out)
    requires out.applied == max
    ensures Reported(rows, seed, max, kept + [m], j, out)
  {
    var all := kept + [m];
    assert all[..j] == kept[..j];
    forall i: nat | i < j ensures CrossesAfter(seed, rows, all, i) <==> CrossesAfter(seed, rows, kept, i) {
      assert all[..i + 1] == kept[..i + 1] && all[i] == kept[i];
    }
    hide BookOf, CrossesAfter;
    assert Whole(rows, all, j) == Whole(rows, kept, j);
    assert j > 0 ==> Whole(rows, all, j - 1) == Whole(rows, kept, j - 1);
    assert Crossings(seed, rows, all, j) == Crossings(seed, rows, kept, j);
  }

  lemma WholeSnoc(rows: seq<Row>, kept: seq<nat>, m: nat)
    requires InRange(kept, |rows|) && m < |rows|
    ensures var all, j := kept + [m], |kept|;
            && Whole(rows, all, j) == Whole(rows, kept, j)
            && Whole(rows, all, j + 1) == (if rows[m].broken then Whole(rows, kept, j) else Whole(rows, kept, j) + {j})
            && |Whole(rows, all, j + 1)| == |Whole(rows, kept, j)| + if rows[m].broken then 0 else 1
  {
    var all, j := kept + [m], |kept|;
    assert j !in Whole(rows, kept, j);
  }

  lemma CrossingsSnoc(seed: Sides, rows: seq<Row>, kept: seq<nat>, m: nat)
    requires InRange(kept, |rows|) && m < |rows|
    ensures var all, j := kept + [m], |kept|;
            |Crossings(seed, rows, all, j + 1)| ==
            |Crossings(seed, rows, kept, j)| + if CrossesAfter(seed, rows, all, j) then 1 else 0
  {
    hide CrossesAfter;
    var all, j := kept + [m], |kept|;
    forall i: nat | i < j ensures CrossesAfter(seed, rows, all, i) <==> CrossesAfter(seed, rows, kept, i) {
      CrossesSame(seed, rows, kept, m, i);
    }
    var before := Crossings(seed, rows, kept, j);
    assert j !in before;
    assert Crossings(seed, rows, all, j + 1) == if CrossesAfter(seed, rows, all, j) then before + {j} else before;
  }

  lemma CrossesSame(seed: Sides, rows: seq<Row>, kept: seq<nat>, m: nat, i: nat)
    requires InRange(kept, |rows|) && m < |rows| && i < |kept|
    ensures CrossesAfter(seed, rows, kept + [m], i) <==> CrossesAfter(seed, rows, kept, i)
  {
    hide BookOf;
    assert (kept + [m])[..i + 1] == kept[..i + 1];
  }

  lemma CrossesNow(seed: Sides, rows: seq<Row>, kept: seq<nat>, m: nat, book: Sides)
    requires InRange(kept, |rows|) && m < |rows| && book == BookOf(seed, rows, kept + [m])
    ensures CrossesAfter(seed, rows, kept + [m], |kept|) <==> !rows[m].broken && Crossed(book)
  {
    hide BookOf;
    var all := kept + [m];
    assert all[..|kept| + 1] == all;
  }

  /** One more row taken. */
  lemma ReportedSnoc(rows: seq<Row>, seed: Sides, max: nat, kept: seq<nat>, m: nat, before: Replay, out: Replay)
    requires InRange(kept, |rows|) && m < |rows| && Reported(rows, seed, max, kept, |kept|, before)
    requires before.applied < max && out == ApplyRow(before, rows[m])
    ensures Reported(rows, seed, max, kept + [m], |kept| + 1, out)
  {
    hide BookOf, CrossesAfter, ApplyLevels, Crossed, Whole, Crossings;
    BookOfSnoc(seed, rows, kept, m);
    assert kept[..|kept|] == kept && (kept + [m])[..|kept| + 1] == kept + [m];
    WholeSnoc(rows, kept, m);
    CrossingsSnoc(seed, rows, kept, m);
    CrossesNow(seed, rows, kept, m, out.sides);
  }

  predicate PastRow(n: Option<nat>, r: Row) {
    n.Some? && r.ids.Some? && r.ids.value.1 > n.value
  }

  lemma {:induction false} ReportHolds(rows: seq<Row>, n: Option<nat>, seed: Sides, max: nat)
    returns (kept: seq<nat>, j: nat)
    ensures Picks(rows, kept, (r: Row) => PastRow(n, r)) && j <= |kept|
    ensures Reported(rows, seed, max, kept, j, ReplayRows(Start(seed), rows, n, max))
  {
    var wanted := (r: Row) => PastRow(n, r);
    if rows == [] {
      kept, j := [], 0;
      BookOfNothing(seed, rows);
    } else {
      hide Reported, CountRow, CheckChain, ApplyRow, ReplayRow, PastRow;
      var m: nat := |rows| - 1;
      var before, i := ReportHolds(rows[..m], n, seed, max);
      kept := PickLast(rows, before, wanted);
      j := i;
      var out := ReplayRows(Start(seed), rows[..m], n, max);
      ReportedPrefix(rows, m, seed, max, before, i, out);
      if !PastRow(n, rows[m]) {
        NotPast(rows, seed, max, before, i, out, rows[m], n);
      } else if out.applied >= max {
        AtLimit(rows, seed, max, before, i, m, out, n);
      } else {
        BelowLimit(rows, seed, max, before, i, m, out, n);
        j := i + 1;
      }
    }
  }

  lemma NotPast(rows: seq<Row>, seed: Sides, max: nat, kept: seq<nat>, j: nat, out: Replay, r: Row, n: Option<nat>)
    requires InRange(kept, |rows|) && j <= |kept| && Reported(rows, seed, max, kept, j, out) && !PastRow(n, r)
    ensures Reported(rows, seed, max, kept, j, ReplayRow(out, r, n, max))
  {
    hide BookOf, Whole, Crossings, ApplyRow;
  }

  lemma AtLimit(rows: seq<Row>, seed: Sides, max: nat, kept: seq<nat>, j: nat, m: nat, out: Replay, n: Option<nat>)
    requires InRange(kept, |rows|) && m < |rows| && j <= |kept| && Reported(rows, seed, max, kept, j, out)
    requires PastRow(n, rows[m]) && out.applied >= max
    ensures Reported(rows, seed, max, kept + [m], j, ReplayRow(out, rows[m], n, max))
  {
    ReportedLonger(rows, seed, max, kept, j, m, out);
    hide BookOf, Whole, Crossings, ApplyRow;
  }

  lemma BelowLimit(rows: seq<Row>, seed: Sides, max: nat, kept: seq<nat>, j: nat, m: nat, out: Replay, n: Option<nat>)
    requires InRange(kept, |rows|) && m < |rows| && j <= |kept| && Reported(rows, seed, max, kept, j, out)
    requires PastRow(n, rows[m]) && out.applied < max
    ensures j == |kept| && Reported(rows, seed, max, kept + [m], j + 1, ReplayRow(out, rows[m], n, max))
  {
    var checked := CheckChain(CountRow(out, rows[m]), rows[m].ids.value.0, rows[m].ids.value.1);
    assert Reported(rows, seed, max, kept, j, checked) by { hide BookOf, Whole, Crossings; }
    ReportedSnoc(rows, seed, max, kept, m, checked, ApplyRow(checked, rows[m]));
    hide BookOf, Whole, Crossings, ApplyRow;
  }

  /** THE VALIDATOR'S COUNTS, ROW BY ROW. For any rows, and whatever does not read: those past the snapshot are taken in
      order until `max` of them have been read in full (`whole`). The book is the seed with the levels of the taken
      ones, torn ones up to the tear; `applied` counts those read in full, and `crossed` those among them after which
      some bid was strictly above some ask. */
  lemma ReportIs(rows: seq<Row>, n: Option<nat>, seed: Sides, max: nat)
    returns (kept: seq<nat>, j: nat, whole: set<nat>, crossings: set<nat>)
    ensures Picks(rows, kept, (r: Row) => n.Some? && r.ids.Some? && r.ids.value.1 > n.value) && j <= |kept|
    ensures forall i: nat :: i in whole <==> i < j && !rows[kept[i]].broken
    ensures forall i: nat :: i in crossings <==>
              i < j && i in whole &&
              var book := BookOf(seed, rows, kept[..i + 1]); exists b, a :: b in book.bids && a in book.asks && b > a
    ensures var out := ReplayRows(Start(seed), rows, n, max);
            && out.sides == BookOf(seed, rows, kept[..j])
            && out.applied == |whole| <= max && out.crossed == |crossings|
            && (j < |kept| ==> |whole| == max) && (j > 0 ==> |whole - {j - 1}| < max)
  {
    hide ReplayRows, BookOf;
    kept, j := ReportHolds(rows, n, seed, max);
    PicksSame(rows, kept, (r: Row) => PastRow(n, r), (r: Row) => n.Some? && r.ids.Some? && r.ids.value.1 > n.value);
    whole, crossings := Whole(rows, kept, j), Crossings(seed, rows, kept, j);
    assert j > 0 ==> Whole(rows, kept, j - 1) == whole - {j - 1};
    hide Picks;
  }

  // ---------------------------------------------------------------- the tape's own figures

  ghost function Breaks(rows: seq<Row>, parsed: seq<nat>): set<nat>
    requires InRange(parsed, |rows|)
  {
    set i: nat | 0 < i < |parsed| && BreaksAt(rows, parsed, i)
  }

  /** `first` is the position of the first break, if there is any. */
  ghost predicate Tallied(rows: seq<Row>, parsed: seq<nat>, first: nat, out: Replay)
    requires InRange(parsed, |rows|)
  {
    && out.breaks == |Breaks(rows, parsed)|
    && out.prevU == (if parsed == [] || rows[Last(parsed)].ids.None? then None
                     else Some(rows[Last(parsed)].ids.value.1))
    && if out.firstBreak.None? then Breaks(rows, parsed) == {}
       else
         && first in Breaks(rows, parsed) && (forall i :: i in Breaks(rows, parsed) ==> first <= i)
         && 0 < first < |parsed| && rows[parsed[first]].ids.Some? && rows[parsed[first - 1]].ids.Some?
         && out.firstBreak.value == (rows[parsed[first - 1]].ids.value.1, rows[parsed[first]].ids.value.0)
  }

  lemma TalliedPrefix(rows: seq<Row>, m: nat, parsed: seq<nat>, first: nat, out: Replay)
    requires m <= |rows| && InRange(parsed, m) && Tallied(rows[..m], parsed, first, out)
    ensures Tallied(rows, parsed, first, out)
  {
    forall i: nat | 0 < i < |parsed| ensures BreaksAt(rows[..m], parsed, i) <==> BreaksAt(rows, parsed, i) {}
    hide BreaksAt;
    assert Breaks(rows[..m], parsed) == Breaks(rows, parsed);
  }

  lemma BreaksSnoc(rows: seq<Row>, parsed: seq<nat>, m: nat)
    requires InRange(parsed, |rows|) && m < |rows|
    ensures var all, j := parsed + [m], |parsed|;
            && Breaks(rows, all) ==
               (if j > 0 && BreaksAt(rows, all, j) then Breaks(rows, parsed) + {j} else Breaks(rows, parsed))
            && forall i :: i in Breaks(rows, parsed) ==> 0 < i < j
  {
    var all, j := parsed + [m], |parsed|;
    forall i: nat | 0 < i < j ensures BreaksAt(rows, all, i) <==> BreaksAt(rows, parsed, i) {
      assert all[i] == parsed[i] && all[i - 1] == parsed[i - 1];
    }
    hide BreaksAt;
  }

  lemma BreaksNow(rows: seq<Row>, parsed: seq<nat>, m: nat, out: Replay)
    requires InRange(parsed, |rows|) && m < |rows| && parsed != []
    requires rows[m].ids.Some? && rows[Last(parsed)].ids.Some?
    ensures BreaksAt(rows, parsed + [m], |parsed|) <==> rows[m].ids.value.0 != rows[Last(parsed)].ids.value.1
  {
  }

  lemma TalliedSnoc(rows: seq<Row>, parsed: seq<nat>, first: nat, m: nat, out: Replay) returns (firstNow: nat)
    requires InRange(parsed, |rows|) && m < |rows| && Tallied(rows, parsed, first, out) && rows[m].ids.Some?
    requires parsed != [] ==> rows[Last(parsed)].ids.Some?
    ensures Tallied(rows, parsed + [m], firstNow, CheckChain(out, rows[m].ids.value.0, rows[m].ids.value.1))
  {
    var all, j := parsed + [m], |parsed|;
    BreaksSnoc(rows, parsed, m);
    hide Breaks, BreaksAt;
    var before := Breaks(rows, parsed);
    assert Last(all) == m;
    if j > 0 && rows[m].ids.value.0 != rows[Last(parsed)].ids.value.1 {
      BreaksNow(rows, parsed, m, out);
      assert j !in before && |before + {j}| == |before| + 1;
      firstNow := BreakAdded(rows, parsed, first, m, out);
    } else {
      if j > 0 { BreaksNow(rows, parsed, m, out); }
      firstNow := first;
      FirstStays(rows, parsed, first, m);
    }
  }

  lemma FirstStays(rows: seq<Row>, parsed: seq<nat>, first: nat, m: nat)
    requires InRange(parsed, |rows|) && m < |rows|
    ensures 0 < first < |parsed| ==>
              (parsed + [m])[first] == parsed[first] && (parsed + [m])[first - 1] == parsed[first - 1]
  {
  }

  lemma BreakAdded(rows: seq<Row>, parsed: seq<nat>, first: nat, m: nat, out: Replay) returns (firstNow: nat)
    requires InRange(parsed, |rows|) && m < |rows| && Tallied(rows, parsed, first, out) && rows[m].ids.Some?
    requires parsed != [] && rows[Last(parsed)].ids.Some?
    requires forall i :: i in Breaks(rows, parsed) ==> 0 < i < |parsed|
    ensures var all, j := parsed + [m], |parsed|;
            var after := CheckChain(out, rows[m].ids.value.0, rows[m].ids.value.1);
            && firstNow in Breaks(rows, parsed) + {j} && 0 < firstNow < |all|
            && (forall i :: i in Breaks(rows, parsed) + {j} ==> firstNow <= i)
            && rows[all[firstNow]].ids.Some? && rows[all[firstNow - 1]].ids.Some?
            && (rows[m].ids.value.0 != rows[Last(parsed)].ids.value.1 ==>
                  after.firstBreak == Some((rows[all[firstNow - 1]].ids.value.1, rows[all[firstNow]].ids.value.0)))
  {
    hide Breaks;
    FirstStays(rows, parsed, first, m);
    assert (parsed + [m])[|parsed| - 1] == Last(parsed) && (parsed + [m])[|parsed|] == m;
    firstNow := if out.firstBreak.None? then |parsed| else first;
  }

  lemma TalliedSame(rows: seq<Row>, parsed: seq<nat>, first: nat, out: Replay, after: Replay)
    requires InRange(parsed, |rows|) && Tallied(rows, parsed, first, out)
    requires after.breaks == out.breaks && after.prevU == out.prevU && after.firstBreak == out.firstBreak
    ensures Tallied(rows, parsed, first, after)
  {
    hide Breaks;
  }

  lemma RowTallies(out: Replay, r: Row, n: Option<nat>, max: nat)
    ensures var counted, after := CountRow(out, r), ReplayRow(out, r, n, max);
            var checked := if r.ids.None? then counted else CheckChain(counted, r.ids.value.0, r.ids.value.1);
            && counted.breaks == out.breaks && counted.prevU == out.prevU && counted.firstBreak == out.firstBreak
            && after.breaks == checked.breaks && after.prevU == checked.prevU
            && after.firstBreak == checked.firstBreak
            && after.rows == out.rows + 1
            && after.firstTs == (if r.ts.Some? && out.firstTs.None? then r.ts else out.firstTs)
            && after.lastTs == if r.ts.Some? then r.ts else out.lastTs
  {
    hide ApplyLevels, Crossed;
  }

  predicate Parsed(r: Row) {
    r.ids.Some?
  }

  lemma {:induction false} TallyHolds(rows: seq<Row>, n: Option<nat>, seed: Sides, max: nat)
    returns (parsed: seq<nat>, first: nat)
    ensures Picks(rows, parsed, Parsed)
    ensures Tallied(rows, parsed, first, ReplayRows(Start(seed), rows, n, max))
  {
    if rows == [] {
      parsed, first := [], 0;
    } else {
      var m: nat := |rows| - 1;
      var before, f := TallyHolds(rows[..m], n, seed, max);
      parsed := PickLast(rows, before, Parsed);
      var out := ReplayRows(Start(seed), rows[..m], n, max);
      assert ReplayRows(Start(seed), rows, n, max) == ReplayRow(out, rows[m], n, max);
      hide Tallied, CountRow, CheckChain, ReplayRow, ReplayRows;
      RowTallies(out, rows[m], n, max);
      TalliedPrefix(rows, m, before, f, out);
      TalliedSame(rows, before, f, out, CountRow(out, rows[m]));
      first := f;
      if rows[m].ids.Some? {
        first := TalliedSnoc(rows, before, f, m, CountRow(out, rows[m]));
        TalliedSame(rows, parsed, first, CheckChain(CountRow(out, rows[m]), rows[m].ids.value.0, rows[m].ids.value.1),
                    ReplayRow(out, rows[m], n, max));
      } else {
        TalliedSame(rows, before, f, CountRow(out, rows[m]), ReplayRow(out, rows[m], n, max));
      }
    }
  }

  /** The rows are stamped from `first` to `last`, if any is. */
  ghost predicate Spanned(rows: seq<Row>, first: nat, last: nat, out: Replay) {
    && out.rows == |rows|
    && if out.firstTs.None? then out.lastTs.None? && forall k :: 0 <= k < |rows| ==> rows[k].ts.None?
       else
         && first <= last < |rows| && out.firstTs == rows[first].ts
         && rows[last].ts.Some? && out.lastTs == rows[last].ts
         && (forall k :: 0 <= k < first ==> rows[k].ts.None?)
         && (forall k :: last < k < |rows| ==> rows[k].ts.None?)
  }

  lemma {:induction false} SpanHolds(rows: seq<Row>, n: Option<nat>, seed: Sides, max: nat)
    returns (first: nat, last: nat)
    ensures Spanned(rows, first, last, ReplayRows(Start(seed), rows, n, max))
  {
    if rows == [] {
      first, last := 0, 0;
    } else {
      hide ReplayRow;
      var m: nat := |rows| - 1;
      var out := ReplayRows(Start(seed), rows[..m], n, max);
      first, last := SpanHolds(rows[..m], n, seed, max);
      RowTallies(out, rows[m], n, max);
      assert forall k :: 0 <= k < m ==> rows[..m][k] == rows[k];
      if rows[m].ts.Some? {
        first := if out.firstTs.None? then m else first;
        last := m;
      }
    }
  }

  /** THE TAPE'S SPAN. For any rows: `rows` counts them all, and the span runs from the first stamped one to the
      last. */
  lemma SpanIs(rows: seq<Row>, n: Option<nat>, seed: Sides, max: nat) returns (first: nat, last: nat)
    ensures var out := ReplayRows(Start(seed), rows, n, max);
            && out.rows == |rows|
            && (if forall k :: 0 <= k < |rows| ==> rows[k].ts.None? then out.firstTs == None && out.lastTs == None
                else
                  && first <= last < |rows| && rows[first].ts.Some? && rows[last].ts.Some?
                  && out.firstTs == rows[first].ts && out.lastTs == rows[last].ts
                  && (forall k :: 0 <= k < first ==> rows[k].ts.None?)
                  && (forall k :: last < k < |rows| ==> rows[k].ts.None?))
  {
    hide ReplayRows;
    first, last := SpanHolds(rows, n, seed, max);
  }

  /** THE TAPE'S BREAKS. For any rows: those whose ids do not read are passed over, and among the others `breaks` counts
      those that do not continue the one before, `firstBreak` naming the first of them by what was expected and what
      came. */
  lemma BreaksAre(rows: seq<Row>, n: Option<nat>, seed: Sides, max: nat)
    returns (parsed: seq<nat>, breaks: set<nat>, first: nat)
    ensures Picks(rows, parsed, (r: Row) => r.ids.Some?)
    ensures forall i: nat :: i in breaks <==>
              0 < i < |parsed| && rows[parsed[i]].ids.value.0 != rows[parsed[i - 1]].ids.value.1
    ensures var out := ReplayRows(Start(seed), rows, n, max);
            && out.breaks == |breaks|
            && if breaks == {} then out.firstBreak == None
               else
                 && first in breaks && (forall i :: i in breaks ==> first <= i) && 0 < first < |parsed|
                 && out.firstBreak == Some((rows[parsed[first - 1]].ids.value.1, rows[parsed[first]].ids.value.0))
  {
    hide ReplayRows;
    parsed, first := TallyHolds(rows, n, seed, max);
    PicksSame(rows, parsed, Parsed, (r: Row) => r.ids.Some?);
    breaks := Breaks(rows, parsed);
    assert forall i :: 0 <= i < |parsed| ==> rows[parsed[i]].ids.Some?;
    hide Picks;
  }

  /** On a tape of a true history the first break lies at the first missing run: between the diff before it and the one
      after. */
  lemma FirstBreakNamesFirstHole(w: World, idx: seq<nat>, rows: seq<Row>, n: Option<nat>, seed: Sides, max: nat, i: nat)
    requires Valid(w) && TapeOf(w, idx, rows) && 0 < i < |idx| && idx[i] > idx[i - 1] + 1
    requires forall k :: 0 < k < i ==> idx[k] == idx[k - 1] + 1
    ensures ReplayRows(Start(seed), rows, n, max).firstBreak ==
            Some((w.hist[idx[i - 1]].final, w.hist[idx[i]].prev))
  {
    hide ReplayRows, Valid;
    var parsed, breaks, first := BreaksAre(rows, n, seed, max);
    assert forall k :: 0 <= k < |idx| ==> RowIs(rows[k], w.hist[idx[k]]);
    AllPicked(rows, parsed, (r: Row) => r.ids.Some?);
    hide Picks;
    forall k: nat | 0 < k <= i ensures k in breaks <==> k == i { ChainedIffNext(w, idx[k - 1], idx[k]); }
    assert first == i;
  }

  lemma AllPicked(rows: seq<Row>, kept: seq<nat>, wanted: Row -> bool)
    requires Picks(rows, kept, wanted) && forall k :: 0 <= k < |rows| ==> wanted(rows[k])
    ensures |kept| == |rows| && forall i :: 0 <= i < |kept| ==> kept[i] == i
  {
    var i: nat := 0;
    while i < |rows|
      invariant i <= |rows| && i <= |kept| && forall k :: 0 <= k < i ==> kept[k] == k
    {
      assert wanted(rows[i]) && i in kept;
      var k :| 0 <= k < |kept| && kept[k] == i;
      AtLeast(kept, k);
      i := i + 1;
    }
    if |kept| > |rows| { AtLeast(kept, |kept| - 1); }
  }

  lemma {:induction false} AtLeast(kept: seq<nat>, i: nat)
    requires i < |kept| && forall k, l :: 0 <= k < l < |kept| ==> kept[k] < kept[l]
    ensures kept[i] >= i
  {
    if i > 0 { AtLeast(kept, i - 1); }
  }

  // ---------------------------------------------------------------- from files to books

  lemma SameRows(t: Sides, snaps: seq<SnapRow>, wanted: SnapRow -> bool, same: SnapRow -> bool, s: Side, p: int)
    requires forall r :: wanted(r) <==> same(r)
    ensures RowsOf(t, snaps, wanted) <==> RowsOf(t, snaps, same)
    ensures HasRow(snaps, wanted, s, p) <==> HasRow(snaps, same, s, p)
  {
    hide RowOf, IsAt;
  }

  /** THE VALIDATOR, FROM FILES TO BOOK. If the snapshot rows with the largest id are true levels that reach a horizon,
      then no breaks, a first row that starts no later than that id, and fewer diffs than the limit make the rebuilt
      book exact up to it. */
  lemma DayToBook(w: World, idx: seq<nat>, snaps: seq<SnapRow>, rows: seq<Row>, n: nat, max: nat, r: Reach)
    requires Valid(w) && IsLargestId(snaps, Some(n)) && n < |w.truth| && TapeOf(w, idx, rows) && rows != []
    requires RowsOf(w.truth[n], snaps, (x: SnapRow) => x.id == Some(n))
    requires forall s: Side, p :: p in w.truth[n].Of(s) && Covers(s, r.Of(s), p) ==>
               HasRow(snaps, (x: SnapRow) => x.id == Some(n), s, p)
    ensures var out := ReplayRows(Start(SeedSides(snaps, SeedRow(MaxId(snaps)))), rows, MaxId(snaps), max);
            out.breaks == 0 && out.applied < max && rows[0].ids.value.0 <= n ==>
              && out.prevU.Some? && SidesExact(w.truth, Max(n, out.prevU.value), out.sides, r)
              && (NeverCrossed(w.truth) ==> out.crossed == 0)
  {
    hide Valid, ReplayRows, SeedSides, RowsOf, HasRow, SidesExact, NeverCrossed, MaxId;
    MaxIdIsLargest(snaps);
    assert MaxId(snaps) == Some(n);
    var explicit := (x: SnapRow) => x.id == Some(n);
    forall s: Side, p
      ensures RowsOf(w.truth[n], snaps, SeedRow(Some(n))) <==> RowsOf(w.truth[n], snaps, explicit)
      ensures HasRow(snaps, SeedRow(Some(n)), s, p) <==> HasRow(snaps, explicit, s, p)
    {
      SameRows(w.truth[n], snaps, SeedRow(Some(n)), explicit, s, p);
    }
    SameRows(w.truth[n], snaps, SeedRow(Some(n)), explicit, Bid, 0);
    SeedIsExact(w.truth, n, snaps, SeedRow(Some(n)), r);
    var seed := SeedSides(snaps, SeedRow(Some(n)));
    var out := ReplayRows(Start(seed), rows, Some(n), max);
    if out.breaks == 0 && out.applied < max && rows[0].ids.value.0 <= n {
      ValidatorCertificate(w, idx, rows, n, seed, r, max);
    }
  }

  /** THE SEEK, FROM FILES TO BOOK. Over snapshot rows and hourly files, some of them left closed: with rows filed by
      the hour, past hours covered by the snapshot, and true levels in the rows of the latest stamp, the gap flag says
      exactly whether diffs are missing in between; clear, and with a first applied diff that starts no later than the
      snapshot (or none to apply), the book is exact up to the horizon those rows reach. */
  lemma FilesToBook(w: World, idx: seq<nat>, snaps: seq<SnapRow>, files: seq<UpdFile>, at: int, stamp: (int, nat),
                    r: Reach)
    requires Valid(w) && IsLatestStamp(snaps, at, Some(stamp)) && stamp.1 < |w.truth|
    requires FiledByHour(files) && PastHoursCovered(files, stamp)
    requires TapeOf(w, idx, RelevantRows(AllRows(files), at, stamp.1))
    requires RowsOf(w.truth[stamp.1], snaps, (x: SnapRow) => x.ts == Some(stamp.0) && x.id == Some(stamp.1))
    requires forall s: Side, p :: p in w.truth[stamp.1].Of(s) && Covers(s, r.Of(s), p) ==>
               HasRow(snaps, (x: SnapRow) => x.ts == Some(stamp.0) && x.id == Some(stamp.1), s, p)
    ensures var seed := SeedSides(snaps, StampedRow(at, stamp));
            var out := AtRows(AtReplay(None, false, seed), OpenedRows(files, at, stamp.0), at, stamp.1);
            && NewestStamp(snaps, at) == Some(stamp)
            && (out.gap <==> MissingRuns(idx) != {})
            && (!out.gap && (idx != [] ==> w.hist[idx[0]].prev <= stamp.1) ==>
                  SidesExact(w.truth, if idx == [] then stamp.1 else w.hist[idx[|idx| - 1]].final, out.sides, r))
  {
    hide Valid, AtRows, RelevantRows, OpenedRows, AllRows, SidesExact, MissingRuns, NewestStamp, RowsOf, HasRow;
    hide SeedSides, FiledByHour, PastHoursCovered;
    NewestStampIsLatest(snaps, at);
    LatestIsOne(snaps, at, NewestStamp(snaps, at), stamp);
    var explicit := (x: SnapRow) => x.ts == Some(stamp.0) && x.id == Some(stamp.1);
    forall s: Side, p
      ensures RowsOf(w.truth[stamp.1], snaps, StampedRow(at, stamp)) <==> RowsOf(w.truth[stamp.1], snaps, explicit)
      ensures HasRow(snaps, StampedRow(at, stamp), s, p) <==> HasRow(snaps, explicit, s, p)
    {
      SameRows(w.truth[stamp.1], snaps, StampedRow(at, stamp), explicit, s, p);
    }
    SameRows(w.truth[stamp.1], snaps, StampedRow(at, stamp), explicit, Bid, 0);
    StampedFilesToBook(w, idx, snaps, files, at, stamp, r);
  }

  lemma LatestIsOne(snaps: seq<SnapRow>, at: int, a: Option<(int, nat)>, b: (int, nat))
    requires IsLatestStamp(snaps, at, a) && IsLatestStamp(snaps, at, Some(b))
    ensures a == Some(b)
  {
    var i :| 0 <= i < |snaps| && snaps[i].ts == Some(b.0) && snaps[i].id == Some(b.1);
    if a.Some? {
      var k :| 0 <= k < |snaps| && snaps[k].ts == Some(a.value.0) && snaps[k].id == Some(a.value.1);
      assert snaps[i].ts.value <= at && snaps[k].ts.value <= at;
    }
  }
}
