/** The buffered writer of one hourly depth file: rows are pushed unsorted, sorted at each flush, and put back when a
    write fails half-way. */
module DepthFile {
  import opened Basics

  datatype Row = Row(id: nat, line: nat)

  predicate SortedById(rows: seq<Row>) {
    forall i, j :: 0 <= i < j < |rows| ==> rows[i].id <= rows[j].id
  }

  /** The rows carrying one id, in order. */
  function With(rows: seq<Row>, id: nat): seq<Row> {
    if rows == [] then []
    else With(rows[..|rows| - 1], id) + if Last(rows).id == id then [Last(rows)] else []
  }

  // ---------------------------------------------------------------- the stable sort

  function Insert(sorted: seq<Row>, row: Row): seq<Row> {
    if sorted != [] && Last(sorted).id > row.id then Insert(sorted[..|sorted| - 1], row) + [Last(sorted)]
    else sorted + [row]
  }

  function StableSort(rows: seq<Row>): seq<Row> {
    if rows == [] then [] else Insert(StableSort(rows[..|rows| - 1]), Last(rows))
  }

  lemma WithSnoc(rows: seq<Row>, row: Row, id: nat)
    ensures With(rows + [row], id) == With(rows, id) + if row.id == id then [row] else []
  {
    assert (rows + [row])[..|rows|] == rows;
  }

  lemma {:induction false} WithConcat(x: seq<Row>, y: seq<Row>, id: nat)
    ensures With(x + y, id) == With(x, id) + With(y, id)
    decreases |y|
  {
    if y == [] {
      assert x + y == x;
    } else {
      var init := y[..|y| - 1];
      assert x + y == (x + init) + [Last(y)] && y == init + [Last(y)];
      WithConcat(x, init, id);
      WithSnoc(x + init, Last(y), id);
    }
  }

  predicate AtMost(rows: seq<Row>, id: nat) {
    forall i :: 0 <= i < |rows| ==> rows[i].id <= id
  }

  lemma {:induction false} InsertSorts(sorted: seq<Row>, row: Row, bound: nat)
    requires SortedById(sorted) && AtMost(sorted, bound) && row.id <= bound
    ensures SortedById(Insert(sorted, row)) && AtMost(Insert(sorted, row), bound)
  {
    if sorted != [] && Last(sorted).id > row.id {
      InsertSorts(sorted[..|sorted| - 1], row, Last(sorted).id);
    }
  }

  lemma {:induction false} InsertKeepsOrder(sorted: seq<Row>, row: Row, id: nat)
    ensures With(Insert(sorted, row), id) == With(sorted + [row], id)
  {
    WithSnoc(sorted, row, id);
    if sorted != [] && Last(sorted).id > row.id {
      var init := sorted[..|sorted| - 1];
      InsertKeepsOrder(init, row, id);
      WithSnoc(init, row, id);
      WithSnoc(Insert(init, row), Last(sorted), id);
    }
  }

  lemma {:induction false} Bound(rows: seq<Row>) returns (bound: nat)
    ensures AtMost(rows, bound)
  {
    if rows == [] {
      bound := 0;
    } else {
      var b := Bound(rows[..|rows| - 1]);
      bound := if b < Last(rows).id then Last(rows).id else b;
      assert forall i :: 0 <= i < |rows| - 1 ==> rows[i] == rows[..|rows| - 1][i];
    }
  }

  /** Sorting sorts, and keeps the rows of each id in their order. */
  lemma {:induction false} SortIsStable(rows: seq<Row>, id: nat)
    ensures SortedById(StableSort(rows)) && With(StableSort(rows), id) == With(rows, id)
  {
    hide SortedById, AtMost, With, Insert;
    if rows == [] {
      assert SortedById([]) by { EmptyIsSorted(); }
    } else {
      var init := rows[..|rows| - 1];
      SortIsStable(init, id);
      InsertIsStable(StableSort(init), init, Last(rows), id);
      assert rows == init + [Last(rows)];
    }
  }

  lemma EmptyIsSorted()
    ensures SortedById([])
  {
  }

  lemma InsertIsStable(sorted: seq<Row>, init: seq<Row>, row: Row, id: nat)
    requires SortedById(sorted) && With(sorted, id) == With(init, id)
    ensures SortedById(Insert(sorted, row)) && With(Insert(sorted, row), id) == With(init + [row], id)
  {
    hide SortedById, AtMost, With, Insert;
    var bound := Bound(sorted + [row]);
    AtMostInit(sorted, row, bound);
    InsertSorts(sorted, row, bound);
    InsertKeepsOrder(sorted, row, id);
    WithSnoc(sorted, row, id);
    WithSnoc(init, row, id);
  }

  lemma AtMostInit(rows: seq<Row>, row: Row, bound: nat)
    requires AtMost(rows + [row], bound)
    ensures AtMost(rows, bound) && row.id <= bound
  {
    assert (rows + [row])[|rows|] == row;
    forall i | 0 <= i < |rows| ensures rows[i].id <= bound { assert (rows + [row])[i] == rows[i]; }
  }

  lemma {:induction false} SortOfSorted(rows: seq<Row>)
    requires SortedById(rows)
    ensures StableSort(rows) == rows
  {
    if rows != [] {
      var init := rows[..|rows| - 1];
      SortOfSorted(init);
      assert init != [] ==> Last(init) == rows[|rows| - 2];
      assert rows == init + [Last(rows)];
    }
  }

  // ---------------------------------------------------------------- one file's life

  /** `runs` is what each flush appended to the file; `lost` what a failing flush at drop time could not save. */
  datatype State = State(buffer: seq<Row>, runs: seq<seq<Row>>, accepted: seq<Row>, lost: seq<Row>, open: bool)

  datatype Event =
    | Push(row: Row)
    | Flush(failAt: Option<nat>)  // the write of that row of the sorted buffer fails
    | Drop(failAt: Option<nat>)   // rotation or cleanup lets go of the buffer

  function Init(): State {
    State([], [], [], [], true)
  }

  function File(runs: seq<seq<Row>>): seq<Row> {
    if runs == [] then [] else File(runs[..|runs| - 1]) + Last(runs)
  }

  /** How many rows of a flush get out. */
  function Written(rows: seq<Row>, failAt: Option<nat>): (k: nat)
    ensures k <= |rows|
  {
    if failAt.Some? && failAt.value < |rows| then failAt.value else |rows|
  }

  function AfterFlush(s: State, failAt: Option<nat>): State {
    var rows := StableSort(s.buffer);
    var k := Written(rows, failAt);
    s.(buffer := rows[k..], runs := s.runs + [rows[..k]])
  }

  function Step(s: State, e: Event): State {
    if !s.open then s else
    match e
    case Push(row) => s.(buffer := s.buffer + [row], accepted := s.accepted + [row])
    case Flush(failAt) => AfterFlush(s, failAt)
    case Drop(failAt) =>
      var t := AfterFlush(s, failAt);
      t.(buffer := [], lost := t.buffer, open := false)
  }

  function Life(events: seq<Event>): State {
    if events == [] then Init() else Step(Life(events[..|events| - 1]), Last(events))
  }

  /** Rows kept in the file, in the buffer and given up, in that order. */
  function Everything(s: State): seq<Row> {
    File(s.runs) + s.buffer + s.lost
  }

  ghost predicate Conserved(s: State) {
    && (forall id: nat :: With(Everything(s), id) == With(s.accepted, id))
    && (s.open ==> s.lost == []) && (!s.open ==> s.buffer == [])
    && forall i :: 0 <= i < |s.runs| ==> SortedById(s.runs[i])
  }

  lemma FileSnoc(runs: seq<seq<Row>>, run: seq<Row>)
    ensures File(runs + [run]) == File(runs) + run
  {
    assert (runs + [run])[..|runs|] == runs;
  }

  lemma FlushConserves(s: State, failAt: Option<nat>, id: nat)
    ensures var t := AfterFlush(s, failAt);
            && With(File(t.runs) + t.buffer, id) == With(File(s.runs) + s.buffer, id)
            && SortedById(Last(t.runs))
  {
    hide With, StableSort, File, Written;
    var rows := StableSort(s.buffer);
    var k := Written(rows, failAt);
    SortIsStable(s.buffer, id);
    FileSnoc(s.runs, rows[..k]);
    assert File(s.runs) + rows[..k] + rows[k..] == File(s.runs) + rows;
    WithConcat(File(s.runs), rows, id);
    WithConcat(File(s.runs), s.buffer, id);
  }

  lemma PushConserves(s: State, row: Row, id: nat)
    requires s.open && s.lost == [] && With(Everything(s), id) == With(s.accepted, id)
    ensures var t := Step(s, Push(row)); With(Everything(t), id) == With(t.accepted, id)
  {
    hide With, File;
    var t := Step(s, Push(row));
    assert Everything(s) == File(s.runs) + s.buffer;
    assert Everything(t) == Everything(s) + [row];
    WithSnoc(Everything(s), row, id);
    WithSnoc(s.accepted, row, id);
  }

  lemma StepConserves(s: State, e: Event, id: nat)
    requires (s.open ==> s.lost == []) && With(Everything(s), id) == With(s.accepted, id)
    ensures var t := Step(s, e); With(Everything(t), id) == With(t.accepted, id)
  {
    hide With, File, StableSort, Written;
    if s.open {
      match e {
        case Push(row) => PushConserves(s, row, id);
        case Flush(failAt) =>
          FlushConserves(s, failAt, id);
          AddNothing(File(s.runs) + s.buffer);
          AddNothing(File(AfterFlush(s, failAt).runs) + AfterFlush(s, failAt).buffer);
        case Drop(failAt) =>
          FlushConserves(s, failAt, id);
          AddNothing(File(s.runs) + s.buffer);
          AddNothing(File(AfterFlush(s, failAt).runs));
      }
    }
  }

  lemma AddNothing(x: seq<Row>)
    ensures x + [] == x
  {
  }

  /** CONSERVATION. Through any sequence of pushes, flushes failing at any row, and the final drop, the rows of each
      id in the file, then the buffer, then the loss are exactly the accepted rows of that id in arrival order; and
      nothing is lost while the buffer is open. Every flush appends a run sorted by id. */
  lemma {:induction false} RowsConserved(events: seq<Event>)
    ensures Conserved(Life(events))
  {
    if events != [] {
      var init, e := events[..|events| - 1], Last(events);
      RowsConserved(init);
      var s := Life(init);
      forall id: nat ensures With(Everything(Step(s, e)), id) == With(Step(s, e).accepted, id) {
        StepConserves(s, e, id);
      }
      RunsStaySorted(s, e);
    }
  }

  lemma RunsStaySorted(s: State, e: Event)
    requires forall i :: 0 <= i < |s.runs| ==> SortedById(s.runs[i])
    ensures forall i :: 0 <= i < |Step(s, e).runs| ==> SortedById(Step(s, e).runs[i])
  {
    hide SortedById, StableSort, Written, With;
    if s.open && !e.Push? { FlushConserves(s, e.failAt, 0); }
  }

  lemma {:induction false} CountById(rows: seq<Row>, r: Row)
    ensures multiset(rows)[r] == multiset(With(rows, r.id))[r]
  {
    if rows != [] {
      CountById(rows[..|rows| - 1], r);
      assert rows == rows[..|rows| - 1] + [Last(rows)];
    }
  }

  /** In particular nothing is dropped or duplicated: written, buffered and lost rows together are the accepted ones. */
  lemma NothingDroppedOrDoubled(events: seq<Event>)
    ensures var s := Life(events);
            multiset(File(s.runs) + s.buffer + s.lost) == multiset(s.accepted) && (s.open ==> s.lost == [])
  {
    hide With, File, Life;
    RowsConserved(events);
    var s := Life(events);
    forall r: Row ensures multiset(Everything(s))[r] == multiset(s.accepted)[r] {
      CountById(Everything(s), r);
      CountById(s.accepted, r);
    }
  }

  /** A drop loses rows exactly when its own flush fails inside the rows still buffered, and then all from there on. */
  lemma LossIsTheUnwrittenTail(events: seq<Event>, failAt: Option<nat>)
    requires Life(events).open
    ensures var s, t := Life(events), Life(events + [Drop(failAt)]);
            && (t.lost == [] <==> failAt.None? || failAt.value >= |s.buffer|)
            && |StableSort(s.buffer)| == |s.buffer|
            && (failAt.Some? && failAt.value < |s.buffer| ==>
                  && t.lost == StableSort(s.buffer)[failAt.value..]
                  && Last(t.runs) == StableSort(s.buffer)[..failAt.value])
  {
    var s := Life(events);
    assert (events + [Drop(failAt)])[..|events|] == events;
    SortLength(s.buffer);
  }

  /** A flush writes the sorted rows up to the one whose write fails and keeps the rest, that row first. */
  lemma FlushStopsAtFailure(events: seq<Event>, failAt: nat)
    requires Life(events).open && failAt < |Life(events).buffer|
    ensures var s, t := Life(events), Life(events + [Flush(Some(failAt))]);
            var sorted := StableSort(s.buffer);
            && |sorted| == |s.buffer| && t.runs == s.runs + [sorted[..failAt]] && t.buffer == sorted[failAt..]
            && t.lost == s.lost && t.accepted == s.accepted
  {
    var s := Life(events);
    assert (events + [Flush(Some(failAt))])[..|events|] == events;
    SortLength(s.buffer);
  }

  lemma {:induction false} InsertLength(sorted: seq<Row>, row: Row)
    ensures |Insert(sorted, row)| == |sorted| + 1
  {
    if sorted != [] && Last(sorted).id > row.id { InsertLength(sorted[..|sorted| - 1], row); }
  }

  lemma {:induction false} SortLength(rows: seq<Row>)
    ensures |StableSort(rows)| == |rows|
  {
    if rows != [] {
      SortLength(rows[..|rows| - 1]);
      InsertLength(StableSort(rows[..|rows| - 1]), Last(rows));
    }
  }

  // ---------------------------------------------------------------- when the whole file is sorted

  /** No row of an earlier flush has a larger id than a row of a later one. */
  ghost predicate RunsAscend(runs: seq<seq<Row>>) {
    forall i, j :: 0 <= i < j < |runs| ==> Past(runs[i], runs[j])
  }

  ghost predicate PastRuns(runs: seq<seq<Row>>, top: seq<Row>) {
    forall i :: 0 <= i < |runs| ==> Past(runs[i], top)
  }

  ghost predicate Past(x: seq<Row>, y: seq<Row>) {
    forall a, b :: a in x && b in y ==> a.id <= b.id
  }

  lemma {:induction false} FileMembers(runs: seq<seq<Row>>, r: Row)
    ensures r in File(runs) <==> exists i :: 0 <= i < |runs| && r in runs[i]
  {
    if runs != [] {
      var init := runs[..|runs| - 1];
      FileMembers(init, r);
      assert runs == init + [Last(runs)];
      if r in File(init) {
        var i :| 0 <= i < |init| && r in init[i];
        assert r in runs[i];
      }
      if r in Last(runs) { assert r in runs[|runs| - 1]; }
      if exists i :: 0 <= i < |runs| && r in runs[i] {
        var i :| 0 <= i < |runs| && r in runs[i];
        if i < |init| { assert r in init[i]; }
      }
    }
  }

  lemma SortedConcat(x: seq<Row>, y: seq<Row>)
    ensures SortedById(x + y) <==>
            SortedById(x) && SortedById(y) && Past(x, y)
  {
    var s := x + y;
    if SortedById(s) {
      forall i, j | 0 <= i < j < |x| ensures x[i].id <= x[j].id { assert s[i] == x[i] && s[j] == x[j]; }
      forall i, j | 0 <= i < j < |y| ensures y[i].id <= y[j].id {
        assert s[|x| + i] == y[i] && s[|x| + j] == y[j];
      }
      forall a, b | a in x && b in y ensures a.id <= b.id {
        var i :| 0 <= i < |x| && x[i] == a;
        var j :| 0 <= j < |y| && y[j] == b;
        assert s[i] == a && s[|x| + j] == b;
      }
    }
  }

  /** A flush ascends past the whole file exactly when it ascends past every run in it. */
  lemma AscendsPastFile(init: seq<seq<Row>>, top: seq<Row>)
    ensures Past(File(init), top) <==>
            PastRuns(init, top)
  {
    hide File;
    if Past(File(init), top) {
      forall i, a, b | 0 <= i < |init| && a in init[i] && b in top ensures a.id <= b.id { FileMembers(init, a); }
    }
    if PastRuns(init, top) {
      forall a, b | a in File(init) && b in top ensures a.id <= b.id {
        FileMembers(init, a);
        var i :| 0 <= i < |init| && a in init[i];
        assert Past(init[i], top);
      }
    }
  }

  /** The file is sorted as a whole exactly when no flush wrote an id larger than one a later flush wrote. */
  lemma {:induction false} FileSortedIffRunsAscend(runs: seq<seq<Row>>)
    requires forall i :: 0 <= i < |runs| ==> SortedById(runs[i])
    ensures SortedById(File(runs)) <==> RunsAscend(runs)
  {
    hide SortedById, Past;
    if runs == [] {
      EmptyIsSorted();
    } else {
      var init, top := runs[..|runs| - 1], Last(runs);
      assert forall i :: 0 <= i < |init| ==> init[i] == runs[i];
      FileSortedIffRunsAscend(init);
      FileSortedSnoc(init, top);
      assert runs == init + [top];
    }
  }

  lemma FileSortedSnoc(init: seq<seq<Row>>, top: seq<Row>)
    requires SortedById(File(init)) <==> RunsAscend(init)
    requires SortedById(top)
    ensures SortedById(File(init + [top])) <==> RunsAscend(init + [top])
  {
    hide SortedById, File, RunsAscend, Past, PastRuns;
    SortedConcat(File(init), top);
    AscendsPastFile(init, top);
    AscendSnoc(init, top);
    FileSnoc(init, top);
  }

  lemma AscendSnoc(init: seq<seq<Row>>, top: seq<Row>)
    ensures RunsAscend(init + [top]) <==>
            RunsAscend(init) && PastRuns(init, top)
  {
    hide Past;
    var runs := init + [top];
    if RunsAscend(runs) {
      forall i, j | 0 <= i < j < |init| ensures Past(init[i], init[j]) {
        assert runs[i] == init[i] && runs[j] == init[j];
      }
      forall i | 0 <= i < |init| ensures Past(init[i], top) {
        assert runs[i] == init[i] && runs[|init|] == top;
      }
    }
  }

  /** When rows are pushed in id order, the file is sorted whatever fails in between. */
  lemma {:induction false} InOrderPushesSortFile(events: seq<Event>)
    requires SortedById(Life(events).accepted)
    ensures var s := Life(events); Everything(s) == s.accepted && SortedById(File(s.runs))
  {
    hide SortedById, File, Step, Conserved;
    var t := Life(events);
    if events == [] {
      NothingYet();
    } else {
      var init, e := events[..|events| - 1], Last(events);
      var s := Life(init);
      AcceptedGrows(s, e);
      InOrderPushesSortFile(init);
      LostOnlyAtDrop(init);
      InOrderStep(s, e);
    }
    SortedConcat(File(t.runs), t.buffer + t.lost);
    assert Everything(t) == File(t.runs) + (t.buffer + t.lost);
  }

  lemma NothingYet()
    ensures Everything(Init()) == []
  {
  }

  lemma LostOnlyAtDrop(events: seq<Event>)
    ensures Life(events).open ==> Life(events).lost == []
  {
    RowsConserved(events);
  }

  lemma AcceptedGrows(s: State, e: Event)
    requires SortedById(Step(s, e).accepted)
    ensures SortedById(s.accepted)
  {
    if s.open && e.Push? { SortedConcat(s.accepted, [e.row]); }
  }

  lemma InOrderStep(s: State, e: Event)
    requires (s.open ==> s.lost == []) && Everything(s) == s.accepted && SortedById(s.accepted)
    ensures Everything(Step(s, e)) == Step(s, e).accepted
  {
    hide File, StableSort, Written, SortedById;
    if s.open {
      AddNothing(File(s.runs) + s.buffer);
      match e {
        case Push(row) => assert File(s.runs) + (s.buffer + [row]) + [] == File(s.runs) + s.buffer + [row];
        case Flush(failAt) => InOrderFlush(s, failAt);
        case Drop(failAt) => InOrderFlush(s, failAt);
      }
    }
  }

  lemma InOrderFlush(s: State, failAt: Option<nat>)
    requires SortedById(File(s.runs) + s.buffer)
    ensures var t := AfterFlush(s, failAt);
            && File(t.runs) + t.buffer + [] == File(s.runs) + s.buffer
            && File(t.runs) + [] + t.buffer == File(s.runs) + s.buffer
  {
    hide File, StableSort, Written, SortedById;
    SortedConcat(File(s.runs), s.buffer);
    SortOfSorted(s.buffer);
    var k := Written(s.buffer, failAt);
    FileSnoc(s.runs, s.buffer[..k]);
    SplitAt(File(s.runs), s.buffer, k);
  }

  lemma SplitAt(x: seq<Row>, rows: seq<Row>, k: nat)
    requires k <= |rows|
    ensures (x + rows[..k]) + rows[k..] + [] == x + rows
    ensures (x + rows[..k]) + [] + rows[k..] == x + rows
  {
  }

  // ---------------------------------------------------------------- one file, several buffers

  /** A row that comes after the rotation opens a second buffer on the same file, and the first may still be draining.
      A buffer is `None` once dropped. */
  datatype Shared = Shared(bufs: seq<Option<seq<Row>>>, runs: seq<seq<Row>>, accepted: seq<Row>, lost: seq<Row>)

  datatype FileEvent =
    | Open
    | PushTo(i: nat, row: Row)
    | FlushOf(i: nat, failAt: Option<nat>)
    | DropOf(i: nat, failAt: Option<nat>)

  function RowsOf(buf: Option<seq<Row>>): seq<Row> {
    match buf
    case None => []
    case Some(rows) => rows
  }

  function HeldIn(bufs: seq<Option<seq<Row>>>): seq<Row> {
    if bufs == [] then [] else HeldIn(bufs[..|bufs| - 1]) + RowsOf(Last(bufs))
  }

  function FileStep(s: Shared, e: FileEvent): Shared {
    match e
    case Open => s.(bufs := s.bufs + [Some([])])
    case PushTo(i, row) =>
      if i < |s.bufs| && s.bufs[i].Some? then
        s.(bufs := s.bufs[i := Some(s.bufs[i].value + [row])], accepted := s.accepted + [row])
      else s
    case FlushOf(i, failAt) =>
      if i < |s.bufs| && s.bufs[i].Some? then
        var rows := StableSort(s.bufs[i].value);
        var k := Written(rows, failAt);
        s.(bufs := s.bufs[i := Some(rows[k..])], runs := s.runs + [rows[..k]])
      else s
    case DropOf(i, failAt) =>
      if i < |s.bufs| && s.bufs[i].Some? then
        var rows := StableSort(s.bufs[i].value);
        var k := Written(rows, failAt);
        s.(bufs := s.bufs[i := None], runs := s.runs + [rows[..k]], lost := s.lost + rows[k..])
      else s
  }

  function FileLife(events: seq<FileEvent>): Shared {
    if events == [] then Shared([], [], [], []) else FileStep(FileLife(events[..|events| - 1]), Last(events))
  }

  function Times(rows: seq<Row>, r: Row): nat {
    multiset(rows)[r]
  }

  lemma TimesConcat(x: seq<Row>, y: seq<Row>, r: Row)
    ensures Times(x + y, r) == Times(x, r) + Times(y, r)
  {
  }

  lemma TimesSorted(rows: seq<Row>, k: nat, r: Row)
    requires k <= |StableSort(rows)|
    ensures Times(StableSort(rows)[..k], r) + Times(StableSort(rows)[k..], r) == Times(rows, r)
  {
    hide StableSort, With;
    var sorted := StableSort(rows);
    SortIsStable(rows, r.id);
    CountById(sorted, r);
    CountById(rows, r);
    assert sorted == sorted[..k] + sorted[k..];
    TimesConcat(sorted[..k], sorted[k..], r);
  }

  lemma {:induction false} HeldAfter(bufs: seq<Option<seq<Row>>>, i: nat, buf: Option<seq<Row>>, r: Row)
    requires i < |bufs|
    ensures Times(HeldIn(bufs[i := buf]), r) + Times(RowsOf(bufs[i]), r) ==
            Times(HeldIn(bufs), r) + Times(RowsOf(buf), r)
  {
    hide RowsOf, Times;
    var init, after := bufs[..|bufs| - 1], bufs[i := buf];
    TimesConcat(HeldIn(init), RowsOf(Last(bufs)), r);
    TimesConcat(HeldIn(after[..|init|]), RowsOf(Last(after)), r);
    if i == |init| {
      assert after[..|init|] == init;
    } else {
      assert after[..|init|] == init[i := buf];
      HeldAfter(init, i, buf, r);
    }
  }

  /** How often a row is in the file, in its buffers or given up. */
  function Kept(s: Shared, r: Row): nat {
    Times(File(s.runs), r) + Times(HeldIn(s.bufs), r) + Times(s.lost, r)
  }

  /** Part of a buffer's sorted rows goes to the file, part stays and part is given up. */
  lemma FlushKeeps(s: Shared, t: Shared, i: nat, k: nat, r: Row)
    requires i < |s.bufs| && s.bufs[i].Some? && k <= |StableSort(s.bufs[i].value)|
    requires var rows := StableSort(s.bufs[i].value);
             && t.runs == s.runs + [rows[..k]] && t.accepted == s.accepted
             && ((t.bufs == s.bufs[i := Some(rows[k..])] && t.lost == s.lost)
                 || (t.bufs == s.bufs[i := None] && t.lost == s.lost + rows[k..]))
    ensures Kept(t, r) == Kept(s, r)
  {
    hide StableSort, File, HeldIn, Times;
    var rows := StableSort(s.bufs[i].value);
    TimesSorted(s.bufs[i].value, k, r);
    FileSnoc(s.runs, rows[..k]);
    TimesConcat(File(s.runs), rows[..k], r);
    TimesConcat(s.lost, rows[k..], r);
    HeldAfter(s.bufs, i, t.bufs[i], r);
    NoTimes(r);
  }

  lemma NoTimes(r: Row)
    ensures Times([], r) == 0
  {
  }

  lemma FileStepKeeps(s: Shared, e: FileEvent, r: Row)
    requires Kept(s, r) == Times(s.accepted, r)
    ensures var t := FileStep(s, e); Kept(t, r) == Times(t.accepted, r)
  {
    hide StableSort, Written, File, Times;
    NoTimes(r);
    match e {
      case Open =>
        assert (s.bufs + [Some([])])[..|s.bufs|] == s.bufs;
        TimesConcat(HeldIn(s.bufs), [], r);
      case PushTo(i, row) =>
        if i < |s.bufs| && s.bufs[i].Some? {
          HeldAfter(s.bufs, i, Some(s.bufs[i].value + [row]), r);
          TimesConcat(s.bufs[i].value, [row], r);
          TimesConcat(s.accepted, [row], r);
          hide HeldIn;
        }
      case FlushOf(i, failAt) =>
        if i < |s.bufs| && s.bufs[i].Some? {
          FlushKeeps(s, FileStep(s, e), i, Written(StableSort(s.bufs[i].value), failAt), r);
        }
      case DropOf(i, failAt) =>
        if i < |s.bufs| && s.bufs[i].Some? {
          FlushKeeps(s, FileStep(s, e), i, Written(StableSort(s.bufs[i].value), failAt), r);
        }
    }
  }

  lemma {:induction false} FileLifeKeeps(events: seq<FileEvent>, r: Row)
    ensures var s := FileLife(events); Kept(s, r) == Times(s.accepted, r)
  {
    hide FileStep;
    if events != [] {
      FileLifeKeeps(events[..|events| - 1], r);
      FileStepKeeps(FileLife(events[..|events| - 1]), Last(events), r);
    }
  }

  /** Every row pushed to a buffer still open is accepted and waits at its end. */
  lemma PushIsAccepted(events: seq<FileEvent>, i: nat, row: Row)
    requires var s := FileLife(events); i < |s.bufs| && s.bufs[i].Some?
    ensures var s, t := FileLife(events), FileLife(events + [PushTo(i, row)]);
            && t.accepted == s.accepted + [row] && |t.bufs| == |s.bufs| && t.bufs[i] == Some(s.bufs[i].value + [row])
            && t.runs == s.runs && t.lost == s.lost
  {
    assert (events + [PushTo(i, row)])[..|events|] == events;
  }

  /** CONSERVATION OVER THE FILE. However many buffers were opened on one file, overlapping or one after the other, and
      whatever failed: rows in the file, in its buffers and given up at a drop are together exactly the accepted
      rows. */
  lemma FileIsConserved(events: seq<FileEvent>)
    ensures var s := FileLife(events);
            multiset(File(s.runs) + HeldIn(s.bufs) + s.lost) == multiset(s.accepted)
  {
    hide File, HeldIn, FileLife;
    var s := FileLife(events);
    forall r: Row ensures multiset(File(s.runs) + HeldIn(s.bufs) + s.lost)[r] == multiset(s.accepted)[r] {
      FileLifeKeeps(events, r);
      TimesConcat(File(s.runs) + HeldIn(s.bufs), s.lost, r);
      TimesConcat(File(s.runs), HeldIn(s.bufs), r);
    }
  }

  /** Every flush, of whichever buffer, appends a run sorted by id; so the file's order is decided as above. */
  lemma {:induction false} FileRunsSorted(events: seq<FileEvent>)
    ensures var s := FileLife(events);
            && (forall j :: 0 <= j < |s.runs| ==> SortedById(s.runs[j]))
            && (SortedById(File(s.runs)) <==> RunsAscend(s.runs))
  {
    hide SortedById, File, StableSort, Written;
    if events != [] {
      var init, e := events[..|events| - 1], Last(events);
      FileRunsSorted(init);
      var s := FileLife(init);
      if (e.FlushOf? || e.DropOf?) && e.i < |s.bufs| && s.bufs[e.i].Some? {
        SortIsStable(s.bufs[e.i].value, 0);
        PrefixSorted(StableSort(s.bufs[e.i].value), Written(StableSort(s.bufs[e.i].value), e.failAt));
      }
    }
    FileSortedIffRunsAscend(FileLife(events).runs);
  }

  lemma PrefixSorted(rows: seq<Row>, k: nat)
    requires SortedById(rows) && k <= |rows|
    ensures SortedById(rows[..k])
  {
  }

  /** Rows are given up only when a buffer is dropped and its own flush fails among its rows. */
  lemma LossOnlyAtFailingDrop(s: Shared, e: FileEvent)
    ensures FileStep(s, e).lost == s.lost ||
            (e.DropOf? && e.i < |s.bufs| && s.bufs[e.i].Some? && e.failAt.Some? && e.failAt.value < |s.bufs[e.i].value|)
  {
    if e.DropOf? && e.i < |s.bufs| && s.bufs[e.i].Some? {
      SortLength(s.bufs[e.i].value);
      AddNothing(s.lost);
    }
  }

  // ---------------------------------------------------------------- the buffer object

  class FileBuffer {
    var buffer: seq<Row>
    var file: seq<Row>

    constructor ()
      ensures buffer == [] && file == []
    {
      buffer, file := [], [];
    }

    /** Sort, write row by row, and put the unwritten rest back on a failure. */
    method FlushLocked(failAt: Option<nat>) returns (ok: bool)
      modifies this
      ensures var rows := StableSort(old(buffer));
              var k := Written(rows, failAt);
              ok == (k == |rows|) && file == old(file) + rows[..k] && buffer == rows[k..]
    {
      var rows := StableSort(buffer);
      buffer := [];
      var i := 0;
      while i < |rows|
        invariant i <= Written(rows, failAt) && file == old(file) + rows[..i] && buffer == []
        invariant rows == StableSort(old(buffer))
      {
        hide StableSort;
        if failAt == Some(i) {
          buffer := buffer + rows[i..];
          return false;
        }
        assert rows[..i + 1] == rows[..i] + [rows[i]];
        file := file + [rows[i]];
        i := i + 1;
      }
      assert rows[..i] == rows;
      ok := true;
    }

    /** Append a row; true asks for an emergency flush, which is a separate step: the lock is let go in between. */
    method PushRow(row: Row, maxRows: nat) returns (needsFlush: bool)
      modifies this
      ensures buffer == old(buffer) + [row] && file == old(file)
      ensures needsFlush == (|buffer| >= maxRows)
    {
      buffer := buffer + [row];
      needsFlush := |buffer| >= maxRows;
    }
  }
}
