/** The dashboard's byte-level readers: bisecting a chronological CSV by byte offset, and reading its tail
    backwards block by block. What a row says is left to a timestamp function; only newlines matter here. */
module CsvBytes {
  import opened Basics

  type Byte = b: int | 0 <= b < 256
  const NL: Byte := 10
  type Line = seq<Byte>

  // ---------------------------------------------------------------- lines

  /** Where `readline` at `pos` leaves the file position. */
  function LineEnd(s: seq<Byte>, pos: nat): (e: nat)
    requires pos <= |s|
    ensures pos <= e <= |s| && (pos < |s| ==> pos < e)
    ensures forall i :: pos <= i < e - 1 ==> s[i] != NL
    ensures pos < e < |s| ==> s[e - 1] == NL
    decreases |s| - pos
  {
    if pos == |s| then pos else if s[pos] == NL then pos + 1 else LineEnd(s, pos + 1)
  }

  function ReadLine(s: seq<Byte>, pos: nat): Line
    requires pos <= |s|
  {
    s[pos..LineEnd(s, pos)]
  }

  /** The complete (newline-terminated) lines from `pos` on. */
  function Lines(s: seq<Byte>, pos: nat): seq<Line>
    requires pos <= |s|
    decreases |s| - pos
  {
    if pos == |s| then []
    else
      var e := LineEnd(s, pos);
      if s[e - 1] == NL then [s[pos..e]] + Lines(s, e) else []
  }

  function CountNL(s: seq<Byte>, pos: nat): nat
    requires pos <= |s|
    decreases |s| - pos
  {
    if pos == |s| then 0 else (if s[pos] == NL then 1 else 0) + CountNL(s, pos + 1)
  }

  lemma {:induction false} CountSkips(s: seq<Byte>, pos: nat, e: nat)
    requires pos <= e <= |s| && forall i :: pos <= i < e ==> s[i] != NL
    ensures CountNL(s, pos) == CountNL(s, e)
    decreases e - pos
  {
    if pos < e { CountSkips(s, pos + 1, e); }
  }

  lemma {:induction false} CountIsLines(s: seq<Byte>, pos: nat)
    requires pos <= |s|
    ensures |Lines(s, pos)| == CountNL(s, pos)
    decreases |s| - pos
  {
    if pos < |s| {
      var e := LineEnd(s, pos);
      CountSkips(s, pos, e - 1);
      if s[e - 1] == NL {
        CountIsLines(s, e);
      }
    }
  }

  /** A line boundary: the position after a newline. */
  predicate Boundary(s: seq<Byte>, q: nat) {
    0 < q <= |s| && s[q - 1] == NL
  }

  /** Cutting at a later line boundary splits the lines. */
  lemma {:induction false} LinesSplit(s: seq<Byte>, p: nat, q: nat) returns (before: seq<Line>)
    requires p <= q <= |s| && (p == q || Boundary(s, q))
    ensures Lines(s, p) == before + Lines(s, q)
    decreases q - p
  {
    if p == q {
      before := [];
    } else {
      var e := LineEnd(s, p);
      var rest := LinesSplit(s, e, q);
      before := [s[p..e]] + rest;
    }
  }

  lemma {:induction false} LineEndShift(s: seq<Byte>, q: nat, pos: nat)
    requires q + pos <= |s|
    ensures LineEnd(s[q..], pos) + q == LineEnd(s, q + pos)
    decreases |s| - q - pos
  {
    if q + pos < |s| && s[q + pos] != NL { LineEndShift(s, q, pos + 1); }
  }

  lemma SliceOfSuffix(s: seq<Byte>, q: nat, pos: nat, e: nat)
    requires pos <= e && q + e <= |s|
    ensures s[q..][pos..e] == s[q + pos..q + e]
  {
  }

  /** The lines of a suffix are the lines from there on. */
  lemma {:induction false} LinesShift(s: seq<Byte>, q: nat, pos: nat)
    requires q + pos <= |s|
    ensures Lines(s[q..], pos) == Lines(s, q + pos)
    decreases |s| - q - pos
  {
    if q + pos < |s| {
      LineEndShift(s, q, pos);
      var e := LineEnd(s[q..], pos);
      SliceOfSuffix(s, q, pos, e);
      LinesShift(s, q, e);
    }
  }

  lemma {:induction false} CountShift(s: seq<Byte>, q: nat, pos: nat)
    requires q + pos <= |s|
    ensures CountNL(s[q..], pos) == CountNL(s, q + pos)
    decreases |s| - q - pos
  {
    if q + pos < |s| { CountShift(s, q, pos + 1); }
  }

  lemma {:induction false} LineEndTrim(s: seq<Byte>, m: nat, pos: nat)
    requires pos < m <= |s| && s[m - 1] == NL
    ensures LineEnd(s[..m], pos) == LineEnd(s, pos) <= m
    decreases m - pos
  {
    if s[pos] != NL { LineEndTrim(s, m, pos + 1); }
  }

  /** Dropping an unterminated last row changes no complete line. */
  lemma {:induction false} LinesTrim(s: seq<Byte>, m: nat, pos: nat)
    requires pos <= m <= |s| && (pos < m ==> s[m - 1] == NL) && forall i :: m <= i < |s| ==> s[i] != NL
    ensures Lines(s[..m], pos) == Lines(s, pos)
    decreases m - pos
  {
    if pos < m {
      LineEndTrim(s, m, pos);
      var e := LineEnd(s, pos);
      assert s[..m][pos..e] == s[pos..e];
      LinesTrim(s, m, e);
    }
  }

  lemma LastNOfSuffix<T>(x: seq<T>, y: seq<T>, n: nat)
    requires |y| >= n
    ensures LastN(x + y, n) == LastN(y, n)
  {
  }

  lemma LastNSnoc<T>(s: seq<T>, x: T, n: nat)
    ensures LastN(LastN(s, n) + [x], n) == LastN(s + [x], n)
  {
  }

  // ---------------------------------------------------------------- the tail, read backwards

  function Min(a: nat, b: nat): nat {
    if a < b then a else b
  }

  /** Where the backward walk stops: enough newlines behind it, or at the first data row. */
  function TailStop(data: seq<Byte>, start: nat, n: nat, block: nat, pos: nat): (stop: nat)
    requires start <= pos <= |data| && block > 0
    ensures start <= stop <= pos
    ensures stop > start ==> CountNL(data, stop) > n
    decreases pos
  {
    if pos > start && CountNL(data, pos) <= n then TailStop(data, start, n, block, pos - Min(block, pos - start))
    else pos
  }

  /** Blank lines are not rows to a CSV reader. */
  function DropBlank(ls: seq<Line>): seq<Line> {
    if ls == [] then []
    else
      var before, l := DropBlank(ls[..|ls| - 1]), ls[|ls| - 1];
      if l == [NL] then before else before + [l]
  }

  /** Only blank lines are passed over, and the others keep their order. */
  lemma {:induction false} BlankLinesOnly(a: seq<Line>, l: Line, b: seq<Line>)
    ensures DropBlank(a + [l] + b) == DropBlank(a) + (if l == [10] then [] else [l]) + DropBlank(b)
    decreases |b|
  {
    if b == [] {
      assert a + [l] + b == a + [l] && (a + [l])[..|a|] == a;
    } else {
      var init := b[..|b| - 1];
      BlankLinesOnly(a, l, init);
      assert (a + [l] + b)[..|a + [l] + b| - 1] == a + [l] + init;
    }
  }

  /** Python's `rows[-n:]`: for zero it is the whole list. */
  function PyLast<T>(rows: seq<T>, n: nat): seq<T> {
    if n == 0 then rows else LastN(rows, n)
  }

  /** What the tail reader returns, as a function of where it stopped. */
  function TailResult(data: seq<Byte>, n: nat, block: nat): seq<Line>
    requires block > 0
  {
    var start := LineEnd(data, 0);
    var stop := TailStop(data, start, n, block, |data|);
    PyLast(DropBlank(Lines(data, if stop > start then LineEnd(data, stop) else stop)), n)
  }

  function CountBytes(buf: seq<Byte>): nat {
    CountNL(buf, 0)
  }

  /** The rows a CSV reader makes of the bytes from `pos` on: an unterminated last one is a row to it like any other. */
  function Rows(s: seq<Byte>, pos: nat): seq<Line>
    requires pos <= |s|
    decreases |s| - pos
  {
    if pos == |s| then [] else [s[pos..LineEnd(s, pos)]] + Rows(s, LineEnd(s, pos))
  }

  /** Of bytes that end with a newline those are the complete lines. */
  lemma {:induction false} RowsAreLines(s: seq<Byte>, pos: nat)
    requires pos <= |s| && (pos < |s| ==> s[|s| - 1] == NL)
    ensures Rows(s, pos) == Lines(s, pos)
    decreases |s| - pos
  {
    if pos < |s| { RowsAreLines(s, LineEnd(s, pos)); }
  }

  /** Drop the unterminated last row: the writer may be mid-append. What a reader sees then is the complete lines. */
  method DropTornRow(buf: seq<Byte>) returns (r: seq<Byte>)
    ensures Rows(r, 0) == Lines(buf, 0)
  {
    hide Lines, CountNL, Rows;
    var m: nat := |buf|;
    while m > 0 && buf[m - 1] != NL
      invariant m <= |buf| && forall i :: m <= i < |buf| ==> buf[i] != NL
    {
      m := m - 1;
    }
    LinesTrim(buf, m, 0);
    r := buf[..m];
    RowsAreLines(r, 0);
  }

  /** The bytes read so far, extended one block backwards, are again a suffix of the file. */
  lemma BlockBefore(data: seq<Byte>, pos: nat, step: nat)
    requires step <= pos <= |data|
    ensures data[pos - step..pos] + data[pos..] == data[pos - step..]
  {
  }

  lemma CountOfSuffix(data: seq<Byte>, pos: nat)
    requires pos <= |data|
    ensures CountBytes(data[pos..]) == CountNL(data, pos)
  {
    hide CountNL;
    CountShift(data, pos, 0);
  }

  lemma TailStopStep(data: seq<Byte>, start: nat, n: nat, block: nat, pos: nat)
    requires start < pos <= |data| && block > 0 && CountNL(data, pos) <= n
    ensures TailStop(data, start, n, block, pos) == TailStop(data, start, n, block, pos - Min(block, pos - start))
  {
    hide CountNL, LineEnd, Lines;
  }

  /** Walk blocks backwards from the end until more than `n` newlines are behind. */
  method WalkBack(data: seq<Byte>, start: nat, n: nat, block: nat) returns (pos: nat, buf: seq<Byte>)
    requires start <= |data| && block > 0
    ensures pos <= |data| && pos == TailStop(data, start, n, block, |data|) && buf == data[pos..]
  {
    hide CountNL, CountBytes, LineEnd, Lines;
    pos, buf := |data|, [];
    while pos > start && CountBytes(buf) <= n
      invariant start <= pos <= |data| && buf == data[pos..]
      invariant TailStop(data, start, n, block, pos) == TailStop(data, start, n, block, |data|)
      decreases pos
    {
      CountOfSuffix(data, pos);
      TailStopStep(data, start, n, block, pos);
      var step := Min(block, pos - start);
      BlockBefore(data, pos, step);
      pos, buf := pos - step, data[pos - step..pos] + buf;
    }
    CountOfSuffix(data, pos);
  }

  lemma DropFirstLine(data: seq<Byte>, pos: nat)
    requires pos <= |data|
    ensures data[pos..][LineEnd(data[pos..], 0)..] == data[LineEnd(data, pos)..]
  {
    LineEndShift(data, pos, 0);
    hide LineEnd;
  }

  /** Having landed mid-line, drop through the first newline. */
  method DropPartialLine(data: seq<Byte>, start: nat, pos: nat, buf: seq<Byte>) returns (r: seq<Byte>)
    requires start <= pos <= |data| && buf == data[pos..]
    ensures r == data[if pos > start then LineEnd(data, pos) else pos..]
  {
    hide LineEnd;
    if pos > start {
      DropFirstLine(data, pos);
      r := buf[LineEnd(buf, 0)..];
    } else {
      r := buf;
    }
  }

  lemma NothingAfterHeader(data: seq<Byte>, n: nat, block: nat)
    requires block > 0 && LineEnd(data, 0) == |data|
    ensures TailResult(data, n, block) == []
  {
    assert Lines(data, |data|) == [];
    assert TailStop(data, |data|, n, block, |data|) == |data|;
  }

  method TailRows(data: seq<Byte>, n: nat, block: nat) returns (rows: seq<Line>)
    requires block > 0
    ensures rows == TailResult(data, n, block)
  {
    hide CountNL, CountBytes, LineEnd, TailStop, Lines, Rows, PyLast, DropBlank;
    var start := LineEnd(data, 0);
    if |data| <= start {
      NothingAfterHeader(data, n, block);
      return [];
    }
    var pos, buf := WalkBack(data, start, n, block);
    buf := DropPartialLine(data, start, pos, buf);
    LinesShift(data, if pos > start then LineEnd(data, pos) else pos, 0);
    if buf == [] || buf[|buf| - 1] != NL {
      buf := DropTornRow(buf);
    } else {
      RowsAreLines(buf, 0);
    }
    rows := PyLast(DropBlank(Rows(buf, 0)), n);
  }

  ghost predicate NoBlankLines(data: seq<Byte>) {
    forall i :: 0 <= i < |Lines(data, LineEnd(data, 0))| ==> Lines(data, LineEnd(data, 0))[i] != [NL]
  }

  lemma {:induction false} DropBlankIsIdentity(ls: seq<Line>)
    requires forall i :: 0 <= i < |ls| ==> ls[i] != [NL]
    ensures DropBlank(ls) == ls
  {
    if ls != [] {
      var init := ls[..|ls| - 1];
      assert forall i :: 0 <= i < |init| ==> init[i] == ls[i];
      DropBlankIsIdentity(init);
    }
  }

  /** Having stopped inside the data, at least `n` complete rows follow the first newline. */
  lemma EnoughBehind(data: seq<Byte>, start: nat, stop: nat, n: nat) returns (before: seq<Line>)
    requires start <= stop <= |data| && CountNL(data, stop) > n
    ensures var q := LineEnd(data, stop);
            |Lines(data, q)| >= n && Lines(data, start) == before + Lines(data, q)
  {
    var q := LineEnd(data, stop);
    assert stop < |data|;
    CountSkips(data, stop, q - 1);
    assert data[q - 1] == NL;
    CountIsLines(data, q);
    before := LinesSplit(data, start, q);
  }

  lemma NoBlankSuffix(before: seq<Line>, tail: seq<Line>)
    requires forall i :: 0 <= i < |before + tail| ==> (before + tail)[i] != [NL]
    ensures DropBlank(tail) == tail
  {
    assert forall i :: 0 <= i < |tail| ==> tail[i] == (before + tail)[|before| + i];
    DropBlankIsIdentity(tail);
  }

  /** BACKWARD TAIL. For every positive `n`, block size and alignment, the tail reader returns exactly the last `n`
      complete data rows of the file - all of them if there are fewer - and never a torn last row. */
  lemma TailIsLastRows(data: seq<Byte>, n: nat, block: nat)
    requires block > 0 && n > 0 && NoBlankLines(data)
    ensures TailResult(data, n, block) == LastN(Lines(data, LineEnd(data, 0)), n)
  {
    hide LineEnd, Lines, CountNL, DropBlank, TailStop;
    var start := LineEnd(data, 0);
    var stop := TailStop(data, start, n, block, |data|);
    if stop > start {
      var before := EnoughBehind(data, start, stop, n);
      var tail := Lines(data, LineEnd(data, stop));
      NoBlankSuffix(before, tail);
      LastNOfSuffix(before, tail, n);
    } else {
      NoBlankSuffix([], Lines(data, start));
      assert [] + Lines(data, start) == Lines(data, start);
    }
  }

  lemma CountPastLine(data: seq<Byte>, stop: nat)
    requires stop <= |data| && CountNL(data, stop) > 0
    ensures CountNL(data, stop) == 1 + CountNL(data, LineEnd(data, stop))
  {
    var q := LineEnd(data, stop);
    assert stop < |data|;
    CountSkips(data, stop, q - 1);
    assert data[q - 1] == NL;
  }

  /** Exactly when the reader meets that promise: for a positive `n` always; for zero only if the bytes it gathers
      hold no complete row, which shows in how many newlines they hold. */
  lemma TailIsLastRowsIff(data: seq<Byte>, n: nat, block: nat)
    requires block > 0 && NoBlankLines(data)
    ensures var start := LineEnd(data, 0);
            var stop := TailStop(data, start, n, block, |data|);
            TailResult(data, n, block) == LastN(Lines(data, start), n) <==>
              n > 0 || CountNL(data, stop) == if stop > start then 1 else 0
  {
    hide LineEnd, Lines, CountNL, DropBlank, TailStop;
    if n > 0 {
      TailIsLastRows(data, n, block);
    } else {
      var start := LineEnd(data, 0);
      var stop := TailStop(data, start, n, block, |data|);
      var all := Lines(data, start);
      assert LastN(all, 0) == [];
      if stop > start {
        var before := EnoughBehind(data, start, stop, n);
        CountPastLine(data, stop);
        NoBlankSuffix(before, Lines(data, LineEnd(data, stop)));
        CountIsLines(data, LineEnd(data, stop));
      } else {
        NoBlankSuffix([], all);
        assert [] + all == all;
        CountIsLines(data, start);
      }
    }
  }

  /** With `n` zero the slice is the whole buffer, so a one-row file comes back in full instead of empty. */
  lemma TailOfZeroIsNotEmpty()
    ensures var data: seq<Byte> := [104, 10, 49, 10];
            TailResult(data, 0, 65536) == [[49, 10]] && LastN(Lines(data, LineEnd(data, 0)), 0) == []
  {
    var data: seq<Byte> := [104, 10, 49, 10];
    assert LineEnd(data, 0) == 2;
    assert LineEnd(data, 2) == 4;
    assert Lines(data, 4) == [];
    assert data[2..4] == [49, 10];
    var row: seq<Line> := [[49, 10]];
    assert Lines(data, 2) == row + Lines(data, 4) == row;
    assert CountNL(data, 4) == 0;
    assert TailStop(data, 2, 0, 65536, 4) == 2;
    DropBlankIsIdentity(row);
  }

  // ---------------------------------------------------------------- bisection by byte offset

  /** Snap an offset to the start of the next full line. */
  function LineStartAt(data: seq<Byte>, off: nat, headerEnd: nat): nat
    requires headerEnd <= |data| && off <= |data|
  {
    if off <= headerEnd then headerEnd else LineEnd(data, off - 1)
  }

  predicate RowStart(data: seq<Byte>, p: nat) {
    LineEnd(data, 0) <= p < |data| && (p == LineEnd(data, 0) || data[p - 1] == NL)
  }

  type Stamp = Line -> Option<int>

  /** Newline-terminated rows, every one stamped, stamps nondecreasing. */
  ghost predicate Chronological(data: seq<Byte>, ts: Stamp) {
    && (data != [] ==> data[|data| - 1] == NL)
    && (forall p: nat :: RowStart(data, p) ==> ts(ReadLine(data, p)).Some?)
    && (forall p: nat, q: nat :: RowStart(data, p) && RowStart(data, q) && p <= q
          ==> ts(ReadLine(data, p)).value <= ts(ReadLine(data, q)).value)
  }

  /** The row starting at `p` is stamped before `t`. */
  ghost predicate Before(data: seq<Byte>, ts: Stamp, p: nat, t: int)
    requires p <= |data|
  {
    ts(ReadLine(data, p)).Some? && ts(ReadLine(data, p)).value < t
  }

  /** Offset of the first data row stamped `t` or later, or the file size. */
  ghost predicate FirstFrom(data: seq<Byte>, ts: Stamp, t: int, off: nat) {
    && off <= |data|
    && (off < |data| ==>
          RowStart(data, off) && (ts(ReadLine(data, off)).Some? ==> ts(ReadLine(data, off)).value >= t))
    && (forall p: nat :: RowStart(data, p) && p < off ==>
          ts(ReadLine(data, p)).Some? && ts(ReadLine(data, p)).value < t)
  }

  /** The snapped offset is a row start or the end, and no row starts in between. */
  lemma LineStartIsNext(data: seq<Byte>, off: nat)
    requires LineEnd(data, 0) <= off <= |data|
    ensures var p := LineStartAt(data, off, LineEnd(data, 0));
            && off <= p <= |data| && (p < |data| ==> RowStart(data, p))
            && forall q: nat :: RowStart(data, q) && off <= q ==> p <= q
  {
  }

  method BisectCsv(data: seq<Byte>, ts: Stamp, t: int) returns (off: nat)
    ensures off <= |data|
    ensures Chronological(data, ts) ==> FirstFrom(data, ts, t, off)
  {
    hide LineEnd, LineStartAt;
    var headerEnd := LineEnd(data, 0);
    var lo, hi := headerEnd, |data|;
    while lo < hi
      invariant headerEnd <= lo <= hi <= |data|
      invariant Chronological(data, ts) ==> forall p: nat :: RowStart(data, p) && p < lo ==> Before(data, ts, p, t)
      invariant Chronological(data, ts) ==> forall p: nat :: RowStart(data, p) && hi <= p ==> !Before(data, ts, p, t)
    {
      var mid := (lo + hi) / 2;
      LineStartIsNext(data, mid);
      var start := LineStartAt(data, mid, headerEnd);
      var line := ReadLine(data, start);
      var stamp := if line == [] then None else ts(line);
      if stamp.None? || stamp.value >= t {
        hi := mid;
      } else {
        lo := mid + 1;
      }
    }
    LineStartIsNext(data, lo);
    off := LineStartAt(data, lo, headerEnd);
  }

  // ---------------------------------------------------------------- the tape before an instant

  /** Rows from `pos` until one is stamped after `at`; unstamped rows are passed over. */
  function RowsUpTo(data: seq<Byte>, ts: Stamp, at: int, pos: nat): seq<Line>
    requires pos <= |data|
    decreases |data| - pos
  {
    if pos == |data| then []
    else
      var line, next := ReadLine(data, pos), LineEnd(data, pos);
      match ts(line)
      case None => RowsUpTo(data, ts, at, next)
      case Some(t) => if t > at then [] else [line] + RowsUpTo(data, ts, at, next)
  }

  /** Every row from `pos` on stamped within `[since, at]`. */
  function RowsWithin(data: seq<Byte>, ts: Stamp, since: int, at: int, pos: nat): seq<Line>
    requires pos <= |data|
    decreases |data| - pos
  {
    if pos == |data| then []
    else
      var line, rest := ReadLine(data, pos), RowsWithin(data, ts, since, at, LineEnd(data, pos));
      if ts(line).Some? && since <= ts(line).value <= at then [line] + rest else rest
  }

  /** A data row starts at `p` and is stamped no earlier than `since` and no later than `at`. */
  predicate StampedIn(data: seq<Byte>, ts: Stamp, since: int, at: int, p: nat) {
    RowStart(data, p) && ts(ReadLine(data, p)).Some? && since <= ts(ReadLine(data, p)).value <= at
  }

  /** `rows` are the lines at the positions `starts`, in order: those so stamped from `pos` on. */
  ghost predicate WindowOf(data: seq<Byte>, ts: Stamp, since: int, at: int, pos: nat, starts: seq<nat>, rows: seq<Line>)
  {
    && |rows| == |starts|
    && (forall i :: 0 <= i < |starts| ==>
          && pos <= starts[i] < |data| && StampedIn(data, ts, since, at, starts[i])
          && rows[i] == ReadLine(data, starts[i]))
    && (forall i, j :: 0 <= i < j < |starts| ==> starts[i] < starts[j])
    && (forall p: nat :: pos <= p && StampedIn(data, ts, since, at, p) ==> p in starts)
  }

  lemma WindowTakes(data: seq<Byte>, ts: Stamp, since: int, at: int, pos: nat, q: nat, rest: seq<nat>, rows: seq<Line>)
    requires pos < q && pos < |data| && StampedIn(data, ts, since, at, pos)
    requires WindowOf(data, ts, since, at, q, rest, rows)
    requires forall p: nat :: pos < p && StampedIn(data, ts, since, at, p) ==> q <= p
    ensures WindowOf(data, ts, since, at, pos, [pos] + rest, [ReadLine(data, pos)] + rows)
  {
    hide ReadLine, StampedIn;
  }

  lemma WindowSkips(data: seq<Byte>, ts: Stamp, since: int, at: int, pos: nat, q: nat, rest: seq<nat>, rows: seq<Line>)
    requires pos < q && WindowOf(data, ts, since, at, q, rest, rows) && !StampedIn(data, ts, since, at, pos)
    requires forall p: nat :: pos < p && StampedIn(data, ts, since, at, p) ==> q <= p
    ensures WindowOf(data, ts, since, at, pos, rest, rows)
  {
    hide ReadLine, StampedIn;
  }

  lemma NextStamped(data: seq<Byte>, ts: Stamp, since: int, at: int, pos: nat)
    requires RowStart(data, pos)
    ensures pos < LineEnd(data, pos) && AtRow(data, LineEnd(data, pos))
    ensures forall p: nat :: pos < p && StampedIn(data, ts, since, at, p) ==> LineEnd(data, pos) <= p
  {
    NextRowStart(data, pos);
  }

  /** Position by position, that is what `RowsWithin` collects. */
  lemma {:induction false} WindowRows(data: seq<Byte>, ts: Stamp, since: int, at: int, pos: nat)
    returns (starts: seq<nat>)
    requires AtRow(data, pos)
    ensures WindowOf(data, ts, since, at, pos, starts, RowsWithin(data, ts, since, at, pos))
    decreases |data| - pos
  {
    hide ReadLine, LineEnd, WindowOf;
    if pos == |data| {
      starts := [];
      WindowEnds(data, ts, since, at);
    } else {
      var q := LineEnd(data, pos);
      NextStamped(data, ts, since, at, pos);
      starts := WindowRows(data, ts, since, at, q);
      if StampedIn(data, ts, since, at, pos) {
        WindowTakes(data, ts, since, at, pos, q, starts, RowsWithin(data, ts, since, at, q));
        starts := [pos] + starts;
      } else {
        WindowSkips(data, ts, since, at, pos, q, starts, RowsWithin(data, ts, since, at, q));
      }
    }
  }

  lemma WindowEnds(data: seq<Byte>, ts: Stamp, since: int, at: int)
    ensures WindowOf(data, ts, since, at, |data|, [], [])
  {
  }

  lemma ReadStep(data: seq<Byte>, ts: Stamp, at: int, pos: nat, read: seq<Line>)
    requires pos < |data|
    ensures var line, next := ReadLine(data, pos), LineEnd(data, pos);
            read + RowsUpTo(data, ts, at, pos) ==
            if ts(line).None? then read + RowsUpTo(data, ts, at, next)
            else if ts(line).value > at then read
            else (read + [line]) + RowsUpTo(data, ts, at, next)
  {
    hide ReadLine, LineEnd;
  }

  /** One pass: read forward from `off`, keeping the last `n`. */
  method ReadForward(data: seq<Byte>, ts: Stamp, at: int, n: nat, off: nat) returns (out: seq<Line>)
    requires off <= |data|
    ensures out == LastN(RowsUpTo(data, ts, at, off), n)
  {
    out := [];
    var pos: nat := off;
    ghost var read: seq<Line> := [];
    while pos < |data|
      invariant off <= pos <= |data| && out == LastN(read, n)
      invariant read + RowsUpTo(data, ts, at, pos) == RowsUpTo(data, ts, at, off)
    {
      hide RowsUpTo, ReadLine, LineEnd, LastN;
      ReadStep(data, ts, at, pos, read);
      var line := ReadLine(data, pos);
      match ts(line) {
        case None =>
        case Some(t) =>
          if t > at {
            return;
          }
          LastNSnoc(read, line, n);
          out := LastN(out + [line], n);
          read := read + [line];
      }
      pos := LineEnd(data, pos);
    }
    assert read + [] == read;
  }

  lemma NextRowStart(data: seq<Byte>, p: nat)
    requires RowStart(data, p)
    ensures LineEnd(data, p) < |data| ==> RowStart(data, LineEnd(data, p))
    ensures forall q: nat :: RowStart(data, q) && p < q ==> LineEnd(data, p) <= q
  {
  }

  predicate AtRow(data: seq<Byte>, p: nat) {
    p <= |data| && (p < |data| ==> RowStart(data, p))
  }

  /** Once a row is stamped after the instant, so is every later one. */
  lemma {:induction false} LaterRowsExcluded(data: seq<Byte>, ts: Stamp, since: int, at: int, p: nat)
    requires Chronological(data, ts) && RowStart(data, p) && ts(ReadLine(data, p)).value > at
    ensures RowsWithin(data, ts, since, at, p) == []
    decreases |data| - p
  {
    hide ReadLine, LineEnd;
    NextRowStart(data, p);
    var q := LineEnd(data, p);
    if q < |data| { LaterRowsExcluded(data, ts, since, at, q); }
  }

  /** From the first row inside the window, stopping at the first later row loses nothing. */
  lemma {:induction false} StoppingEarlyIsSafe(data: seq<Byte>, ts: Stamp, since: int, at: int, p: nat)
    requires Chronological(data, ts) && AtRow(data, p) && (p < |data| ==> !Before(data, ts, p, since))
    ensures RowsUpTo(data, ts, at, p) == RowsWithin(data, ts, since, at, p)
    decreases |data| - p
  {
    hide ReadLine, LineEnd;
    if p < |data| {
      NextRowStart(data, p);
      var q := LineEnd(data, p);
      StoppingEarlyIsSafe(data, ts, since, at, q);
      if ts(ReadLine(data, p)).value > at { LaterRowsExcluded(data, ts, since, at, p); }
    }
  }

  lemma RowStep(data: seq<Byte>, ts: Stamp, since: int, at: int, p: nat)
    requires p < |data| && ts(ReadLine(data, p)).Some?
    ensures RowsWithin(data, ts, since, at, p) ==
            (if since <= ts(ReadLine(data, p)).value <= at then [ReadLine(data, p)] else [])
            + RowsWithin(data, ts, since, at, LineEnd(data, p))
  {
    hide ReadLine, LineEnd;
  }

  /** Rows skipped in front of `off`, none after the instant, are a prefix of the window's rows - and none of them
      is in the window when they all come before it. */
  lemma {:induction false} SkippedIsPrefix(data: seq<Byte>, ts: Stamp, since: int, at: int, t: int, p: nat, off: nat)
    returns (before: seq<Line>)
    requires Chronological(data, ts) && p <= off && AtRow(data, p) && AtRow(data, off)
    requires forall q: nat :: RowStart(data, q) && q < off ==> Before(data, ts, q, t)
    ensures RowsWithin(data, ts, since, at, p) == before + RowsWithin(data, ts, since, at, off)
    ensures t <= since ==> before == []
    decreases |data| - p
  {
    hide ReadLine, LineEnd, RowsWithin;
    if p == off {
      before := [];
      assert before + RowsWithin(data, ts, since, at, off) == RowsWithin(data, ts, since, at, off);
    } else {
      NextRowStart(data, p);
      RowStep(data, ts, since, at, p);
      assert Before(data, ts, p, t);
      var rest := SkippedIsPrefix(data, ts, since, at, t, LineEnd(data, p), off);
      before := (if since <= ts(ReadLine(data, p)).value <= at then [ReadLine(data, p)] else []) + rest;
    }
  }

  const LOOKBACKS: seq<int> := [60_000, 900_000, 86_400_000]
  const DAY: int := 86_400_000

  /** The prints of the 24 hours up to the instant. */
  function DayBack(data: seq<Byte>, ts: Stamp, at: int): seq<Line> {
    RowsWithin(data, ts, at - DAY, at, LineEnd(data, 0))
  }

  /** A pass that fills up, or that looks a whole day back, has the last `n` prints of those 24 hours. */
  lemma PassIsSuffix(data: seq<Byte>, ts: Stamp, at: int, lookback: int, n: nat, off: nat)
    requires Chronological(data, ts) && lookback <= DAY && FirstFrom(data, ts, at - lookback, off)
    ensures var got := LastN(RowsUpTo(data, ts, at, off), n);
            |got| >= n || lookback == DAY ==> got == LastN(DayBack(data, ts, at), n)
  {
    hide ReadLine, LineEnd, RowsUpTo, RowsWithin;
    var start, since := LineEnd(data, 0), at - DAY;
    assert off < |data| ==> !Before(data, ts, off, since);
    StoppingEarlyIsSafe(data, ts, since, at, off);
    StartIsRow(data, off);
    var before := SkippedIsPrefix(data, ts, since, at, at - lookback, start, off);
    var got := RowsWithin(data, ts, since, at, off);
    if lookback == DAY {
      assert [] + got == got;
    } else if |LastN(got, n)| >= n {
      LastNOfSuffix(before, got, n);
    }
  }

  lemma StartIsRow(data: seq<Byte>, off: nat)
    ensures AtRow(data, LineEnd(data, 0))
    ensures off < |data| && RowStart(data, off) ==> LineEnd(data, 0) <= off
    ensures off == |data| ==> LineEnd(data, 0) <= off
  {
  }

  /** The file holds rows of the instant's own UTC day. */
  ghost predicate SameDay(data: seq<Byte>, ts: Stamp, at: int) {
    forall p: nat :: RowStart(data, p) && ts(ReadLine(data, p)).Some? ==>
      ts(ReadLine(data, p)).value / 86_400_000 == at / 86_400_000
  }

  /** Every row from `pos` on stamped at or before the instant. */
  function RowsAtOrBefore(data: seq<Byte>, ts: Stamp, at: int, pos: nat): seq<Line>
    requires pos <= |data|
    decreases |data| - pos
  {
    if pos == |data| then []
    else
      var line, rest := ReadLine(data, pos), RowsAtOrBefore(data, ts, at, LineEnd(data, pos));
      if ts(line).Some? && ts(line).value <= at then [line] + rest else rest
  }

  /** In a day file, the last 24 hours hold every print up to the instant. */
  lemma {:induction false} DayFileIsCovered(data: seq<Byte>, ts: Stamp, at: int, p: nat)
    requires SameDay(data, ts, at) && AtRow(data, p)
    ensures RowsAtOrBefore(data, ts, at, p) == RowsWithin(data, ts, at - DAY, at, p)
    decreases |data| - p
  {
    hide ReadLine, LineEnd;
    if p < |data| {
      NextRowStart(data, p);
      DayFileIsCovered(data, ts, at, LineEnd(data, p));
      var line := ReadLine(data, p);
      if ts(line).Some? { SameDayWithin(ts(line).value, at); }
    }
  }

  lemma SameDayWithin(t: int, at: int)
    requires t / DAY == at / DAY
    ensures t > at - DAY
  {
  }

  /** Widen the lookback until `n` prints are caught; the last pass reads a whole day back. In a day file that is
      every print up to the instant. */
  method TapeBefore(data: seq<Byte>, ts: Stamp, at: int, n: nat) returns (out: seq<Line>)
    ensures Chronological(data, ts) ==> out == LastN(RowsWithin(data, ts, at - 86_400_000, at, LineEnd(data, 0)), n)
    ensures Chronological(data, ts) && SameDay(data, ts, at) ==>
              out == LastN(RowsAtOrBefore(data, ts, at, LineEnd(data, 0)), n)
  {
    hide RowsUpTo, RowsWithin, RowsAtOrBefore, LineEnd, Chronological, FirstFrom, LastN, SameDay;
    StartIsRow(data, 0);
    if SameDay(data, ts, at) {
      DayFileIsCovered(data, ts, at, LineEnd(data, 0));
    }
    hide DayBack;
    out := [];
    for i := 0 to 3
      invariant i == 3 && Chronological(data, ts) ==> out == LastN(DayBack(data, ts, at), n)
    {
      var off := BisectCsv(data, ts, at - LOOKBACKS[i]);
      out := ReadForward(data, ts, at, n, off);
      if Chronological(data, ts) {
        PassIsSuffix(data, ts, at, LOOKBACKS[i], n, off);
      }
      if |out| >= n {
        return;
      }
    }
  }
}
