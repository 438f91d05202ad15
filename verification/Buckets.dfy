/** De-duplication of polled REST buckets for one key: what overlapping polls write. A bucket is named by its number,
    its timestamp divided by its period. */
module Buckets {
  import opened Basics

  const DATA_BUCKET_LIMIT: nat := 8
  const KLINE_BUCKET_LIMIT: nat := 4

  /** A kline row; a short one is malformed and passed over. */
  datatype Kline = Kline(ts: int, short: bool)

  /** The buckets accepted so far, and one more if it is newer than the last. */
  function Accept(acc: seq<int>, ts: int): seq<int> {
    if acc != [] && Last(acc) >= ts then acc else acc + [ts]
  }

  function AcceptAll(acc: seq<int>, polled: seq<int>): seq<int> {
    if polled == [] then acc else Accept(AcceptAll(acc, polled[..|polled| - 1]), Last(polled))
  }

  /** What reaches the disk, given which write attempts succeed: every accepted bucket is attempted in turn. */
  function Kept(acc: seq<int>, disk: nat -> bool): seq<int> {
    if acc == [] then [] else Kept(acc[..|acc| - 1], disk) + if disk(|acc| - 1) then [Last(acc)] else []
  }

  function Usable(rows: seq<Kline>): seq<int> {
    if rows == [] then [] else Usable(rows[..|rows| - 1]) + if Last(rows).short then [] else [Last(rows).ts]
  }

  /** All rows but the last, whose bucket is still open. */
  function Closed(rows: seq<Kline>): seq<Kline> {
    rows[..SatSub(|rows|, 1)]
  }

  lemma AcceptSnoc(acc: seq<int>, polled: seq<int>, ts: int)
    ensures AcceptAll(acc, polled + [ts]) == Accept(AcceptAll(acc, polled), ts)
  {
    assert (polled + [ts])[..|polled|] == polled;
  }

  lemma UsableSnoc(rows: seq<Kline>, i: nat)
    requires i < |rows|
    ensures Usable(rows[..i + 1]) == if rows[i].short then Usable(rows[..i]) else Usable(rows[..i]) + [rows[i].ts]
  {
    assert rows[..i + 1][..i] == rows[..i];
  }

  class BucketLog {
    const disk: nat -> bool
    var last: Option<int>
    var attempts: nat
    var written: seq<int>
    ghost var accepted: seq<int>

    ghost predicate Recorded()
      reads this
    {
      last == if accepted == [] then None else Some(Last(accepted))
    }

    ghost predicate Valid()
      reads this
    {
      Recorded() && attempts == |accepted| && written == Kept(accepted, disk)
    }

    constructor (disk: nat -> bool)
      ensures Valid() && accepted == [] && this.disk == disk
    {
      last, attempts, written, accepted, this.disk := None, 0, [], [], disk;
    }

    /** True, and recorded, only for a bucket newer than the last: recorded before it is written. */
    method IsNewBucket(ts: int) returns (isNew: bool)
      requires Recorded()
      modifies this
      ensures Recorded() && written == old(written) && attempts == old(attempts)
      ensures accepted == Accept(old(accepted), ts) && isNew == (accepted != old(accepted))
    {
      if last.Some? && last.value >= ts {
        return false;
      }
      last, accepted, isNew := Some(ts), accepted + [ts], true;
    }

    /** Write one bucket if it is new; a failed write is only logged. */
    method Store(ts: int)
      requires Valid()
      modifies this
      ensures Valid() && accepted == Accept(old(accepted), ts)
    {
      ghost var before := accepted;
      var isNew := IsNewBucket(ts);
      if !isNew {
        return;
      }
      assert accepted[..|accepted| - 1] == before;
      if disk(attempts) {
        written := written + [ts];
      }
      attempts := attempts + 1;
    }

    method CollectMarkPriceKlines(rows: seq<Kline>)
      requires Valid()
      modifies this
      ensures Valid() && accepted == AcceptAll(old(accepted), Usable(Closed(rows)))
    {
      var closed := Closed(rows);
      for i := 0 to |closed|
        invariant Valid() && accepted == AcceptAll(old(accepted), Usable(closed[..i]))
      {
        hide Accept, Usable, AcceptAll, Valid;
        UsableSnoc(closed, i);
        if closed[i].short {
          continue;
        }
        AcceptSnoc(old(accepted), Usable(closed[..i]), closed[i].ts);
        Store(closed[i].ts);
      }
      assert closed[..|closed|] == closed;
    }

    method CollectTakerRatio(buckets: seq<int>)
      requires Valid()
      modifies this
      ensures Valid() && accepted == AcceptAll(old(accepted), buckets)
    {
      for i := 0 to |buckets|
        invariant Valid() && accepted == AcceptAll(old(accepted), buckets[..i])
      {
        hide Accept, AcceptAll, Valid;
        AcceptSnoc(old(accepted), buckets[..i], buckets[i]);
        assert buckets[..i + 1] == buckets[..i] + [buckets[i]];
        Store(buckets[i]);
      }
      assert buckets[..|buckets|] == buckets;
    }
  }

  // ---------------------------------------------------------------- exactly once

  predicate Increasing(acc: seq<int>) {
    forall i, j :: 0 <= i < j < |acc| ==> acc[i] < acc[j]
  }

  /** Whatever is polled, in whatever order: the accepted buckets strictly increase, so none is ever repeated. */
  lemma {:induction false} NeverRepeated(acc: seq<int>, polled: seq<int>)
    requires Increasing(acc)
    ensures Increasing(AcceptAll(acc, polled)) && acc <= AcceptAll(acc, polled)
    decreases |polled|
  {
    if polled != [] {
      NeverRepeated(acc, polled[..|polled| - 1]);
      AcceptIncreases(AcceptAll(acc, polled[..|polled| - 1]), Last(polled));
    }
  }

  lemma AcceptIncreases(acc: seq<int>, ts: int)
    requires Increasing(acc)
    ensures Increasing(Accept(acc, ts)) && acc <= Accept(acc, ts)
  {
  }

  /** On disk is what some successful attempt wrote. */
  lemma {:induction false} KeptMembers(acc: seq<int>, disk: nat -> bool, ts: int)
    ensures ts in Kept(acc, disk) <==> exists i: nat :: i < |acc| && acc[i] == ts && disk(i)
  {
    if acc != [] {
      var init := acc[..|acc| - 1];
      KeptMembers(init, disk, ts);
      if i: nat :| i < |acc| && acc[i] == ts && disk(i) {
        assert i < |init| ==> init[i] == ts;
      }
      if i: nat :| i < |init| && init[i] == ts && disk(i) {
        assert acc[i] == ts;
      }
    }
  }

  /** A bucket is recorded before it is written, so it is attempted once: it reaches the disk if and only if that one
      attempt succeeds, however many later polls return it again and whatever the disk would take by then. */
  lemma OneAttemptDecides(acc: seq<int>, polled: seq<int>, disk: nat -> bool, i: nat)
    requires Increasing(acc) && i < |acc|
    ensures var all := AcceptAll(acc, polled);
            && (acc[i] in Kept(all, disk) <==> disk(i))
            && multiset(all)[acc[i]] == 1
  {
    NeverRepeated(acc, polled);
    var all := AcceptAll(acc, polled);
    assert all[i] == acc[i];
    KeptMembers(all, disk, acc[i]);
    OnceOnly(all, i);
  }

  const SEVENS: seq<int> := [7, 7, 7]

  /** A disk that refuses only the very first write: bucket 7, returned by three polls in a row, never gets there. */
  lemma RefusedOnceIsGone()
    ensures AcceptAll([], SEVENS) == [7] && Kept([7], (attempt: nat) => attempt > 0) == []
  {
    assert SEVENS[..2][..1][..0] == [];
    assert AcceptAll([], SEVENS[..2][..1]) == [7];
    assert AcceptAll([], SEVENS[..2]) == [7];
    assert [7][..0] == [];
  }

  lemma OnceOnly(all: seq<int>, i: nat)
    requires Increasing(all) && i < |all|
    ensures multiset(all)[all[i]] == 1
  {
    assert all == all[..i] + [all[i]] + all[i + 1..];
    assert all[i] !in all[..i] && all[i] !in all[i + 1..];
  }

  /** Buckets `lo`, `lo + 1`, ... up to but not including `hi`. */
  function Series(lo: int, hi: int): (s: seq<int>)
    ensures |s| == if lo < hi then hi - lo else 0
    ensures forall i :: 0 <= i < |s| ==> s[i] == lo + i
    decreases hi - lo
  {
    if lo >= hi then [] else Series(lo, hi - 1) + [hi - 1]
  }

  /** Consecutive from `lo` on. */
  predicate From(s: seq<int>, lo: int) {
    forall i :: 0 <= i < |s| ==> s[i] == lo + i
  }

  lemma SeriesIsFrom(s: seq<int>, lo: int, hi: int)
    requires lo <= hi && |s| == hi - lo
    ensures From(s, lo) <==> s == Series(lo, hi)
  {
  }

  lemma FromConcat(x: seq<int>, y: seq<int>, lo: int)
    ensures From(x + y, lo) <==> From(x, lo) && From(y, lo + |x|)
  {
    var s := x + y;
    if From(s, lo) {
      forall i | 0 <= i < |x| ensures x[i] == lo + i { assert s[i] == x[i]; }
      forall i | 0 <= i < |y| ensures y[i] == lo + |x| + i { assert s[|x| + i] == y[i]; }
    }
  }

  /** A poll of consecutive buckets adds exactly those past the last accepted one. */
  lemma {:induction false} AcceptSeries(acc: seq<int>, lo: int, hi: int)
    requires lo <= hi
    ensures AcceptAll(acc, Series(lo, hi)) ==
            acc + Series(if acc != [] && Last(acc) >= lo then Last(acc) + 1 else lo, hi)
    decreases hi - lo
  {
    if lo < hi {
      AcceptSeries(acc, lo, hi - 1);
      AcceptSnoc(acc, Series(lo, hi - 1), hi - 1);
      AcceptOnSeries(acc, lo, hi);
    }
  }

  lemma AcceptOnSeries(acc: seq<int>, lo: int, hi: int)
    requires lo < hi
    ensures var from := if acc != [] && Last(acc) >= lo then Last(acc) + 1 else lo;
            Accept(acc + Series(from, hi - 1), hi - 1) == acc + Series(from, hi)
  {
    var from := if acc != [] && Last(acc) >= lo then Last(acc) + 1 else lo;
    if from < hi {
      assert Series(from, hi) == Series(from, hi - 1) + [hi - 1];
      assert acc + Series(from, hi - 1) + [hi - 1] == acc + Series(from, hi);
    } else {
      assert acc + Series(from, hi) == acc;
    }
  }

  /** A kind of poll: it returns the latest `limit` buckets, of which the last `open` are left alone. */
  datatype Kind = Kind(limit: nat, open: nat)

  const KLINES: Kind := Kind(KLINE_BUCKET_LIMIT, 1)
  const RATIOS: Kind := Kind(DATA_BUCKET_LIMIT, 0)

  /** The buckets considered by a poll made when `end` is the latest bucket. */
  function Poll(kind: Kind, end: int): seq<int> {
    Series(end - kind.limit + 1, end + 1 - kind.open)
  }

  function Polls(kind: Kind, ends: seq<int>): seq<int> {
    if ends == [] then [] else AcceptAll(Polls(kind, ends[..|ends| - 1]), Poll(kind, Last(ends)))
  }

  /** How many buckets one poll considers. */
  function Reach(kind: Kind): int {
    kind.limit - kind.open
  }

  predicate Steady(kind: Kind, ends: seq<int>) {
    forall i :: 0 < i < |ends| ==> ends[i] - ends[i - 1] <= Reach(kind)
  }

  predicate Ascending(ends: seq<int>) {
    forall i :: 0 < i < |ends| ==> ends[i - 1] <= ends[i]
  }

  /** EXACTLY ONCE. Polls in time order accept the full consecutive series from the first poll on, with nothing lost
      or repeated, if and only if no two successive polls are further apart than the buckets one poll considers. */
  lemma {:induction false} ExactlyOnceIff(kind: Kind, ends: seq<int>)
    requires kind.open < kind.limit && ends != [] && Ascending(ends)
    ensures var acc, first := Polls(kind, ends), ends[0] - kind.limit + 1;
            && acc != [] && acc[0] == first && Last(acc) == Last(ends) - kind.open && Increasing(acc)
            && (From(acc, first) <==> Steady(kind, ends))
  {
    hide AcceptAll, Increasing, From, Steady, Poll, Reach;
    var init, end := ends[..|ends| - 1], Last(ends);
    if init == [] {
      FirstPoll(kind, end);
      SinglePollSteady(kind, ends);
    } else {
      assert ends == init + [end];
      ExactlyOnceIff(kind, init);
      SteadySnoc(kind, init, end);
      NextPoll(kind, Polls(kind, init), end);
    }
  }

  lemma FirstPoll(kind: Kind, end: int)
    requires kind.open < kind.limit
    ensures var acc, first := AcceptAll([], Poll(kind, end)), end - kind.limit + 1;
            acc != [] && acc[0] == first && Last(acc) == end - kind.open && Increasing(acc) && From(acc, first)
  {
    hide AcceptAll;
    AcceptSeries([], end - kind.limit + 1, end + 1 - kind.open);
  }

  lemma NextPoll(kind: Kind, acc: seq<int>, end: int)
    requires kind.open < kind.limit && acc != [] && Increasing(acc) && Last(acc) <= end - kind.open
    ensures var all := AcceptAll(acc, Poll(kind, end));
            && all != [] && all[0] == acc[0] && Last(all) == end - kind.open && Increasing(all)
            && (From(all, acc[0]) <==> From(acc, acc[0]) && end - kind.open - Last(acc) <= Reach(kind))
  {
    hide AcceptAll, Increasing, From;
    AcceptSeries(acc, end - kind.limit + 1, end + 1 - kind.open);
    OnePollMore(acc, acc[0], end - kind.limit + 1, end + 1 - kind.open);
  }

  lemma SinglePollSteady(kind: Kind, ends: seq<int>)
    requires |ends| == 1
    ensures Steady(kind, ends)
  {
  }

  lemma SteadySnoc(kind: Kind, init: seq<int>, end: int)
    requires init != []
    ensures Steady(kind, init + [end]) <==> Steady(kind, init) && end - Last(init) <= Reach(kind)
  {
    hide Reach;
    var ends := init + [end];
    assert ends[|init|] == end && ends[|init| - 1] == Last(init);
    if Steady(kind, ends) {
      forall i | 0 < i < |init| ensures init[i] - init[i - 1] <= Reach(kind) {
        assert ends[i] == init[i] && ends[i - 1] == init[i - 1];
      }
    }
  }

  lemma IncreasingConcat(acc: seq<int>, from: int, hi: int)
    requires acc != [] && Increasing(acc) && Last(acc) < from
    ensures Increasing(acc + Series(from, hi))
  {
    var all := acc + Series(from, hi);
    forall i, j | 0 <= i < j < |all| ensures all[i] < all[j] {
      assert i < |acc| ==> acc[i] <= Last(acc);
      assert j >= |acc| ==> all[j] == from + (j - |acc|);
    }
  }

  /** After one more poll the series is complete exactly when it was before and the poll reached back far enough. */
  lemma OnePollMore(acc: seq<int>, first: int, lo: int, hi: int)
    requires acc != [] && Increasing(acc) && acc[0] == first && lo < hi && Last(acc) < hi
    ensures var from := if Last(acc) >= lo then Last(acc) + 1 else lo;
            var all := acc + Series(from, hi);
            && Increasing(all) && Last(all) == hi - 1 && all[0] == first
            && (From(all, first) <==> From(acc, first) && lo <= Last(acc) + 1)
  {
    hide Increasing, From;
    var top := Last(acc);
    var from := if top >= lo then top + 1 else lo;
    IncreasingConcat(acc, from, hi);
    FromConcat(acc, Series(from, hi), first);
    if From(acc, first) {
      FromLast(acc, first);
      SeriesFrom(from, hi, top + 1);
    }
  }

  lemma FromLast(acc: seq<int>, first: int)
    requires acc != [] && From(acc, first)
    ensures Last(acc) + 1 == first + |acc|
  {
  }

  lemma SeriesFrom(from: int, hi: int, start: int)
    ensures From(Series(from, hi), start) <==> from >= hi || from == start
  {
    if from < hi { assert Series(from, hi)[0] == from; }
  }

  // ---------------------------------------------------------------- what one poll takes

  /** What a poll accepts of the first `m` rows. */
  ghost predicate Taking(acc: seq<int>, rows: seq<Kline>, m: nat, took: seq<nat>)
    requires m <= |rows|
  {
    && (forall i :: 0 <= i < |took| ==> took[i] < m && TakesAt(acc, rows, took[i]))
    && (forall i, j :: 0 <= i < j < |took| ==> took[i] < took[j])
    && (forall k: nat :: k < m && TakesAt(acc, rows, k) ==> k in took)
  }

  predicate TakesAt(acc: seq<int>, rows: seq<Kline>, k: nat)
    requires k < |rows|
  {
    && !rows[k].short && (acc != [] ==> rows[k].ts > acc[|acc| - 1])
    && forall j :: 0 <= j < k && !rows[j].short ==> rows[j].ts < rows[k].ts
  }

  /** The newest bucket recorded so far is at least as new as every well-formed row seen, and one of them or recorded
      before. */
  ghost predicate UpToDate(acc: seq<int>, rows: seq<Kline>, m: nat, now: seq<int>)
    requires m <= |rows|
  {
    && (forall j :: 0 <= j < m && !rows[j].short ==> now != [] && rows[j].ts <= now[|now| - 1])
    && (acc != [] ==> now != [] && acc[|acc| - 1] <= now[|now| - 1])
    && (now != [] ==> (acc != [] && now[|now| - 1] == acc[|acc| - 1])
                      || exists j :: 0 <= j < m && !rows[j].short && rows[j].ts == now[|now| - 1])
  }

  /** `took` and the buckets at those positions are what a poll adds to `acc` from its first `m` rows. */
  ghost predicate Polled(acc: seq<int>, rows: seq<Kline>, m: nat, took: seq<nat>, added: seq<int>)
    requires m <= |rows|
  {
    && Taking(acc, rows, m, took) && |added| == |took| && (forall i :: 0 <= i < |took| ==> added[i] == rows[took[i]].ts)
    && UpToDate(acc, rows, m, acc + added) && AcceptAll(acc, Usable(rows[..m])) == acc + added
  }

  lemma {:induction false} TakesFirst(acc: seq<int>, rows: seq<Kline>, m: nat) returns (took: seq<nat>, added: seq<int>)
    requires m <= |rows|
    ensures Polled(acc, rows, m, took, added)
  {
    if m == 0 {
      took, added := [], [];
      assert acc + added == acc;
    } else {
      hide Polled, TakesAt;
      took, added := TakesFirst(acc, rows, m - 1);
      if TakesAt(acc, rows, m - 1) {
        OneTaken(acc, rows, m - 1, took, added);
        took, added := took + [m - 1], added + [rows[m - 1].ts];
      } else {
        NoneTaken(acc, rows, m - 1, took, added);
      }
    }
  }

  lemma OneTaken(acc: seq<int>, rows: seq<Kline>, m: nat, took: seq<nat>, added: seq<int>)
    requires m < |rows| && Polled(acc, rows, m, took, added) && TakesAt(acc, rows, m)
    ensures Polled(acc, rows, m + 1, took + [m], added + [rows[m].ts])
  {
    var ts := rows[m].ts;
    TakenIffNewer(acc, rows, m, acc + added);
    StillUpToDate(acc, rows, m, acc + added);
    TakingSnoc(acc, rows, m, took);
    AddedSnoc(rows, took, added, m);
    UsableSnoc(rows, m);
    AcceptSnoc(acc, Usable(rows[..m]), ts);
    OneMore(acc, added, ts);
    hide UpToDate, TakesAt, Taking, Usable, AcceptAll, Accept;
  }

  lemma OneMore(acc: seq<int>, added: seq<int>, ts: int)
    requires acc + added == [] || Last(acc + added) < ts
    ensures Accept(acc + added, ts) == acc + (added + [ts])
  {
  }

  lemma AddedSnoc(rows: seq<Kline>, took: seq<nat>, added: seq<int>, m: nat)
    requires m < |rows| && |added| == |took|
    requires forall i :: 0 <= i < |took| ==> took[i] < m && added[i] == rows[took[i]].ts
    ensures forall i :: 0 <= i < |took| + 1 ==>
              (took + [m])[i] < |rows| && (added + [rows[m].ts])[i] == rows[(took + [m])[i]].ts
  {
  }

  lemma NoneTaken(acc: seq<int>, rows: seq<Kline>, m: nat, took: seq<nat>, added: seq<int>)
    requires m < |rows| && Polled(acc, rows, m, took, added) && !TakesAt(acc, rows, m)
    ensures Polled(acc, rows, m + 1, took, added)
  {
    TakenIffNewer(acc, rows, m, acc + added);
    StillUpToDate(acc, rows, m, acc + added);
    TakingSnoc(acc, rows, m, took);
    UsableSnoc(rows, m);
    if !rows[m].short { AcceptSnoc(acc, Usable(rows[..m]), rows[m].ts); }
    hide UpToDate, TakesAt, Usable, AcceptAll;
  }

  lemma TakingSnoc(acc: seq<int>, rows: seq<Kline>, m: nat, before: seq<nat>)
    requires m < |rows| && Taking(acc, rows, m, before)
    ensures Taking(acc, rows, m + 1, if TakesAt(acc, rows, m) then before + [m] else before)
  {
    hide TakesAt;
  }

  lemma TakenIffNewer(acc: seq<int>, rows: seq<Kline>, m: nat, now: seq<int>)
    requires m < |rows| && UpToDate(acc, rows, m, now)
    ensures TakesAt(acc, rows, m) <==> !rows[m].short && (now == [] || now[|now| - 1] < rows[m].ts)
  {
  }

  lemma StillUpToDate(acc: seq<int>, rows: seq<Kline>, m: nat, now: seq<int>)
    requires m < |rows| && UpToDate(acc, rows, m, now)
    ensures UpToDate(acc, rows, m + 1, if rows[m].short then now else Accept(now, rows[m].ts))
  {
  }

  /** WHAT A POLL TAKES. Of the rows of a kline poll, in any order and whatever is recorded: in order, exactly the
      well-formed ones before the last that are newer than the last bucket recorded and than every earlier one of the
      poll. */
  lemma PollTakes(acc: seq<int>, rows: seq<Kline>) returns (took: seq<nat>, added: seq<int>)
    ensures forall i :: 0 <= i < |took| ==> took[i] + 1 < |rows|
    ensures forall i, j :: 0 <= i < j < |took| ==> took[i] < took[j]
    ensures forall k: nat :: k < |rows| ==>
              (k in took <==>
                 && k + 1 < |rows| && !rows[k].short && (acc != [] ==> rows[k].ts > acc[|acc| - 1])
                 && forall j :: 0 <= j < k && !rows[j].short ==> rows[j].ts < rows[k].ts)
    ensures |added| == |took| && forall i :: 0 <= i < |took| ==> added[i] == rows[took[i]].ts
    ensures AcceptAll(acc, Usable(Closed(rows))) == acc + added
  {
    hide AcceptAll, Usable;
    took, added := TakesFirst(acc, rows, SatSub(|rows|, 1));
  }

  /** The minute in progress is never recorded. */
  lemma OpenBarIsLeft(acc: seq<int>, rows: seq<Kline>)
    requires rows != [] && rows[|rows| - 1].ts !in acc
    requires forall k :: 0 <= k < |rows| - 1 ==> rows[k].ts != rows[|rows| - 1].ts
    ensures rows[|rows| - 1].ts !in AcceptAll(acc, Usable(Closed(rows)))
  {
    hide AcceptAll, Usable;
    var took, added := PollTakes(acc, rows);
  }

  /** A full poll: the latest `limit` minutes, well formed and in order. */
  predicate FullPoll(rows: seq<Kline>, end: int) {
    && |rows| == KLINE_BUCKET_LIMIT
    && forall i :: 0 <= i < |rows| ==> rows[i] == Kline(end - KLINE_BUCKET_LIMIT + 1 + i, false)
  }

  /** On a full poll that is what `Polls` says, so what is proved of `Polls` is proved of the collector's methods. */
  lemma FullPollIsPoll(acc: seq<int>, rows: seq<Kline>, end: int)
    requires FullPoll(rows, end)
    ensures AcceptAll(acc, Usable(Closed(rows))) == AcceptAll(acc, Poll(KLINES, end))
  {
    UsableOfSeries(rows, end - KLINE_BUCKET_LIMIT + 1, SatSub(|rows|, 1));
    assert Usable(Closed(rows)) == Poll(KLINES, end);
  }

  lemma {:induction false} UsableOfSeries(rows: seq<Kline>, lo: int, m: nat)
    requires m <= |rows| && forall i :: 0 <= i < |rows| ==> rows[i] == Kline(lo + i, false)
    ensures Usable(rows[..m]) == Series(lo, lo + m)
  {
    if m > 0 {
      UsableSnoc(rows, m - 1);
      UsableOfSeries(rows, lo, m - 1);
    }
  }

  /** The ratios have no open bucket: a full poll is taken whole. */
  lemma FullRatioPollIsPoll(acc: seq<int>, buckets: seq<int>, end: int)
    requires |buckets| == DATA_BUCKET_LIMIT
    requires forall i :: 0 <= i < |buckets| ==> buckets[i] == end - DATA_BUCKET_LIMIT + 1 + i
    ensures AcceptAll(acc, buckets) == AcceptAll(acc, Poll(RATIOS, end))
  {
    assert buckets == Poll(RATIOS, end);
  }

  /** For one-minute klines that is three minutes between polls, for the ratios eight buckets. */
  lemma PollSpacing(kind: Kind, ends: seq<int>)
    requires (kind == KLINES || kind == RATIOS) && ends != [] && Ascending(ends)
    ensures var acc := Polls(kind, ends);
            var spacing := if kind == KLINES then 3 else 8;
            acc == Series(acc[0], Last(acc) + 1) <==> forall i :: 0 < i < |ends| ==> ends[i] - ends[i - 1] <= spacing
  {
    hide Polls;
    ExactlyOnceIff(kind, ends);
    var acc := Polls(kind, ends);
    if From(acc, acc[0]) { FromLast(acc, acc[0]); }
    hide Increasing;
    if acc == Series(acc[0], Last(acc) + 1) || From(acc, acc[0]) { SeriesIsFrom(acc, acc[0], Last(acc) + 1); }
  }
}
