/** The bounded per-symbol trade-id window: a set and a queue kept in step. */
module TradeWindow {
  import opened Basics

  const TRADE_DEDUP_WINDOW: nat := 5000

  /** The plain list the window stands for: every id accepted so far, a new one unless among the last `width`. */
  function Accepted(ids: seq<int>, width: nat): seq<int> {
    if ids == [] then []
    else
      var acc := Accepted(ids[..|ids| - 1], width);
      if Last(ids) in LastN(acc, width) then acc else acc + [Last(ids)]
  }

  /** Any `width + 1` successive ids are pairwise different. */
  predicate Spread(acc: seq<int>, width: nat) {
    forall i, j :: 0 <= i < j < |acc| && j - i <= width ==> acc[i] != acc[j]
  }

  lemma InLastN(acc: seq<int>, width: nat, i: nat)
    requires i < |acc| && |acc| - i <= width
    ensures acc[i] in LastN(acc, width)
  {
    if |acc| > width { assert acc[|acc| - width..][i - (|acc| - width)] == acc[i]; }
  }

  lemma SpreadSnoc(acc: seq<int>, width: nat, id: int)
    requires Spread(acc, width) && id !in LastN(acc, width)
    ensures Spread(acc + [id], width)
  {
    forall i, j | 0 <= i < j < |acc| + 1 && j - i <= width ensures (acc + [id])[i] != (acc + [id])[j] {
      if j == |acc| { InLastN(acc, width, i); }
    }
  }

  lemma {:induction false} AcceptedIsSpread(ids: seq<int>, width: nat)
    ensures Spread(Accepted(ids, width), width)
  {
    if ids != [] {
      var init := ids[..|ids| - 1];
      AcceptedIsSpread(init, width);
      if Last(ids) !in LastN(Accepted(init, width), width) { SpreadSnoc(Accepted(init, width), width, Last(ids)); }
    }
  }

  lemma {:induction false} Distinct(s: seq<int>)
    requires forall i, j :: 0 <= i < j < |s| ==> s[i] != s[j]
    ensures |set x | x in s| == |s|
  {
    if s != [] {
      var init := s[..|s| - 1];
      Distinct(init);
      assert (set x | x in s) == (set x | x in init) + {Last(s)};
    }
  }

  /** An id is accepted a second time only after at least a full window of other, pairwise distinct, accepted ids. */
  lemma RepeatsAreFarApart(ids: seq<int>, i: nat, j: nat)
    requires i < j < |Accepted(ids, TRADE_DEDUP_WINDOW)|
    requires Accepted(ids, TRADE_DEDUP_WINDOW)[i] == Accepted(ids, TRADE_DEDUP_WINDOW)[j]
    ensures var acc := Accepted(ids, TRADE_DEDUP_WINDOW);
            && i + 5000 < j
            && var between := acc[j - 5000..j];
               |set x | x in between| == 5000 && acc[i] !in between
  {
    hide Accepted;
    var acc := Accepted(ids, TRADE_DEDUP_WINDOW);
    AcceptedIsSpread(ids, TRADE_DEDUP_WINDOW);
    assert j - i > TRADE_DEDUP_WINDOW;
    var from: nat := j - TRADE_DEDUP_WINDOW;
    var between := acc[from..j];
    forall a, b | 0 <= a < b < |between| ensures between[a] != between[b] {
      assert between[a] == acc[from + a] && between[b] == acc[from + b];
    }
    Distinct(between);
    forall a | 0 <= a < |between| ensures between[a] != acc[j] {
      assert between[a] == acc[from + a];
    }
  }

  /** The set holds the queue's ids, each queued once. */
  ghost predicate InStep(seen: set<int>, order: seq<int>) {
    && (forall x :: x in seen <==> x in order)
    && forall i, j :: 0 <= i < j < |order| ==> order[i] != order[j]
  }

  lemma SameMembers(seen: set<int>, order: seq<int>, id: int)
    requires InStep(seen, order)
    ensures id in seen <==> id in order
  {
  }

  lemma PushInStep(seen: set<int>, order: seq<int>, id: int)
    requires InStep(seen, order) && id !in order
    ensures InStep(seen + {id}, order + [id])
  {
  }

  lemma PopInStep(seen: set<int>, order: seq<int>)
    requires InStep(seen, order) && order != []
    ensures InStep(seen - {order[0]}, order[1..])
  {
    assert order == [order[0]] + order[1..];
  }

  class TradeDedupWindow {
    var seen: set<int>
    var order: seq<int>
    ghost var ids: seq<int>

    /** Set and queue are in step, and the queue is the end of the accepted list. */
    ghost predicate Valid()
      reads this
    {
      && order == LastN(Accepted(ids, TRADE_DEDUP_WINDOW), TRADE_DEDUP_WINDOW)
      && InStep(seen, order)
    }

    constructor ()
      ensures Valid() && ids == []
    {
      seen, order, ids := {}, [], [];
    }

    /** True exactly when the id is not among the last 5000 accepted. */
    method Insert(id: int) returns (isNew: bool)
      requires Valid()
      modifies this
      ensures Valid() && ids == old(ids) + [id]
      ensures isNew <==> id !in LastN(Accepted(old(ids), TRADE_DEDUP_WINDOW), 5000)
      ensures Accepted(ids, TRADE_DEDUP_WINDOW) ==
              if isNew then Accepted(old(ids), TRADE_DEDUP_WINDOW) + [id] else Accepted(old(ids), TRADE_DEDUP_WINDOW)
      ensures |order| <= TRADE_DEDUP_WINDOW
    {
      ghost var acc := Accepted(ids, TRADE_DEDUP_WINDOW);
      AcceptedSnoc(ids, id, TRADE_DEDUP_WINDOW);
      hide Accepted, InStep;
      assert id in seen <==> id in order by { SameMembers(seen, order, id); }
      if id in seen {
        ids := ids + [id];
        return false;
      }
      SlideWindow(acc, id, TRADE_DEDUP_WINDOW);
      ids := ids + [id];
      PushInStep(seen, order, id);
      seen, order := seen + {id}, order + [id];
      if |order| > TRADE_DEDUP_WINDOW {
        PopInStep(seen, order);
        var oldest := order[0];
        order := order[1..];
        seen := seen - {oldest};
      }
      isNew := true;
    }
  }

  lemma AcceptedSnoc(ids: seq<int>, id: int, width: nat)
    ensures var acc := Accepted(ids, width);
            Accepted(ids + [id], width) == if id in LastN(acc, width) then acc else acc + [id]
  {
    assert (ids + [id])[..|ids|] == ids;
  }

  lemma SlideWindow(acc: seq<int>, id: int, width: nat)
    ensures var order := LastN(acc, width) + [id];
            && LastN(acc + [id], width) == (if |order| > width then order[1..] else order)
            && |LastN(acc + [id], width)| <= width
  {
  }
}
