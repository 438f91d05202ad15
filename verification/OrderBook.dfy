/** The in-memory order book: a record updated in place by diffs and trimmed after each. */
module OrderBook {
  import opened Basics
  import opened Ladder
  import opened Exchange

  /** A snapshot's price list inserted level by level, zero quantities included. */
  function InsertLevels(ls: seq<Level>): Levels {
    if ls == [] then map[]
    else InsertLevels(ls[..|ls| - 1])[ls[|ls| - 1].price := ls[|ls| - 1].qty]
  }

  /** `ls` spells out side `m`: every level of it and nothing else. */
  ghost predicate SpellsOut(ls: seq<Level>, m: Levels) {
    && (forall i :: 0 <= i < |ls| ==> ls[i].price in m && m[ls[i].price] == ls[i].qty)
    && (forall p :: p in m ==> Lists(ls, p))
  }

  lemma {:induction false} InsertLevelsAt(ls: seq<Level>, m: Levels, p: int)
    requires forall i :: 0 <= i < |ls| ==> ls[i].price in m && m[ls[i].price] == ls[i].qty
    ensures p in InsertLevels(ls) <==> Lists(ls, p)
    ensures p in InsertLevels(ls) ==> p in m && InsertLevels(ls)[p] == m[p]
  {
    if ls != [] {
      var init := ls[..|ls| - 1];
      InsertLevelsAt(init, m, p);
      if Lists(init, p) {
        var i :| 0 <= i < |init| && init[i].price == p;
        assert ls[i].price == p;
      }
      if Lists(ls, p) && ls[|ls| - 1].price != p {
        var i :| 0 <= i < |ls| && ls[i].price == p;
        assert init[i].price == p;
      }
    }
  }

  /** Of a price listed twice the last quantity counts, and a zero is held like any other. */
  lemma {:induction false} LastListedCounts(ls: seq<Level>, i: nat)
    requires i < |ls| && forall j :: i < j < |ls| ==> ls[j].price != ls[i].price
    ensures ls[i].price in InsertLevels(ls) && InsertLevels(ls)[ls[i].price] == ls[i].qty
  {
    if i < |ls| - 1 { LastListedCounts(ls[..|ls| - 1], i); }
  }

  /** A REST response spelling out the best levels of the true book loads as the modelled snapshot. */
  lemma LoadedSnapshot(truth: seq<Sides>, n: nat, depth: nat, bids: seq<Level>, asks: seq<Level>)
    requires n < |truth|
    requires SpellsOut(bids, Trim(Bid, truth[n].bids, depth)) && SpellsOut(asks, Trim(Ask, truth[n].asks, depth))
    ensures Book(n, Sides(InsertLevels(bids), InsertLevels(asks))) == RestSnapshot(truth, n, depth)
  {
    LoadedSide(bids, Trim(Bid, truth[n].bids, depth));
    LoadedSide(asks, Trim(Ask, truth[n].asks, depth));
  }

  lemma LoadedSide(ls: seq<Level>, m: Levels)
    requires SpellsOut(ls, m)
    ensures InsertLevels(ls) == m
  {
    forall p ensures p in InsertLevels(ls) <==> p in m { InsertLevelsAt(ls, m, p); }
    forall p | p in m ensures InsertLevels(ls)[p] == m[p] { InsertLevelsAt(ls, m, p); }
    assert InsertLevels(ls).Keys == m.Keys;
  }

  // ---------------------------------------------------------------- the trim's sort

  ghost predicate SortedByRank(s: Side, v: seq<int>) {
    forall i, j :: 0 <= i < j < |v| ==> Rank(s, v[i]) < Rank(s, v[j])
  }

  lemma SortedInsert(s: Side, v: seq<int>, i: nat, p: int)
    requires SortedByRank(s, v) && i <= |v|
    requires i > 0 ==> Rank(s, v[i - 1]) <= Rank(s, p) && v[i - 1] != p
    requires forall j :: i <= j < |v| ==> Rank(s, p) < Rank(s, v[j])
    ensures SortedByRank(s, v[..i] + [p] + v[i..])
  {
    forall j | 0 <= j < i ensures Rank(s, v[j]) < Rank(s, p) {
      if j < i - 1 { assert Rank(s, v[j]) < Rank(s, v[i - 1]); }
    }
    var r := v[..i] + [p] + v[i..];
    assert forall j :: 0 <= j < |r| ==> r[j] == if j < i then v[j] else if j == i then p else v[j - 1];
  }

  /** The library sort of one side's prices, best first. */
  method SortPrices(s: Side, prices: set<int>) returns (v: seq<int>)
    ensures SortedByRank(s, v) && |v| == |prices| && forall p :: p in v <==> p in prices
  {
    v := [];
    var rest := prices;
    while rest != {}
      invariant rest <= prices && |v| + |rest| == |prices|
      invariant SortedByRank(s, v) && forall p :: p in v <==> p in prices && p !in rest
      decreases |rest|
    {
      ghost var some := Member(rest);
      var p :| p in rest;
      var i := |v|;
      assert forall j :: 0 <= j < |v| ==> v[j] in v;
      while i > 0 && Rank(s, p) < Rank(s, v[i - 1])
        invariant 0 <= i <= |v|
        invariant forall j :: i <= j < |v| ==> Rank(s, p) < Rank(s, v[j])
      {
        i := i - 1;
      }
      InsertedMembers(v, i, p);
      SortedInsert(s, v, i, p);
      v := v[..i] + [p] + v[i..];
      rest := rest - {p};
    }
  }

  /** The first `depth` sorted prices are the best `depth` levels. */
  lemma PrefixIsTop(s: Side, m: Levels, v: seq<int>, depth: nat, kept: Levels)
    requires SortedByRank(s, v) && |v| == |m| && (forall p :: p in v <==> p in m) && depth < |m|
    requires (forall p :: p in kept <==> p in v[..depth]) && forall p :: p in kept ==> p in m && kept[p] == m[p]
    ensures kept == Trim(s, m, depth)
  {
    hide Rank, Trim;
    PrefixCount(s, v, depth, kept.Keys);
    assert |kept| == |kept.Keys|;
    forall p, q | p in kept && q in m && q !in kept ensures Rank(s, p) < Rank(s, q) {
      PrefixFirst(s, v, depth, p, q);
    }
    assert forall p :: p in kept.Keys ==> p in m.Keys;
    TrimIsTop(s, m, depth);
    TopUnique(s, m, kept, Trim(s, m, depth), depth);
  }

  lemma PrefixFirst(s: Side, v: seq<int>, depth: nat, p: int, q: int)
    requires SortedByRank(s, v) && depth <= |v| && p in v[..depth] && q in v && q !in v[..depth]
    ensures Rank(s, p) < Rank(s, q)
  {
    var i :| 0 <= i < depth && v[i] == p;
    var j :| 0 <= j < |v| && v[j] == q;
    var first := v[..depth];
    assert forall k :: 0 <= k < depth ==> first[k] == v[k];
  }

  lemma PrefixCount(s: Side, v: seq<int>, depth: nat, ps: set<int>)
    requires SortedByRank(s, v) && depth <= |v| && forall p :: p in ps <==> p in v[..depth]
    ensures |ps| == depth
  {
    var w := v[..depth];
    assert forall i :: 0 <= i < |w| ==> w[i] == v[i];
    DistinctCount(s, w, ps);
  }

  lemma {:induction false} DistinctCount(s: Side, v: seq<int>, ps: set<int>)
    requires SortedByRank(s, v) && forall p :: p in v <==> p in ps
    ensures |ps| == |v|
  {
    if v == [] {
      if ps != {} { var p := Member(ps); }
      assert ps == {};
    } else {
      var init, x := v[..|v| - 1], v[|v| - 1];
      assert v == init + [x];
      assert forall i :: 0 <= i < |init| ==> init[i] == v[i] && Rank(s, v[i]) < Rank(s, x);
      DistinctCount(s, init, ps - {x});
    }
  }

  /** Sort an over-long side, clear it and put back its best `depth` levels. */
  method TrimSide(s: Side, full: Levels, depth: nat) returns (m: Levels)
    ensures m == Trim(s, full, depth)
  {
    m := full;
    if |m| > depth {
      var v := SortPrices(s, full.Keys);
      m := map[];
      for i := 0 to depth
        invariant forall p :: p in m <==> p in v[..i]
        invariant forall p :: p in m ==> p in full && m[p] == full[p]
      {
        hide Trim, SortedByRank;
        assert v[i] in v && v[..i + 1] == v[..i] + [v[i]];
        m := m[v[i] := full[v[i]]];
      }
      PrefixIsTop(s, full, v, depth, m);
    }
  }

  // ---------------------------------------------------------------- the book

  class Orderbook {
    var lastUpdateId: nat
    var lastProcessed: nat
    var bids: Levels
    var asks: Levels

    ghost function Value(): Book
      reads this
    {
      Book(lastUpdateId, Sides(bids, asks))
    }

    /** Load a REST response. */
    constructor (id: nat, bidList: seq<Level>, askList: seq<Level>, now: nat)
      ensures Value() == Book(id, Sides(InsertLevels(bidList), InsertLevels(askList))) && lastProcessed == now
    {
      lastUpdateId, lastProcessed := id, now;
      bids, asks := map[], map[];
      new;
      for i := 0 to |bidList|
        invariant bids == InsertLevels(bidList[..i]) && asks == map[] && lastUpdateId == id && lastProcessed == now
      {
        assert bidList[..i + 1][..i] == bidList[..i];
        bids := bids[bidList[i].price := bidList[i].qty];
      }
      assert bidList[..|bidList|] == bidList;
      for i := 0 to |askList|
        invariant bids == InsertLevels(bidList) && asks == InsertLevels(askList[..i])
        invariant lastUpdateId == id && lastProcessed == now
      {
        assert askList[..i + 1][..i] == askList[..i];
        asks := asks[askList[i].price := askList[i].qty];
      }
      assert askList[..|askList|] == askList;
    }

    /** Quantity zero removes the level, anything else replaces it. */
    method ApplyUpdate(d: Diff, now: nat)
      modifies this
      ensures lastProcessed == now
      ensures Value() == Book(d.final, Sides(ApplyLevels(old(bids), d.bids), ApplyLevels(old(asks), d.asks)))
    {
      for i := 0 to |d.bids|
        invariant bids == ApplyLevels(old(bids), d.bids[..i]) && asks == old(asks)
      {
        assert d.bids[..i + 1][..i] == d.bids[..i];
        if d.bids[i].qty == 0 {
          bids := bids - {d.bids[i].price};
        } else {
          bids := bids[d.bids[i].price := d.bids[i].qty];
        }
      }
      assert d.bids[..|d.bids|] == d.bids;
      for i := 0 to |d.asks|
        invariant asks == ApplyLevels(old(asks), d.asks[..i]) && bids == ApplyLevels(old(bids), d.bids)
      {
        assert d.asks[..i + 1][..i] == d.asks[..i];
        if d.asks[i].qty == 0 {
          asks := asks - {d.asks[i].price};
        } else {
          asks := asks[d.asks[i].price := d.asks[i].qty];
        }
      }
      assert d.asks[..|d.asks|] == d.asks;
      lastUpdateId, lastProcessed := d.final, now;
    }

    /** Trim both sides. */
    method TrimToDepth(depth: nat)
      modifies this
      ensures lastProcessed == old(lastProcessed)
      ensures Value() == Book(old(lastUpdateId), Sides(Trim(Bid, old(bids), depth), Trim(Ask, old(asks), depth)))
    {
      bids := TrimSide(Bid, bids, depth);
      asks := TrimSide(Ask, asks, depth);
    }

    /** One received diff: apply, then trim. */
    method Receive(d: Diff, depth: nat, now: nat)
      modifies this
      ensures lastProcessed == now
      ensures Value() == ApplyDiff(old(Value()), d, depth)
    {
      ApplyUpdate(d, now);
      TrimToDepth(depth);
    }
  }
}
