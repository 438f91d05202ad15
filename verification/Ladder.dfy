/** One side of an order book: price levels, absolute-quantity updates, and the depth trim.
    Prices are ticks and quantities are naturals; a quantity of zero in an update deletes the level. */
module Ladder {
  import opened Basics

  datatype Side = Bid | Ask
  datatype Level = Level(price: int, qty: nat)
  type Levels = map<int, nat>

  /** Distance ordering from the touch: the lower the rank, the better the price. */
  function Rank(s: Side, price: int): int {
    if s == Bid then -price else price
  }

  function QtyAt(m: Levels, p: int): nat {
    if p in m then m[p] else 0
  }

  /** The two sides say the same thing about price `p`. */
  predicate Same(a: Levels, b: Levels, p: int) {
    (p in a <==> p in b) && (p in a ==> a[p] == b[p])
  }

  ghost predicate Positive(m: Levels) {
    forall p :: p in m ==> m[p] > 0
  }

  // ---------------------------------------------------------------- absolute updates

  function ApplyLevel(m: Levels, lv: Level): Levels {
    if lv.qty == 0 then m - {lv.price} else m[lv.price := lv.qty]
  }

  function ApplyLevels(m: Levels, ls: seq<Level>): Levels {
    if ls == [] then m else ApplyLevel(ApplyLevels(m, ls[..|ls| - 1]), ls[|ls| - 1])
  }

  ghost predicate Lists(ls: seq<Level>, p: int) {
    exists i :: 0 <= i < |ls| && ls[i].price == p
  }

  /** Every listed level carries the quantity that side `t` has at its price. */
  ghost predicate Truthful(ls: seq<Level>, t: Levels) {
    forall i :: 0 <= i < |ls| ==> ls[i].qty == QtyAt(t, ls[i].price)
  }

  /** A truthful update makes every listed price right, whatever was there, and touches nothing else. */
  lemma {:induction false} ApplyLevelsAt(m: Levels, ls: seq<Level>, t: Levels, p: int)
    requires Truthful(ls, t) && Positive(t)
    ensures Lists(ls, p) ==> Same(ApplyLevels(m, ls), t, p)
    ensures !Lists(ls, p) ==> Same(ApplyLevels(m, ls), m, p)
  {
    if ls != [] {
      var init, lv := ls[..|ls| - 1], ls[|ls| - 1];
      ApplyLevelsAt(m, init, t, p);
      if lv.price != p && Lists(ls, p) {
        var i :| 0 <= i < |ls| && ls[i].price == p;
        assert init[i].price == p;
      }
    }
  }

  /** Whatever an update says, the last word on a price counts: zero deletes, anything else replaces. */
  lemma {:induction false} LastWordCounts(m: Levels, ls: seq<Level>, i: nat)
    requires i < |ls| && forall j :: i < j < |ls| ==> ls[j].price != ls[i].price
    ensures var after := ApplyLevels(m, ls);
            if ls[i].qty == 0 then ls[i].price !in after
            else ls[i].price in after && after[ls[i].price] == ls[i].qty
  {
    if i < |ls| - 1 { LastWordCounts(m, ls[..|ls| - 1], i); }
  }

  lemma {:induction false} ApplyUnlisted(m: Levels, ls: seq<Level>, p: int)
    requires !Lists(ls, p)
    ensures Same(ApplyLevels(m, ls), m, p)
  {
    if ls != [] {
      var init := ls[..|ls| - 1];
      assert forall i :: 0 <= i < |init| ==> init[i] == ls[i];
      ApplyUnlisted(m, init, p);
      assert ls[|ls| - 1].price != p;
    }
  }

  // ---------------------------------------------------------------- the depth trim

  /** `kept` is the best `depth` levels of `full` (all of them when there are no more). */
  ghost predicate IsTop(s: Side, full: Levels, kept: Levels, depth: nat) {
    && kept.Keys <= full.Keys
    && (forall p :: p in kept ==> kept[p] == full[p])
    && |kept| == (if |full| <= depth then |full| else depth)
    && (forall p, q :: p in kept && q in full && q !in kept ==> Rank(s, p) < Rank(s, q))
  }

  lemma SubsetSameSize(a: set<int>, b: set<int>)
    requires a <= b && |a| == |b|
    ensures a == b
  {
    assert b == a + (b - a);
    assert |b - a| == 0;
  }

  /** The best `depth` levels are one map, not several. */
  lemma TopUnique(s: Side, full: Levels, a: Levels, b: Levels, depth: nat)
    requires IsTop(s, full, a, depth) && IsTop(s, full, b, depth)
    ensures a == b
  {
    assert |a.Keys| == |a| && |b.Keys| == |b|;
    if p :| p in a && p !in b {
      assert forall q :: q in b.Keys ==> q in a.Keys;
      SubsetSameSize(b.Keys, a.Keys);
      assert false;
    } else {
      assert forall p :: p in a.Keys ==> p in b.Keys;
      SubsetSameSize(a.Keys, b.Keys);
      assert a.Keys == b.Keys;
      assert forall p :: p in a ==> a[p] == full[p] && b[p] == full[p];
      assert a == b;
    }
  }

  ghost predicate IsWorst(s: Side, m: Levels, w: int) {
    w in m && forall q :: q in m ==> Rank(s, q) <= Rank(s, w)
  }

  lemma {:induction false} WorstExists(s: Side, m: Levels)
    requires |m| > 0
    ensures exists w :: IsWorst(s, m, w)
    decreases |m|
  {
    assert |m.Keys| == |m|;
    var p := Member(m.Keys);
    var rest := m - {p};
    if |rest| == 0 {
      assert forall q :: q in m && q != p ==> q in rest;
      assert IsWorst(s, m, p);
    } else {
      assert rest.Keys == m.Keys - {p} && |m.Keys| == |m| && |rest.Keys| == |rest|;
      WorstExists(s, rest);
      var w :| IsWorst(s, rest, w);
      var best := if Rank(s, p) <= Rank(s, w) then w else p;
      assert forall q :: q in m && q != p ==> q in rest;
      assert IsWorst(s, m, best);
    }
  }

  ghost function Worst(s: Side, m: Levels): (w: int)
    requires |m| > 0
    ensures IsWorst(s, m, w)
  {
    WorstExists(s, m);
    var w :| IsWorst(s, m, w);
    w
  }

  /** The trim as repeated removal of the worst level. */
  ghost function Trim(s: Side, m: Levels, depth: nat): Levels
    decreases |m|
  {
    if |m| <= depth then m
    else
      var w := Worst(s, m);
      assert (m - {w}).Keys == m.Keys - {w} && |m.Keys| == |m| && |(m - {w}).Keys| == |m - {w}|;
      Trim(s, m - {w}, depth)
  }

  lemma {:induction false} TrimIsTop(s: Side, m: Levels, depth: nat)
    ensures IsTop(s, m, Trim(s, m, depth), depth)
    decreases |m|
  {
    if |m| > depth {
      var w := Worst(s, m);
      assert (m - {w}).Keys == m.Keys - {w} && |m.Keys| == |m| && |(m - {w}).Keys| == |m - {w}|;
      TrimIsTop(s, m - {w}, depth);
    }
  }

  // ---------------------------------------------------------------- completeness horizons

  /** How far from the touch a trimmed side is known to be complete. */
  datatype Horizon = Everything | UpTo(price: int) | Nothing

  ghost predicate Covers(s: Side, h: Horizon, p: int) {
    match h
    case Everything => true
    case UpTo(q) => Rank(s, p) <= Rank(s, q)
    case Nothing => false
  }

  /** `h` reaches no further from the touch than `g`. */
  ghost predicate Within(s: Side, h: Horizon, g: Horizon) {
    match (h, g)
    case (Nothing, _) => true
    case (_, Everything) => true
    case (UpTo(p), UpTo(q)) => Rank(s, p) <= Rank(s, q)
    case _ => false
  }

  ghost function Narrow(s: Side, h: Horizon, q: int): Horizon {
    match h
    case Everything => UpTo(q)
    case UpTo(p) => if Rank(s, p) <= Rank(s, q) then h else UpTo(q)
    case Nothing => Nothing
  }

  /** The horizon left by trimming `m`: a cut moves it to the worst level kept. */
  ghost function TrimHorizon(s: Side, m: Levels, depth: nat, h: Horizon): Horizon {
    if |m| <= depth then h
    else if depth == 0 then Nothing
    else
      TrimIsTop(s, m, depth);
      Narrow(s, h, Worst(s, Trim(s, m, depth)))
  }

  /** A price the trim dropped lies beyond the new horizon. */
  lemma DroppedIsBeyond(s: Side, m: Levels, depth: nat, h: Horizon, p: int)
    requires p in m && p !in Trim(s, m, depth)
    ensures !Covers(s, TrimHorizon(s, m, depth, h), p)
  {
    TrimIsTop(s, m, depth);
    var kept := Trim(s, m, depth);
    if |m| <= depth {
      SubsetSameSize(kept.Keys, m.Keys);
      assert false;
    } else if depth > 0 {
      var w := Worst(s, kept);
      assert Rank(s, w) < Rank(s, p);
    }
  }

  lemma TrimNarrows(s: Side, m: Levels, depth: nat, h: Horizon)
    ensures Within(s, TrimHorizon(s, m, depth, h), h)
  {
  }

  lemma WithinCovers(s: Side, h: Horizon, g: Horizon, p: int)
    requires Within(s, h, g) && Covers(s, h, p)
    ensures Covers(s, g, p)
  {
  }

  /** Everything held is true, and everything true up to the horizon is held. */
  ghost predicate Exact(s: Side, m: Levels, t: Levels, h: Horizon) {
    && (forall p :: p in m ==> p in t && m[p] == t[p])
    && (forall p :: p in t && Covers(s, h, p) ==> p in m)
  }

  lemma TrimExact(s: Side, m: Levels, t: Levels, h: Horizon, depth: nat)
    requires Exact(s, m, t, h)
    ensures Exact(s, Trim(s, m, depth), t, TrimHorizon(s, m, depth, h))
  {
    TrimIsTop(s, m, depth);
    var kept, h' := Trim(s, m, depth), TrimHorizon(s, m, depth, h);
    forall p | p in t && Covers(s, h', p) ensures p in kept {
      TrimNarrows(s, m, depth, h);
      WithinCovers(s, h', h, p);
      if p !in kept { DroppedIsBeyond(s, m, depth, h, p); }
    }
  }

  // ---------------------------------------------------------------- the touch

  ghost predicate IsBest(s: Side, m: Levels, p: int) {
    p in m && forall q :: q in m ==> Rank(s, p) <= Rank(s, q)
  }

  /** Same best price, or both sides empty. */
  ghost predicate SameTouch(s: Side, m: Levels, t: Levels) {
    (m == map[] <==> t == map[]) && forall p :: IsBest(s, m, p) <==> IsBest(s, t, p)
  }

  /** One held level at or better than the horizon makes the touch the true one. */
  lemma TouchIsTrue(s: Side, m: Levels, t: Levels, h: Horizon, p: int)
    requires Exact(s, m, t, h) && p in m && Covers(s, h, p)
    ensures SameTouch(s, m, t)
  {
    forall q ensures IsBest(s, m, q) <==> IsBest(s, t, q) {
      if IsBest(s, m, q) {
        forall r | r in t ensures Rank(s, q) <= Rank(s, r) {
          if Rank(s, r) < Rank(s, q) { assert Covers(s, h, r); }
        }
      }
      if IsBest(s, t, q) { assert Rank(s, q) <= Rank(s, p) && Covers(s, h, q); }
    }
  }

  /** What the collector can check before quoting its touch: complete books always qualify; a cut side
      qualifies when no unseen tick fits between its horizon and its best level. */
  ghost predicate TouchCertified(s: Side, m: Levels, h: Horizon) {
    match h
    case Everything => true
    case UpTo(q) => exists p :: p in m && Rank(s, p) <= Rank(s, q) + 1
    case Nothing => false
  }

  lemma TouchCertifiedIsTrue(s: Side, m: Levels, t: Levels, h: Horizon)
    requires Exact(s, m, t, h) && TouchCertified(s, m, h)
    ensures SameTouch(s, m, t)
  {
    if h == Everything {
      assert forall p :: p in t ==> Covers(s, h, p);
      assert forall p :: p in t ==> p in m;
      assert forall p :: p in m ==> p in t;
      assert forall p :: p in m ==> m[p] == t[p];
      assert m == t;
    } else {
      var p :| p in m && Rank(s, p) <= Rank(s, h.price) + 1;
      if Covers(s, h, p) {
        TouchIsTrue(s, m, t, h, p);
      } else {
        assert Rank(s, p) == Rank(s, h.price) + 1;
        if forall q :: q in m ==> !Covers(s, h, q) {
          assert forall q :: q in t && Rank(s, q) < Rank(s, p) ==> Covers(s, h, q);
          forall q ensures IsBest(s, m, q) <==> IsBest(s, t, q) {
            if IsBest(s, m, q) { assert Rank(s, q) <= Rank(s, p); }
            if IsBest(s, t, q) { assert Rank(s, q) == Rank(s, p) && q == p; }
          }
        } else {
          var q :| q in m && Covers(s, h, q);
          TouchIsTrue(s, m, t, h, q);
        }
      }
    }
  }

  /** The touch is right for every true side the collector's knowledge allows exactly when it is certified:
      otherwise some true side agrees with everything known and has another best price. */
  lemma TouchCertifiedExactly(s: Side, m: Levels, h: Horizon)
    requires Positive(m)
    ensures TouchCertified(s, m, h) <==>
            (forall t :: Positive(t) && Exact(s, m, t, h) ==> SameTouch(s, m, t))
  {
    if TouchCertified(s, m, h) {
      forall t | Positive(t) && Exact(s, m, t, h) ensures SameTouch(s, m, t) {
        TouchCertifiedIsTrue(s, m, t, h);
      }
    } else {
      var x := HiddenPrice(s, m, h);
      var t := m[x := 1];
      assert Exact(s, m, t, h);
      assert IsBest(s, t, x) && !IsBest(s, m, x);
    }
  }

  /** A price beyond the horizon, not held, and better than every held level. */
  ghost function HiddenPrice(s: Side, m: Levels, h: Horizon): (x: int)
    requires !TouchCertified(s, m, h)
    ensures x !in m && !Covers(s, h, x) && forall q :: q in m ==> Rank(s, x) < Rank(s, q)
  {
    if h == Nothing then BetterThanAll(s, m)
    else
      var x := if s == Bid then h.price - 1 else h.price + 1;
      assert Rank(s, x) == Rank(s, h.price) + 1;
      x
  }

  ghost function BetterThanAll(s: Side, m: Levels): (x: int)
    ensures forall q :: q in m ==> Rank(s, x) < Rank(s, q)
    decreases |m|
  {
    if |m| == 0 then 0
    else
      var w := Worst(s, m);
      assert (m - {w}).Keys == m.Keys - {w} && |m.Keys| == |m| && |(m - {w}).Keys| == |m - {w}|;
      var y := BetterThanAll(s, m - {w});
      assert forall q :: q in m && q != w ==> q in m - {w};
      var below := if Rank(s, y) < Rank(s, w) then y else if s == Bid then w + 1 else w - 1;
      below
  }
}
