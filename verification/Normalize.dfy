/** Ordering and de-duplicating a drained batch before the attach. */
module Normalize {
  import opened Basics
  import opened Exchange

  /** Among diffs with the same `final`, the later event wins, then the smaller `first`. */
  predicate Beats(a: Diff, b: Diff) {
    a.eventTime > b.eventTime || (a.eventTime == b.eventTime && a.first < b.first)
  }

  /** `msgs[k]` is the first arrival among the unbeaten diffs with its `final`. */
  ghost predicate Winner(msgs: seq<Diff>, k: nat) {
    k < |msgs| && forall j :: 0 <= j < |msgs| && msgs[j].final == msgs[k].final ==>
      !Beats(msgs[j], msgs[k]) && (j < k ==> Beats(msgs[k], msgs[j]))
  }

  /** `keep` names the winner of every `final` in the batch. */
  ghost predicate Winners(msgs: seq<Diff>, keep: map<nat, nat>) {
    && (forall u :: u in keep ==> Winner(msgs, keep[u]) && msgs[keep[u]].final == u)
    && (forall k :: 0 <= k < |msgs| ==> msgs[k].final in keep)
  }

  lemma WinnersUnique(msgs: seq<Diff>, a: map<nat, nat>, b: map<nat, nat>)
    requires Winners(msgs, a) && Winners(msgs, b)
    ensures a == b
  {
    forall u ensures u in a <==> u in b {
      if u in a { assert msgs[a[u]].final == u; }
      if u in b { assert msgs[b[u]].final == u; }
    }
    assert a.Keys == b.Keys;
    forall u | u in a ensures a[u] == b[u] {
      assert Winner(msgs, a[u]) && Winner(msgs, b[u]);
    }
  }

  // ---------------------------------------------------------------- the specification

  /** The winners of a batch, found one arrival at a time. */
  function Keep(msgs: seq<Diff>): (keep: map<nat, nat>)
    ensures forall u :: u in keep ==> keep[u] < |msgs| && msgs[keep[u]].final == u
  {
    if msgs == [] then map[]
    else
      var n := |msgs| - 1;
      var kept, m := Keep(msgs[..n]), msgs[n];
      if m.final !in kept || Beats(m, msgs[kept[m.final]]) then kept[m.final := n] else kept
  }

  lemma {:induction false} KeepWins(msgs: seq<Diff>)
    ensures Winners(msgs, Keep(msgs))
  {
    if msgs != [] {
      KeepWins(msgs[..|msgs| - 1]);
      KeepStep(msgs, Keep(msgs[..|msgs| - 1]), Keep(msgs));
    }
  }

  lemma KeepStep(msgs: seq<Diff>, kept: map<nat, nat>, keep: map<nat, nat>)
    requires msgs != [] && Winners(msgs[..|msgs| - 1], kept)
    requires var n := |msgs| - 1;
             var u := msgs[n].final;
             keep == if u !in kept || Beats(msgs[n], msgs[kept[u]]) then kept[u := n] else kept
    ensures Winners(msgs, keep)
  {
    var n := |msgs| - 1;
    var init, m := msgs[..n], msgs[n];
    forall u | u in keep ensures Winner(msgs, keep[u]) && msgs[keep[u]].final == u {
      if u in kept { assert Winner(init, kept[u]) && init[kept[u]] == msgs[kept[u]]; }
      forall j | 0 <= j < |msgs| && msgs[j].final == u
        ensures !Beats(msgs[j], msgs[keep[u]]) && (j < keep[u] ==> Beats(msgs[keep[u]], msgs[j])) {
        if j < n { assert init[j] == msgs[j] && init[j].final in kept; }
      }
    }
    forall k | 0 <= k < |msgs| ensures msgs[k].final in keep {
      if k < n { assert init[k].final in kept; }
    }
  }

  ghost predicate Rising(out: seq<Diff>) {
    forall i, j :: 0 <= i < j < |out| ==> out[i].final < out[j].final
  }

  /** `out` lists exactly the diffs of `chosen`, which holds each under its `final`, in rising order. */
  ghost predicate Listing(chosen: map<nat, Diff>, out: seq<Diff>) {
    Rising(out) && forall d :: d in out <==> d.final in chosen && chosen[d.final] == d
  }

  lemma LastIsLargest(a: seq<Diff>, d: Diff)
    requires Rising(a) && d in a
    ensures d.final <= a[|a| - 1].final && (d.final == a[|a| - 1].final ==> d == a[|a| - 1])
  {
  }

  lemma InitMembers(a: seq<Diff>)
    requires Rising(a) && a != []
    ensures Rising(a[..|a| - 1])
    ensures forall d :: d in a[..|a| - 1] <==> d in a && d != a[|a| - 1]
  {
    var init, x := a[..|a| - 1], a[|a| - 1];
    assert a == init + [x];
    assert forall i :: 0 <= i < |init| ==> init[i] == a[i] && a[i].final < x.final;
  }

  /** Rising sequences with the same members are equal. */
  lemma {:induction false} RisingUnique(a: seq<Diff>, b: seq<Diff>)
    requires Rising(a) && Rising(b) && forall d :: d in a <==> d in b
    ensures a == b
  {
    assert |b| > 0 ==> b[0] in b && b[0] in a;
    if a != [] {
      assert a[0] in b;
      var x, y := a[|a| - 1], b[|b| - 1];
      assert x in b && y in a;
      LastIsLargest(a, y);
      LastIsLargest(b, x);
      InitMembers(a);
      InitMembers(b);
      assert x == y;
      var a', b' := a[..|a| - 1], b[..|b| - 1];
      forall d ensures d in a' <==> d in b' { assert d in a <==> d in b; }
      RisingUnique(a', b');
      assert a == a' + [x] && b == b' + [y];
    }
  }

  lemma ListingUnique(chosen: map<nat, Diff>, a: seq<Diff>, b: seq<Diff>)
    requires Listing(chosen, a) && Listing(chosen, b)
    ensures a == b
  {
    RisingUnique(a, b);
  }

  lemma {:induction false} LargestKey(keys: set<nat>) returns (u: nat)
    requires keys != {}
    ensures u in keys && forall v :: v in keys ==> v <= u
    decreases |keys|
  {
    var k := Member(keys);
    u := k;
    if keys - {k} != {} {
      var v := LargestKey(keys - {k});
      if k < v { u := v; }
    }
    assert forall v :: v in keys ==> v == k || v in keys - {k};
  }

  lemma ListingExtends(chosen: map<nat, Diff>, u: nat, init: seq<Diff>)
    requires u in chosen && (forall v :: v in chosen ==> v <= u && chosen[v].final == v)
    requires Listing(chosen - {u}, init)
    ensures Listing(chosen, init + [chosen[u]])
  {
    var rest, out := chosen - {u}, init + [chosen[u]];
    forall d ensures d in out <==> d.final in chosen && chosen[d.final] == d {
      assert d in init <==> d.final in rest && rest[d.final] == d;
    }
    forall i | 0 <= i < |init| ensures init[i].final < u { assert init[i] in init; }
  }

  lemma {:induction false} ListingExists(chosen: map<nat, Diff>)
    requires forall u :: u in chosen ==> chosen[u].final == u
    ensures exists out :: Listing(chosen, out)
    decreases |chosen.Keys|
  {
    if chosen.Keys == {} {
      assert Listing(chosen, []);
    } else {
      var u := LargestKey(chosen.Keys);
      var rest := chosen - {u};
      assert rest.Keys == chosen.Keys - {u};
      ListingExists(rest);
      var init: seq<Diff> :| Listing(rest, init);
      ListingExtends(chosen, u, init);
    }
  }

  ghost function Chosen(msgs: seq<Diff>): (c: map<nat, Diff>)
    ensures forall u :: u in c ==> c[u].final == u
  {
    var keep := Keep(msgs);
    map u | u in keep :: msgs[keep[u]]
  }

  /** The canonical form of a batch: its winners in rising order of `final`. */
  ghost function Normalized(msgs: seq<Diff>): (out: seq<Diff>)
    ensures Listing(Chosen(msgs), out)
  {
    var chosen := Chosen(msgs);
    ListingExists(chosen);
    var out :| Listing(chosen, out);
    out
  }

  // ---------------------------------------------------------------- canonicity

  /** Every `final` of the batch appears once, in rising order, as a diff of the batch that no other diff
      with that `final` beats. */
  lemma NormalizedContents(msgs: seq<Diff>)
    ensures var out := Normalized(msgs);
            && Rising(out)
            && (forall d :: d in msgs ==> exists e :: e in out && e.final == d.final)
            && (forall e :: e in out ==> e in msgs && forall d :: d in msgs && d.final == e.final ==>
                  d.eventTime < e.eventTime || (d.eventTime == e.eventTime && d.first >= e.first))
            && (msgs != [] ==> out != [])
  {
    KeepWins(msgs);
    var out, keep := Normalized(msgs), Keep(msgs);
    forall d | d in msgs ensures exists e :: e in out && e.final == d.final {
      var k :| 0 <= k < |msgs| && msgs[k] == d;
      assert msgs[k].final in keep;
      assert msgs[keep[d.final]] in out;
    }
    forall e | e in out
      ensures e in msgs && forall d :: d in msgs && d.final == e.final ==>
                d.eventTime < e.eventTime || (d.eventTime == e.eventTime && d.first >= e.first)
    {
      assert e.final in keep && msgs[keep[e.final]] == e && Winner(msgs, keep[e.final]);
    }
    if msgs != [] { assert msgs[0] in msgs; }
  }

  /** And of copies that tie on event time and first id, the one that arrived first. */
  lemma FirstOfTies(msgs: seq<Diff>, e: Diff) returns (k: nat)
    requires e in Normalized(msgs)
    ensures k < |msgs| && msgs[k] == e
    ensures forall j :: 0 <= j < k && msgs[j].final == e.final ==>
              msgs[j].eventTime < e.eventTime || (msgs[j].eventTime == e.eventTime && msgs[j].first > e.first)
  {
    KeepWins(msgs);
    var keep := Keep(msgs);
    assert e.final in keep && msgs[keep[e.final]] == e && Winner(msgs, keep[e.final]);
    k := keep[e.final];
  }

  /** A batch already in rising order is its own canonical form. */
  lemma RisingIsNormalized(ds: seq<Diff>)
    requires Rising(ds)
    ensures Normalized(ds) == ds
  {
    var out := Normalized(ds);
    NormalizedContents(ds);
    forall d ensures d in ds <==> d in out {
      if d in ds {
        var e :| e in out && e.final == d.final;
        RisingFinals(ds, d, e);
      }
    }
    RisingUnique(ds, out);
  }

  lemma RisingFinals(ds: seq<Diff>, d: Diff, e: Diff)
    requires Rising(ds) && d in ds && e in ds && d.final == e.final
    ensures d == e
  {
  }

  lemma NormalizingTwice(msgs: seq<Diff>)
    ensures Normalized(Normalized(msgs)) == Normalized(msgs)
  {
    RisingIsNormalized(Normalized(msgs));
  }

  predicate SameKey(a: Diff, b: Diff) {
    a.first == b.first && a.final == b.final && a.eventTime == b.eventTime
  }

  /** The sort key of a diff, with everything else blanked. */
  function Key(d: Diff): Diff {
    Diff(d.first, d.final, 0, d.eventTime, [], [])
  }

  ghost function Keys(ds: seq<Diff>): (ks: seq<Diff>)
    ensures |ks| == |ds| && forall i :: 0 <= i < |ds| ==> ks[i] == Key(ds[i])
  {
    seq(|ds|, i requires 0 <= i < |ds| => Key(ds[i]))
  }

  lemma KeyCarriesOver(msgs: seq<Diff>, other: seq<Diff>, d: Diff) returns (e: Diff)
    requires (forall x :: x in msgs <==> x in other) && d in Normalized(msgs)
    ensures e in Normalized(other) && SameKey(d, e)
  {
    NormalizedContents(msgs);
    NormalizedContents(other);
    assert d in other;
    e :| e in Normalized(other) && e.final == d.final;
    assert e in msgs;
    assert !Beats(d, e) && !Beats(e, d);
  }

  lemma {:induction false} SameKeys(msgs: seq<Diff>, other: seq<Diff>)
    requires forall x :: x in msgs <==> x in other
    ensures Keys(Normalized(msgs)) == Keys(Normalized(other))
  {
    var a, b := Keys(Normalized(msgs)), Keys(Normalized(other));
    forall k ensures k in a ==> k in b {
      if i :| 0 <= i < |a| && a[i] == k {
        var e := KeyCarriesOver(msgs, other, Normalized(msgs)[i]);
        var j :| 0 <= j < |b| && Normalized(other)[j] == e;
        assert b[j] == k;
      }
    }
    forall k ensures k in b ==> k in a {
      if i :| 0 <= i < |b| && b[i] == k {
        var e := KeyCarriesOver(other, msgs, Normalized(other)[i]);
        var j :| 0 <= j < |a| && Normalized(msgs)[j] == e;
        assert a[j] == k;
      }
    }
    RisingUnique(a, b);
  }

  /** Arrival order does not matter: a rearranged batch yields the same keys in the same places, and the
      same diffs whenever equal keys mean equal diffs. */
  lemma ArrivalOrderIrrelevant(msgs: seq<Diff>, other: seq<Diff>)
    requires multiset(msgs) == multiset(other)
    ensures Keys(Normalized(msgs)) == Keys(Normalized(other))
    ensures (forall d, e :: d in msgs && e in msgs && SameKey(d, e) ==> d == e) ==>
              Normalized(msgs) == Normalized(other)
  {
    forall d ensures d in msgs <==> d in other {
      assert d in msgs <==> d in multiset(msgs);
      assert d in other <==> d in multiset(other);
    }
    SameKeys(msgs, other);
    if forall d, e :: d in msgs && e in msgs && SameKey(d, e) ==> d == e {
      KeysDecide(msgs, other);
    }
  }

  lemma KeysDecide(msgs: seq<Diff>, other: seq<Diff>)
    requires (forall d :: d in msgs <==> d in other) && Keys(Normalized(msgs)) == Keys(Normalized(other))
    requires forall d, e :: d in msgs && e in msgs && SameKey(d, e) ==> d == e
    ensures Normalized(msgs) == Normalized(other)
  {
    var a, b := Normalized(msgs), Normalized(other);
    assert |a| == |Keys(a)| == |b|;
    forall i | 0 <= i < |a| ensures a[i] == b[i] {
      assert Keys(a)[i] == Keys(b)[i];
      NormalizedContents(msgs);
      assert a[i] in a && a[i] in msgs;
      NormalizedContents(other);
      assert b[i] in b && b[i] in other;
      assert SameKey(a[i], b[i]);
    }
  }

  // ---------------------------------------------------------------- the source's sort, dedup, sort

  /** Position `a` sorts before position `b`: by U, then u, then E, and stably by arrival. */
  predicate Before(msgs: seq<Diff>, a: nat, b: nat)
    requires a < |msgs| && b < |msgs|
  {
    var x, y := msgs[a], msgs[b];
    x.first < y.first || (x.first == y.first &&
      (x.final < y.final || (x.final == y.final &&
        (x.eventTime < y.eventTime || (x.eventTime == y.eventTime && a < b)))))
  }

  ghost predicate Ordered(msgs: seq<Diff>, order: seq<nat>) {
    && (forall i :: 0 <= i < |order| ==> order[i] < |msgs|)
    && (forall i, j :: 0 <= i < j < |order| ==> Before(msgs, order[i], order[j]))
  }

  lemma OrderedInsert(msgs: seq<Diff>, order: seq<nat>, i: nat, k: nat)
    requires Ordered(msgs, order) && i <= |order| && k < |msgs|
    requires i > 0 ==> order[i - 1] != k && !Before(msgs, k, order[i - 1])
    requires forall j :: i <= j < |order| ==> Before(msgs, k, order[j])
    ensures Ordered(msgs, order[..i] + [k] + order[i..])
  {
    forall j | 0 <= j < i ensures Before(msgs, order[j], k) {
      BeforeTotal(msgs, k, order[i - 1]);
      if j < i - 1 { assert Before(msgs, order[j], order[i - 1]); }
    }
    var r := order[..i] + [k] + order[i..];
    assert forall j :: 0 <= j < |r| ==> r[j] == if j < i then order[j] else if j == i then k else order[j - 1];
  }

  lemma BeforeTotal(msgs: seq<Diff>, a: nat, b: nat)
    requires a < |msgs| && b < |msgs| && a != b
    ensures Before(msgs, a, b) || Before(msgs, b, a)
  {
  }

  /** The stable sort by (U, u, E), as positions in arrival order. */
  method SortByWireIds(msgs: seq<Diff>) returns (order: seq<nat>)
    ensures Ordered(msgs, order)
    ensures forall k: nat :: k in order <==> k < |msgs|
  {
    order := [];
    for k := 0 to |msgs|
      invariant Ordered(msgs, order)
      invariant forall j: nat :: j in order <==> j < k
    {
      hide Before;
      var i := |order|;
      assert forall j :: 0 <= j < |order| ==> order[j] in order;
      while i > 0 && Before(msgs, k, order[i - 1])
        invariant 0 <= i <= |order|
        invariant forall j :: i <= j < |order| ==> Before(msgs, k, order[j])
      {
        i := i - 1;
      }
      InsertedMembers(order, i, k);
      OrderedInsert(msgs, order, i, k);
      order := order[..i] + [k] + order[i..];
    }
  }

  /** After the first `n` sorted positions, position `w` is kept: the latest event, and first in sort order
      among those. */
  ghost predicate KeptAmong(msgs: seq<Diff>, order: seq<nat>, n: nat, w: nat)
    requires Ordered(msgs, order) && n <= |order|
  {
    && w in order[..n]
    && forall t :: 0 <= t < n && msgs[order[t]].final == msgs[w].final ==>
         && msgs[order[t]].eventTime <= msgs[w].eventTime
         && (msgs[order[t]].eventTime == msgs[w].eventTime ==> order[t] == w || Before(msgs, w, order[t]))
  }

  lemma KeptIsWinner(msgs: seq<Diff>, order: seq<nat>, w: nat)
    requires Ordered(msgs, order) && (forall k: nat :: k in order <==> k < |msgs|)
    requires KeptAmong(msgs, order, |order|, w)
    ensures Winner(msgs, w)
  {
    assert order[..|order|] == order;
    forall j | 0 <= j < |msgs| && msgs[j].final == msgs[w].final
      ensures !Beats(msgs[j], msgs[w]) && (j < w ==> Beats(msgs[w], msgs[j])) {
      assert j in order;
    }
  }

  lemma StillKept(msgs: seq<Diff>, order: seq<nat>, i: nat, w: nat)
    requires Ordered(msgs, order) && i < |order| && KeptAmong(msgs, order, i, w)
    requires msgs[order[i]].final == msgs[w].final ==> msgs[order[i]].eventTime <= msgs[w].eventTime
    ensures KeptAmong(msgs, order, i + 1, w)
  {
    assert order[..i + 1] == order[..i] + [order[i]];
    var t :| 0 <= t < i && order[t] == w;
    assert Before(msgs, order[t], order[i]);
  }

  lemma NowKept(msgs: seq<Diff>, order: seq<nat>, i: nat, w: nat)
    requires Ordered(msgs, order) && i < |order|
    requires (w < |msgs| && KeptAmong(msgs, order, i, w) && msgs[w].final == msgs[order[i]].final
              && msgs[w].eventTime < msgs[order[i]].eventTime)
             || (forall t :: 0 <= t < i ==> msgs[order[t]].final != msgs[order[i]].final)
    ensures KeptAmong(msgs, order, i + 1, order[i])
  {
    assert order[..i + 1] == order[..i] + [order[i]];
  }

  /** The dedup map after the first `n` sorted positions. */
  ghost predicate KeepsAmong(msgs: seq<Diff>, order: seq<nat>, n: nat, keep: map<nat, nat>)
    requires Ordered(msgs, order) && n <= |order|
  {
    && (forall u :: u in keep ==> keep[u] < |msgs| && msgs[keep[u]].final == u && KeptAmong(msgs, order, n, keep[u]))
    && (forall t :: 0 <= t < n ==> msgs[order[t]].final in keep)
  }

  lemma DedupStep(msgs: seq<Diff>, order: seq<nat>, i: nat, keep: map<nat, nat>)
    requires Ordered(msgs, order) && i < |order| && KeepsAmong(msgs, order, i, keep)
    ensures var k := order[i]; var u := msgs[k].final;
            var later := u !in keep || msgs[k].eventTime > msgs[keep[u]].eventTime;
            KeepsAmong(msgs, order, i + 1, if later then keep[u := k] else keep)
  {
    hide Before, KeptAmong;
    var k := order[i];
    var u := msgs[k].final;
    forall v | v in keep && (v != u || msgs[k].eventTime <= msgs[keep[v]].eventTime)
      ensures KeptAmong(msgs, order, i + 1, keep[v]) {
      StillKept(msgs, order, i, keep[v]);
    }
    if u !in keep {
      NowKept(msgs, order, i, k);
    } else if msgs[k].eventTime > msgs[keep[u]].eventTime {
      NowKept(msgs, order, i, keep[u]);
    }
  }

  /** The dedup loop: keep the largest event per `final`, walking the batch in sorted order. */
  method Dedup(msgs: seq<Diff>, order: seq<nat>) returns (keep: map<nat, nat>)
    requires Ordered(msgs, order) && (forall k: nat :: k in order <==> k < |msgs|)
    ensures keep == Keep(msgs)
  {
    keep := map[];
    for i := 0 to |order|
      invariant KeepsAmong(msgs, order, i, keep)
    {
      DedupStep(msgs, order, i, keep);
      var k := order[i];
      var u := msgs[k].final;
      if u in keep {
        if msgs[k].eventTime > msgs[keep[u]].eventTime {
          keep := keep[u := k];
        }
      } else {
        keep := keep[u := k];
      }
    }
    forall u | u in keep ensures Winner(msgs, keep[u]) { KeptIsWinner(msgs, order, keep[u]); }
    forall k | 0 <= k < |msgs| ensures msgs[k].final in keep { assert k in order; }
    KeepWins(msgs);
    WinnersUnique(msgs, keep, Keep(msgs));
  }

  lemma RisingInsert(out: seq<Diff>, i: nat, d: Diff)
    requires Rising(out) && i <= |out|
    requires i > 0 ==> out[i - 1].final < d.final
    requires forall j :: i <= j < |out| ==> d.final < out[j].final
    ensures Rising(out[..i] + [d] + out[i..])
  {
    forall j | 0 <= j < i ensures out[j].final < d.final {
      if j < i - 1 { assert out[j].final < out[i - 1].final; }
    }
    var r := out[..i] + [d] + out[i..];
    assert forall j :: 0 <= j < |r| ==> r[j] == if j < i then out[j] else if j == i then d else out[j - 1];
  }

  /** One step of the final sort by u. */
  method InsertByFinal(out: seq<Diff>, d: Diff) returns (r: seq<Diff>)
    requires Rising(out) && forall e :: e in out ==> e.final != d.final
    ensures Rising(r) && forall e :: e in r <==> e in out || e == d
  {
    var i := |out|;
    assert forall j :: 0 <= j < |out| ==> out[j] in out;
    while i > 0 && d.final < out[i - 1].final
      invariant 0 <= i <= |out|
      invariant forall j :: i <= j < |out| ==> d.final < out[j].final
    {
      i := i - 1;
    }
    InsertedMembers(out, i, d);
    RisingInsert(out, i, d);
    r := out[..i] + [d] + out[i..];
  }

  /** Sort, keep the largest event per `final` in a hash map, collect its values in any order, sort again. */
  method NormalizeForAttach(msgs: seq<Diff>) returns (out: seq<Diff>)
    ensures out == Normalized(msgs)
  {
    var order := SortByWireIds(msgs);
    var keep := Dedup(msgs, order);
    KeepWins(msgs);
    out := [];
    var rest := keep.Keys;
    while rest != {}
      invariant rest <= keep.Keys
      invariant Rising(out)
      invariant forall d :: d in out <==> d.final in keep && d.final !in rest && msgs[keep[d.final]] == d
      decreases |rest|
    {
      ghost var some := Member(rest);
      var u :| u in rest;
      assert Winner(msgs, keep[u]) && msgs[keep[u]].final == u;
      out := InsertByFinal(out, msgs[keep[u]]);
      rest := rest - {u};
    }
    ListingUnique(Chosen(msgs), out, Normalized(msgs));
  }
}
