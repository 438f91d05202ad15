/** When a replay that skips some diffs is right: exactly when what it applies is an unbroken chain from the book's
    id on. Any break leaves room for an exchange that the diffs describe just as well and the replay gets wrong. */
module Chains {
  import opened Ladder
  import opened Exchange
  import opened Healing

  /** Diff `i` starts no earlier than the one before it ends. */
  ghost predicate Beyond(ds: seq<Diff>, i: nat)
    requires 0 < i < |ds|
  {
    ds[i - 1].final <= ds[i].prev
  }

  /** In order, as any part of a history is; some diffs in between may be missing. */
  ghost predicate Spaced(ds: seq<Diff>) {
    forall i :: 0 < i < |ds| ==> Beyond(ds, i)
  }

  /** For every exchange that `seen` and `ds` describe, applying `ds` to its whole book at id `n` gives its whole
      book at the last id. */
  ghost predicate AlwaysRight(seen: seq<Diff>, n: nat, ds: seq<Diff>) {
    forall truth: seq<Sides> ::
      AllPositive(truth) && AllDescribe(truth, seen) && AllDescribe(truth, ds) && n < |truth| ==>
        BookExact(truth, Untrimmed(Book(n, truth[n]), ds), COMPLETE)
  }

  lemma {:induction false} SpacedRises(truth: seq<Sides>, ds: seq<Diff>, i: nat, j: nat)
    requires AllDescribe(truth, ds) && Spaced(ds) && i < j < |ds|
    ensures ds[i].final <= ds[j].prev < ds[j].final
  {
    assert Beyond(ds, j) && Describes(truth, ds[j]);
    if i < j - 1 {
      assert Describes(truth, ds[j - 1]);
      SpacedRises(truth, ds, i, j - 1);
    }
  }

  lemma {:induction false} UntrimmedId(b: Book, ds: seq<Diff>)
    ensures Untrimmed(b, ds).id == if ds == [] then b.id else ds[|ds| - 1].final
  {
  }

  // ---------------------------------------------------------------- a break misleads

  /** The same exchange with a bid at `x` up to id `cut`, gone afterwards. */
  ghost function Shadowed(truth: seq<Sides>, x: int, cut: nat): (t: seq<Sides>)
    ensures |t| == |truth|
    ensures forall m :: 0 <= m < |t| ==> t[m] == if m <= cut then WithBid(truth[m], x) else truth[m]
  {
    seq(|truth|, m requires 0 <= m < |truth| => if m <= cut then WithBid(truth[m], x) else truth[m])
  }

  ghost function WithBid(s: Sides, x: int): Sides {
    Sides(s.bids[x := 1], s.asks)
  }

  lemma ShadowPositive(truth: seq<Sides>, x: int, cut: nat)
    requires AllPositive(truth)
    ensures AllPositive(Shadowed(truth, x, cut))
  {
    var t := Shadowed(truth, x, cut);
    forall m, s: Side | 0 <= m < |t| ensures Positive(t[m].Of(s)) {
      assert Positive(truth[m].Of(s));
    }
  }

  /** A diff that neither lists `x` nor spans the cut describes both exchanges. */
  lemma ShadowDescribes(truth: seq<Sides>, x: int, cut: nat, d: Diff)
    requires Describes(truth, d) && !Lists(d.bids, x) && (d.final <= cut || cut < d.prev)
    ensures Describes(Shadowed(truth, x, cut), d)
  {
    var t := Shadowed(truth, x, cut);
    forall s: Side ensures Truthful(d.Of(s), t[d.final].Of(s)) {
      TruthfulBeside(d.Of(s), truth[d.final].Of(s), t[d.final].Of(s), x, s);
    }
    forall s: Side, p, m | d.prev <= m <= d.final && !Lists(d.Of(s), p) ensures Same(t[m].Of(s), t[d.final].Of(s), p) {
      assert Same(truth[m].Of(s), truth[d.final].Of(s), p);
    }
  }

  lemma TruthfulBeside(ls: seq<Level>, m: Levels, m': Levels, x: int, s: Side)
    requires Truthful(ls, m) && (m' == m || (s == Bid && m' == m[x := 1] && !Lists(ls, x)))
    ensures Truthful(ls, m')
  {
    forall i | 0 <= i < |ls| ensures ls[i].qty == QtyAt(m', ls[i].price) {
      assert ls[i].price == x ==> Lists(ls, x);
    }
  }

  ghost predicate NoneLists(ds: seq<Diff>, x: int) {
    forall i :: 0 <= i < |ds| ==> !Lists(ds[i].bids, x)
  }

  /** A price no diff lists is carried through a replay unchanged. */
  lemma {:induction false} UnlistedStays(b: Book, ds: seq<Diff>, x: int)
    requires NoneLists(ds, x)
    ensures Same(Untrimmed(b, ds).sides.bids, b.sides.bids, x)
  {
    if ds != [] {
      var init, d := ds[..|ds| - 1], ds[|ds| - 1];
      UnlistedStays(b, init, x);
      ApplyUnlisted(Untrimmed(b, init).sides.bids, d.bids, x);
    }
  }

  /** Some price is neither held in `m` nor listed by any of the diffs. */
  ghost function Unheard(m: Levels, ds: seq<Diff>): (x: int)
    ensures x !in m && NoneLists(ds, x)
  {
    var held := AllInserted(m, ds);
    BetterThanAll(Ask, held)
  }

  ghost function AllInserted(m: Levels, ds: seq<Diff>): (r: Levels)
    ensures forall p :: p in m ==> p in r
    ensures forall i, p :: 0 <= i < |ds| && Lists(ds[i].bids, p) ==> p in r
  {
    if ds == [] then m else InsertAll(AllInserted(m, ds[..|ds| - 1]), ds[|ds| - 1].bids)
  }

  /** A cut no diff of the tape spans, at or after the book's id and before the last diff, is fatal. */
  lemma CutMisleads(truth: seq<Sides>, seen: seq<Diff>, n: nat, ds: seq<Diff>, cut: nat)
    requires AllPositive(truth) && AllDescribe(truth, seen) && AllDescribe(truth, ds) && ds != []
    requires n <= cut < ds[|ds| - 1].final
    requires forall i :: 0 <= i < |seen| ==> seen[i].final <= cut
    requires forall i :: 0 <= i < |ds| ==> ds[i].final <= cut || cut < ds[i].prev
    ensures !AlwaysRight(seen, n, ds)
  {
    hide Describes, Truthful, AlwaysRight, Untrimmed, Exact;
    var last := ds[|ds| - 1].final;
    assert Describes(truth, ds[|ds| - 1]);
    FinalInTruth(truth, ds[|ds| - 1]);
    var x := Unheard(truth[last].bids, seen + ds);
    var t := Shadowed(truth, x, cut);
    ShadowPositive(truth, x, cut);
    assert forall i :: 0 <= i < |seen| ==> seen[i] == (seen + ds)[i];
    assert forall i :: 0 <= i < |ds| ==> ds[i] == (seen + ds)[|seen| + i];
    forall i | 0 <= i < |seen| ensures Describes(t, seen[i]) { ShadowDescribes(truth, x, cut, seen[i]); }
    forall i | 0 <= i < |ds| ensures Describes(t, ds[i]) { ShadowDescribes(truth, x, cut, ds[i]); }
    GhostBidSurvives(t, n, ds, x);
    BrokenPromise(t, seen, n, ds);
  }

  lemma GhostBidSurvives(t: seq<Sides>, n: nat, ds: seq<Diff>, x: int)
    requires ds != [] && n < |t| && ds[|ds| - 1].final < |t| && NoneLists(ds, x)
    requires x in t[n].bids && x !in t[ds[|ds| - 1].final].bids
    ensures !BookExact(t, Untrimmed(Book(n, t[n]), ds), COMPLETE)
  {
    var b := Untrimmed(Book(n, t[n]), ds);
    UntrimmedId(Book(n, t[n]), ds);
    UnlistedStays(Book(n, t[n]), ds, x);
    hide Untrimmed;
    assert x in b.sides.Of(Bid) && x !in t[b.id].Of(Bid);
    assert !Exact(Bid, b.sides.Of(Bid), t[b.id].Of(Bid), Everything);
  }

  lemma BrokenPromise(t: seq<Sides>, seen: seq<Diff>, n: nat, ds: seq<Diff>)
    requires AllPositive(t) && AllDescribe(t, seen) && AllDescribe(t, ds) && n < |t|
    requires !BookExact(t, Untrimmed(Book(n, t[n]), ds), COMPLETE)
    ensures !AlwaysRight(seen, n, ds)
  {
    hide BookExact, Untrimmed, AllPositive, AllDescribe;
  }

  /** Where the chain breaks there is such a cut: just after the diff before the break, or at the book's id. */
  lemma BreakIsFatal(truth: seq<Sides>, seen: seq<Diff>, n: nat, ds: seq<Diff>, k: nat)
    requires AllPositive(truth) && AllDescribe(truth, seen) && AllDescribe(truth, ds) && Spaced(ds)
    requires k < |ds| && ds[0].final > n && forall i :: 0 <= i < |seen| ==> seen[i].final <= n
    requires if k == 0 then n < ds[0].prev else !Follows(ds, k)
    ensures !AlwaysRight(seen, n, ds)
  {
    hide Describes, AlwaysRight;
    var cut := if k == 0 then n else ds[k - 1].final;
    assert k > 0 ==> Beyond(ds, k);
    forall i | 0 <= i < |ds| ensures if i < k then ds[i].final <= cut else cut < ds[i].prev < ds[i].final {
      assert Describes(truth, ds[i]);
      FinalInTruth(truth, ds[i]);
      if i + 1 < k {
        SpacedRises(truth, ds, i, k - 1);
      } else if k < i {
        SpacedRises(truth, ds, k, i);
        FinalInTruth(truth, ds[k]);
      }
    }
    CutMisleads(truth, seen, n, ds, cut);
  }

  /** THE EXACT CONDITION. On any in-order part of a history, a replay from a true book at id `n` is right for every
      exchange the tape describes if and only if the applied diffs chain onto `n` and onto each other. */
  lemma ChainedIffAlwaysRight(truth: seq<Sides>, seen: seq<Diff>, n: nat, ds: seq<Diff>)
    requires AllPositive(truth) && AllDescribe(truth, seen) && AllDescribe(truth, ds) && Spaced(ds)
    requires ds != [] && ds[0].final > n && forall i :: 0 <= i < |seen| ==> seen[i].final <= n
    ensures Chained(n, ds) <==> AlwaysRight(seen, n, ds)
  {
    hide Describes, AlwaysRight, Untrimmed;
    if Chained(n, ds) {
      ChainIsRight(seen, n, ds);
    } else if n < ds[0].prev {
      BreakIsFatal(truth, seen, n, ds, 0);
    } else {
      var k: nat :| 0 < k < |ds| && !Follows(ds, k);
      BreakIsFatal(truth, seen, n, ds, k);
    }
  }

  lemma ChainIsRight(seen: seq<Diff>, n: nat, ds: seq<Diff>)
    requires Chained(n, ds)
    ensures AlwaysRight(seen, n, ds)
  {
    hide Describes, Untrimmed;
    forall truth: seq<Sides> | AllPositive(truth) && AllDescribe(truth, seen) && AllDescribe(truth, ds) && n < |truth|
      ensures BookExact(truth, Untrimmed(Book(n, truth[n]), ds), COMPLETE)
    {
      UntrimmedExact(truth, Book(n, truth[n]), ds, COMPLETE);
    }
  }

  // ---------------------------------------------------------------- a book that was not true to begin with

  ghost predicate ListedIn(ds: seq<Diff>, s: Side, p: int) {
    exists i :: 0 <= i < |ds| && Lists(ds[i].Of(s), p)
  }

  /** Along an unbroken chain a listed price ends true, whatever was there; an unlisted one keeps what the book said,
      and the truth did not move there either. */
  lemma {:induction false} ReplayAt(truth: seq<Sides>, n: nat, seed: Sides, ds: seq<Diff>, s: Side, p: int)
    requires AllPositive(truth) && AllDescribe(truth, ds) && Chained(n, ds) && n < |truth|
    ensures var out := Untrimmed(Book(n, seed), ds);
            && out.id < |truth| && out.id == (if ds == [] then n else ds[|ds| - 1].final)
            && (ListedIn(ds, s, p) ==> Same(out.sides.Of(s), truth[out.id].Of(s), p))
            && (!ListedIn(ds, s, p) ==>
                  Same(out.sides.Of(s), seed.Of(s), p) && Same(truth[n].Of(s), truth[out.id].Of(s), p))
  {
    hide Describes, ApplyLevels;
    if ds != [] {
      var init, d := ds[..|ds| - 1], ds[|ds| - 1];
      ChainedInit(n, ds);
      ReplayAt(truth, n, seed, init, s, p);
      assert Describes(truth, d);
      FinalInTruth(truth, d);
      ListedSnoc(init, d, s, p);
      assert ds == init + [d];
      LastDiffAt(truth, Untrimmed(Book(n, seed), init), d, s, p);
    }
  }

  lemma ListedSnoc(ds: seq<Diff>, d: Diff, s: Side, p: int)
    ensures ListedIn(ds + [d], s, p) <==> ListedIn(ds, s, p) || Lists(d.Of(s), p)
  {
    var all := ds + [d];
    if Lists(d.Of(s), p) { assert all[|ds|] == d; }
    if ListedIn(ds, s, p) {
      var i :| 0 <= i < |ds| && Lists(ds[i].Of(s), p);
      assert all[i] == ds[i];
    }
    if ListedIn(all, s, p) {
      var i :| 0 <= i < |all| && Lists(all[i].Of(s), p);
      assert i < |ds| ==> all[i] == ds[i];
    }
  }

  lemma LastDiffAt(truth: seq<Sides>, b: Book, d: Diff, s: Side, p: int)
    requires AllPositive(truth) && Describes(truth, d) && d.prev <= b.id <= d.final
    ensures var m := ApplyLevels(b.sides.Of(s), d.Of(s));
            && (Lists(d.Of(s), p) ==> Same(m, truth[d.final].Of(s), p))
            && (!Lists(d.Of(s), p) ==>
                  Same(m, b.sides.Of(s), p) && Same(truth[b.id].Of(s), truth[d.final].Of(s), p))
  {
    ApplyLevelsAt(b.sides.Of(s), d.Of(s), truth[d.final].Of(s), p);
  }

  /** ANY SEED. Replaying an unbroken chain onto any book, true or not: the result is wrong at a price exactly when the
      book was wrong there and no applied diff lists that price. */
  lemma WrongExactlyWhereUnlisted(truth: seq<Sides>, n: nat, seed: Sides, ds: seq<Diff>, r: Reach, s: Side, p: int)
    requires AllPositive(truth) && AllDescribe(truth, ds) && Chained(n, ds) && n < |truth|
    ensures var out := Untrimmed(Book(n, seed), ds);
            && out.id < |truth|
            && (BookWrongAt(truth, out.id, out, r, s, p) <==>
                  BookWrongAt(truth, n, Book(n, seed), r, s, p) && !ListedIn(ds, s, p))
  {
    hide Describes, Untrimmed, ListedIn;
    ReplayAt(truth, n, seed, ds, s, p);
  }

  /** Every price the book is wrong about is listed by some applied diff. */
  ghost predicate ErrorsListed(truth: seq<Sides>, n: nat, seed: Sides, r: Reach, ds: seq<Diff>)
    requires n < |truth|
  {
    forall s: Side, p :: BookWrongAt(truth, n, Book(n, seed), r, s, p) ==> ListedIn(ds, s, p)
  }

  /** So the result is exact, up to any horizon, if and only if the tape lists every price the book was wrong about. */
  lemma ExactIffErrorsListed(truth: seq<Sides>, n: nat, seed: Sides, ds: seq<Diff>, r: Reach)
    requires AllPositive(truth) && AllDescribe(truth, ds) && Chained(n, ds) && n < |truth|
    ensures BookExact(truth, Untrimmed(Book(n, seed), ds), r) <==> ErrorsListed(truth, n, seed, r, ds)
  {
    hide Describes, Untrimmed, ListedIn, BookWrongAt, BookExact, AllPositive, AllDescribe, Chained;
    forall s: Side, p
      ensures var out := Untrimmed(Book(n, seed), ds);
              && out.id < |truth|
              && (BookWrongAt(truth, out.id, out, r, s, p) <==>
                    BookWrongAt(truth, n, Book(n, seed), r, s, p) && !ListedIn(ds, s, p))
    {
      WrongExactlyWhereUnlisted(truth, n, seed, ds, r, s, p);
    }
    WrongExactlyWhereUnlisted(truth, n, seed, ds, r, Bid, 0);
    ExactIffNothingWrong(truth, Untrimmed(Book(n, seed), ds), r);
  }

  /** What a replay of `ds` from id `n` gives is decided by the book it starts from in just this way, for every exchange
      the tape describes. */
  ghost predicate DecidedBySeed(seen: seq<Diff>, n: nat, ds: seq<Diff>) {
    forall truth: seq<Sides>, seed, r ::
      AllPositive(truth) && AllDescribe(truth, seen) && AllDescribe(truth, ds) && n < |truth| ==>
        (BookExact(truth, Untrimmed(Book(n, seed), ds), r) <==> ErrorsListed(truth, n, seed, r, ds))
  }

  /** THE EXACT CONDITION, FOR ANY SEED. For every exchange the tape describes and every book to start from, true or
      not, the result is exact just when the tape lists every price that book was wrong about - if and only if the
      applied diffs chain onto the book's id and onto each other. */
  lemma ChainedIffDecidedBySeed(truth: seq<Sides>, seen: seq<Diff>, n: nat, ds: seq<Diff>)
    requires AllPositive(truth) && AllDescribe(truth, seen) && AllDescribe(truth, ds) && Spaced(ds)
    requires ds != [] && ds[0].final > n && forall i :: 0 <= i < |seen| ==> seen[i].final <= n
    ensures Chained(n, ds) <==> DecidedBySeed(seen, n, ds)
  {
    hide Describes, AllDescribe, AllPositive, BookExact, Untrimmed, ErrorsListed, Chained, Spaced;
    ChainedIffAlwaysRight(truth, seen, n, ds);
    if Chained(n, ds) {
      forall t: seq<Sides>, seed, r | AllPositive(t) && AllDescribe(t, seen) && AllDescribe(t, ds) && n < |t|
        ensures BookExact(t, Untrimmed(Book(n, seed), ds), r) <==> ErrorsListed(t, n, seed, r, ds)
      {
        ExactIffErrorsListed(t, n, seed, ds, r);
      }
    }
    if DecidedBySeed(seen, n, ds) {
      forall t: seq<Sides> | AllPositive(t) && AllDescribe(t, seen) && AllDescribe(t, ds) && n < |t|
        ensures BookExact(t, Untrimmed(Book(n, t[n]), ds), COMPLETE)
      {
        TrueSeedHasNoErrors(t, n, ds);
      }
    }
  }

  lemma TrueSeedHasNoErrors(truth: seq<Sides>, n: nat, ds: seq<Diff>)
    requires n < |truth|
    ensures ErrorsListed(truth, n, truth[n], COMPLETE, ds)
  {
    hide ListedIn;
  }
}
