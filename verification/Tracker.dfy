/** The two-strike symbol tracker and the periodic discovery loop around it. */
module Tracker {
  import opened Basics

  type Symbol = string

  datatype Tracked = Tracked(known: set<Symbol>, missing: set<Symbol>)
  datatype Change = Change(added: set<Symbol>, removed: set<Symbol>)

  function Start(initial: set<Symbol>): Tracked {
    Tracked(initial, {})
  }

  /** One successful discovery result: additions at once, removal on the second absence in a row. */
  function Observed(t: Tracked, found: set<Symbol>): (Tracked, Change) {
    var added := found - t.known;
    var absent := (t.known + added) - found;
    var removed := absent * t.missing;
    (Tracked((t.known + added) - removed, absent - t.missing), Change(added, removed))
  }

  class SymbolSetTracker {
    var known: set<Symbol>
    var missingOnce: set<Symbol>

    constructor (initial: set<Symbol>)
      ensures Tracked(known, missingOnce) == Start(initial)
    {
      known, missingOnce := initial, {};
    }

    method Unknown(found: set<Symbol>) returns (added: set<Symbol>)
      ensures added == found - known
    {
      added := {};
      var rest := found;
      while rest != {}
        invariant rest <= found && added == (found - rest) - known
        decreases |rest|
      {
        ghost var some := Member(rest);
        var s :| s in rest;
        if s !in known { added := added + {s}; }
        rest := rest - {s};
      }
    }

    /** Second absences in a row, and first strikes. */
    method Strikes(found: set<Symbol>) returns (removed: set<Symbol>, missingNow: set<Symbol>)
      ensures removed == (known - found) * missingOnce && missingNow == (known - found) - missingOnce
    {
      removed, missingNow := {}, {};
      var rest := known;
      while rest != {}
        invariant rest <= known
        invariant forall s :: s in removed <==> s in known && s !in rest && s !in found && s in missingOnce
        invariant forall s :: s in missingNow <==> s in known && s !in rest && s !in found && s !in missingOnce
        decreases |rest|
      {
        ghost var some := Member(rest);
        var s :| s in rest;
        if s !in found {
          if s in missingOnce {
            removed := removed + {s};
          } else {
            missingNow := missingNow + {s};
          }
        }
        rest := rest - {s};
      }
    }

    method Observe(found: set<Symbol>) returns (change: Change)
      modifies this
      ensures (Tracked(known, missingOnce), change) == Observed(old(Tracked(known, missingOnce)), found)
    {
      var added := Unknown(found);
      known := known + added;
      var removed, missingNow := Strikes(found);
      known, missingOnce := known - removed, missingNow;
      change := Change(added, removed);
    }
  }

  // ---------------------------------------------------------------- closed form

  /** The k-th fed result; before the first, the initial set. */
  function Fed(initial: set<Symbol>, results: seq<set<Symbol>>, k: int): set<Symbol>
    requires k <= |results|
  {
    if k <= 0 then initial else results[k - 1]
  }

  function After(initial: set<Symbol>, results: seq<set<Symbol>>): Tracked {
    if results == [] then Start(initial) else Observed(After(initial, results[..|results| - 1]), Last(results)).0
  }

  /** The tracker remembers exactly the last two results. */
  lemma {:induction false} LastTwoResults(initial: set<Symbol>, results: seq<set<Symbol>>)
    ensures var k := |results|;
            var now, before := Fed(initial, results, k), Fed(initial, results, k - 1);
            After(initial, results) == Tracked(now + before, before - now)
  {
    if results != [] {
      var init := results[..|results| - 1];
      LastTwoResults(initial, init);
      assert Fed(initial, init, |init|) == Fed(initial, results, |init|);
      assert Fed(initial, init, |init| - 1) == Fed(initial, results, |init| - 1);
    }
  }

  /** CLOSED FORM. A symbol is reported removed exactly when two consecutive results miss it and the one before had
      it, added exactly when it is new against the two results before. */
  lemma ChangeClosedForm(initial: set<Symbol>, results: seq<set<Symbol>>, found: set<Symbol>)
    ensures var k := |results|;
            var before, earlier := Fed(initial, results, k), Fed(initial, results, k - 1);
            Observed(After(initial, results), found).1 ==
            Change(found - (before + earlier), earlier - (before + found))
  {
    LastTwoResults(initial, results);
  }

  // ---------------------------------------------------------------- the discovery loop

  /** `ever` and `gone` are bookkeeping for the statements: all symbols ever tracked, all ever removed. */
  datatype Loop = Loop(tracked: Tracked, delisted: set<Symbol>, pending: set<Symbol>,
                       ever: set<Symbol>, gone: set<Symbol>)

  /** Refuse a result that lost more than a tenth of the tracked set. */
  predicate Degraded(t: Tracked, found: set<Symbol>) {
    |found| * 10 < |t.known| * 9
  }

  /** One cycle; a failed discovery is `None`. */
  function Cycle(l: Loop, result: Option<set<Symbol>>): Loop {
    if result.None? || Degraded(l.tracked, result.value) then l
    else
      var (t, change) := Observed(l.tracked, result.value);
      Loop(t, l.delisted - change.added + change.removed, l.pending + change.added - change.removed,
           l.ever + change.added, l.gone + change.removed)
  }

  function Cycles(initial: set<Symbol>, results: seq<Option<set<Symbol>>>): Loop {
    if results == [] then Loop(Start(initial), {}, {}, initial, {})
    else Cycle(Cycles(initial, results[..|results| - 1]), Last(results))
  }

  /** The results that reach the tracker: neither failed nor refused. */
  function FedResults(initial: set<Symbol>, results: seq<Option<set<Symbol>>>): seq<set<Symbol>> {
    if results == [] then []
    else
      var init, r := results[..|results| - 1], Last(results);
      var before := FedResults(initial, init);
      if r.None? || Degraded(Cycles(initial, init).tracked, r.value) then before else before + [r.value]
  }

  /** So the closed form holds in the loop, over the fed results: a skipped cycle is neither a strike nor a reprieve. */
  lemma {:induction false} SkippedCyclesDoNotCount(initial: set<Symbol>, results: seq<Option<set<Symbol>>>)
    ensures var fed := FedResults(initial, results);
            var now, before := Fed(initial, fed, |fed|), Fed(initial, fed, |fed| - 1);
            Cycles(initial, results).tracked == After(initial, fed) == Tracked(now + before, before - now)
  {
    hide Fed, Observed, Degraded;
    LastTwoResults(initial, FedResults(initial, results));
    if results != [] {
      var init := results[..|results| - 1];
      SkippedCyclesDoNotCount(initial, init);
      var fed := FedResults(initial, init);
      if Last(results).Some? { assert (fed + [Last(results).value])[..|fed|] == fed; }
    }
  }

  function Announced(pending: map<Symbol, int>, added: set<Symbol>, nowMs: int): map<Symbol, int> {
    map s | s in pending.Keys + added :: if s in added then nowMs else pending[s]
  }

  lemma AnnouncedOne(pending: map<Symbol, int>, added: set<Symbol>, s: Symbol, nowMs: int)
    ensures Announced(pending, added + {s}, nowMs) == Announced(pending, added, nowMs)[s := nowMs]
  {
  }

  lemma KeysAnnounced(pending: map<Symbol, int>, added: set<Symbol>, nowMs: int)
    ensures Announced(pending, added, nowMs).Keys == pending.Keys + added
  {
  }

  lemma NothingAnnounced(pending: map<Symbol, int>, nowMs: int)
    ensures Announced(pending, {}, nowMs) == pending
  {
  }

  class Discovery {
    const tracker: SymbolSetTracker
    var delisted: set<Symbol>
    var newListings: map<Symbol, int>

    constructor (initial: set<Symbol>)
      ensures fresh(tracker) && Tracked(tracker.known, tracker.missingOnce) == Start(initial)
      ensures delisted == {} && newListings == map[]
    {
      tracker := new SymbolSetTracker(initial);
      delisted, newListings := {}, map[];
    }

    /** Newly found symbols stop being delisted and are announced. */
    method Announce(added: set<Symbol>, nowMs: int)
      modifies this
      ensures delisted == old(delisted) - added && newListings == Announced(old(newListings), added, nowMs)
    {
      hide Announced;
      var rest := added;
      ghost var done: set<Symbol> := {};
      NothingAnnounced(newListings, nowMs);
      while rest != {}
        invariant rest + done == added && delisted == old(delisted) - done
        invariant newListings == Announced(old(newListings), done, nowMs)
        decreases |rest|
      {
        ghost var some := Member(rest);
        var s :| s in rest;
        delisted := delisted - {s};
        AnnouncedOne(old(newListings), done, s, nowMs);
        newListings := newListings[s := nowMs];
        rest, done := rest - {s}, done + {s};
      }
    }

    method Retire(removed: set<Symbol>)
      modifies this
      ensures delisted == old(delisted) + removed && newListings == old(newListings) - removed
    {
      var rest := removed;
      while rest != {}
        invariant rest <= removed && delisted == old(delisted) + (removed - rest)
        invariant newListings == old(newListings) - (removed - rest)
        decreases |rest|
      {
        ghost var some := Member(rest);
        var s :| s in rest;
        newListings := newListings - {s};
        delisted := delisted + {s};
        rest := rest - {s};
      }
    }

    /** One tick of the loop; `result` is `None` when discovery failed. */
    method Tick(result: Option<set<Symbol>>, nowMs: int)
      modifies this, tracker
      ensures var t := old(Tracked(tracker.known, tracker.missingOnce));
              var l := Loop(t, old(delisted), old(newListings.Keys), {}, {});
              var m := Cycle(l, result);
              && Tracked(tracker.known, tracker.missingOnce) == m.tracked
              && delisted == m.delisted && newListings.Keys == m.pending
    {
      hide Observed, Announced;
      if result.None? || |result.value| * 10 < |tracker.known| * 9 {
        return;
      }
      var change := tracker.Observe(result.value);
      KeysAnnounced(newListings, change.added, nowMs);
      Announce(change.added, nowMs);
      Retire(change.removed);
    }
  }

  /** LIFECYCLE. Whatever the discovery results, failures and refusals: the delisted set is exactly the symbols once
      tracked and not tracked now, and the pending new listings are exactly the tracked symbols that either were not
      there at the start or have been removed since. */
  lemma {:induction false} LifecycleIsExact(initial: set<Symbol>, results: seq<Option<set<Symbol>>>)
    ensures var l := Cycles(initial, results);
            && l.delisted == l.ever - l.tracked.known
            && l.pending == l.tracked.known - (initial - l.gone)
            && l.tracked.known <= l.ever && initial <= l.ever && l.gone <= l.ever
            && l.tracked.missing <= l.tracked.known && initial - l.gone <= l.tracked.known
  {
    if results != [] { LifecycleIsExact(initial, results[..|results| - 1]); }
  }

  /** And a result is never refused for missing at most a tenth of what is tracked. */
  lemma SmallLossIsFed(t: Tracked, found: set<Symbol>)
    requires 10 * |t.known - found| <= |t.known|
    ensures !Degraded(t, found)
  {
    assert t.known == (t.known * found) + (t.known - found);
    SubsetSize(t.known * found, found);
  }

  /** When nothing was added, exactly a loss of more than a tenth is refused. */
  lemma RefusedIff(t: Tracked, found: set<Symbol>)
    requires found <= t.known
    ensures Degraded(t, found) <==> 10 * |t.known - found| > |t.known|
  {
    assert t.known == found + (t.known - found);
  }

  /** FLOOR. A cycle that is not refused removes at most a tenth of what was tracked, plus what it added. */
  lemma FloorBoundsRemovals(t: Tracked, found: set<Symbol>)
    requires !Degraded(t, found)
    ensures var change := Observed(t, found).1;
            10 * |change.removed| <= |t.known| + 10 * |change.added|
  {
    var change := Observed(t, found).1;
    var kept := t.known * found;
    assert t.known == kept + (t.known - found);
    assert found == kept + change.added;
    SubsetSize(change.removed, t.known - found);
  }
}
