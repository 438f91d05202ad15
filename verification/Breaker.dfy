/** The shared circuit breaker as a concurrent maximum register: any number of `trip` calls, each a relaxed load
    followed by a compare-exchange loop, interleaved in every possible way. */
module Breaker {
  import opened Basics

  /** A `trip` call: `view` is the position, in the word's modification order, of the value it last read. */
  datatype Trip =
    | Loop(until: nat, view: nat, failures: nat)
    | Done(until: nat)

  /** `stored` is every value `blocked_until` has held, oldest first; `asked` every `until` a call came with. */
  datatype State = State(stored: seq<nat>, trips: map<nat, Trip>, asked: seq<nat>)

  datatype Action =
    | Load(id: nat, until: nat, seen: nat)  // start a call; a relaxed load may see any earlier value
    | Exit(id: nat)                         // `until > cur` is false
    | Store(id: nat)                        // the exchange succeeds
    | Fail(id: nat, seen: nat)              // the exchange fails and returns a value other than `cur`

  function Init(): State {
    State([0], map[], [])
  }

  function BlockedUntil(s: State): nat
    requires s.stored != []
  {
    Last(s.stored)
  }

  predicate Looping(s: State, id: nat) {
    id in s.trips && s.trips[id].Loop? && s.trips[id].view < |s.stored|
  }

  function Current(s: State, id: nat): nat
    requires Looping(s, id)
  {
    s.stored[s.trips[id].view]
  }

  /** An exchange compares values, and on failure never returns a value older than the last one its thread saw. */
  predicate Enabled(s: State, a: Action) {
    s.stored != [] &&
    match a
    case Load(id, _, seen) => id !in s.trips && seen < |s.stored|
    case Exit(id) => Looping(s, id) && s.trips[id].until <= Current(s, id)
    case Store(id) => Looping(s, id) && s.trips[id].until > Current(s, id) && Current(s, id) == BlockedUntil(s)
    case Fail(id, seen) =>
      && Looping(s, id) && s.trips[id].until > Current(s, id)
      && s.trips[id].view <= seen < |s.stored| && s.stored[seen] != Current(s, id)
  }

  function Step(s: State, a: Action): State
    requires Enabled(s, a)
  {
    match a
    case Load(id, until, seen) => s.(trips := s.trips[id := Loop(until, seen, 0)], asked := s.asked + [until])
    case Exit(id) => s.(trips := s.trips[id := Done(s.trips[id].until)])
    case Store(id) =>
      State(s.stored + [s.trips[id].until], s.trips[id := Done(s.trips[id].until)], s.asked)
    case Fail(id, seen) =>
      s.(trips := s.trips[id := Loop(s.trips[id].until, seen, s.trips[id].failures + 1)])
  }

  ghost predicate Run(s: State, acts: seq<Action>, t: State)
    decreases |acts|
  {
    if acts == [] then s == t else Enabled(s, acts[0]) && Run(Step(s, acts[0]), acts[1..], t)
  }

  predicate Increasing(v: seq<nat>) {
    forall i, j :: 0 <= i < j < |v| ==> v[i] < v[j]
  }

  /** What one call relies on: a finished call is covered, and a looping one has failed at most once per value it
      has moved past. */
  predicate TripOk(s: State, t: Trip)
    requires s.stored != []
  {
    && t.until in s.asked
    && (t.Done? ==> t.until <= BlockedUntil(s))
    && (t.Loop? ==> t.view < |s.stored| && t.failures <= t.view)
  }

  ghost predicate Invariant(s: State) {
    && s.stored != [] && s.stored[0] == 0 && Increasing(s.stored)
    && (forall i :: 0 < i < |s.stored| ==> s.stored[i] in s.asked)
    && (forall id :: id in s.trips ==> TripOk(s, s.trips[id]))
    && (forall u :: u in s.asked ==> exists id :: id in s.trips && s.trips[id].until == u)
  }

  lemma InitInvariant()
    ensures Invariant(Init())
  {
  }

  lemma StoreGrows(s: State, id: nat)
    requires Invariant(s) && Enabled(s, Store(id))
    ensures var t := Step(s, Store(id));
            Increasing(t.stored) && BlockedUntil(t) > BlockedUntil(s) && BlockedUntil(t) == s.trips[id].until
    ensures forall i :: 0 < i < |Step(s, Store(id)).stored| ==> Step(s, Store(id)).stored[i] in s.asked
  {
    var t := Step(s, Store(id));
    assert t.stored[..|s.stored|] == s.stored;
    forall i, j | 0 <= i < j < |t.stored| ensures t.stored[i] < t.stored[j] {
      if j == |s.stored| && i < |s.stored| - 1 { assert s.stored[i] < Last(s.stored); }
    }
  }

  lemma StepGrows(s: State, a: Action)
    requires Invariant(s) && Enabled(s, a)
    ensures s.stored <= Step(s, a).stored && Step(s, a).stored != []
    ensures BlockedUntil(s) <= BlockedUntil(Step(s, a))
    ensures forall id :: id in s.trips ==> id in Step(s, a).trips && Step(s, a).trips[id].until == s.trips[id].until
    ensures forall id :: id in s.trips && s.trips[id].Done? ==> Step(s, a).trips[id].Done?
  {
    hide Increasing, TripOk;
    if a.Store? { StoreGrows(s, a.id); }
  }

  lemma StepInvariant(s: State, a: Action)
    requires Invariant(s) && Enabled(s, a)
    ensures Invariant(Step(s, a))
  {
    hide Increasing, BlockedUntil;
    var t := Step(s, a);
    StepGrows(s, a);
    if a.Store? { StoreGrows(s, a.id); }
    if a.Fail? { FailureMovesOn(s, a); }
    forall id | id in t.trips ensures TripOk(t, t.trips[id]) {
      assert id != a.id ==> TripOk(s, s.trips[id]);
      assert a.id in s.trips ==> TripOk(s, s.trips[a.id]);
      if a.Exit? && id == a.id { BelowLast(s, s.trips[id].view); }
    }
    forall u | u in t.asked ensures exists id :: id in t.trips && t.trips[id].until == u {
      if u in s.asked {
        var id :| id in s.trips && s.trips[id].until == u;
        assert id in t.trips && t.trips[id].until == u;
      } else {
        assert t.trips[a.id].until == u;
      }
    }
  }

  lemma BelowLast(s: State, i: nat)
    requires Invariant(s) && i < |s.stored|
    ensures s.stored[i] <= BlockedUntil(s)
  {
  }

  /** TERMINATION. A failed exchange leaves the call with a strictly later, strictly larger value, so `until - cur`
      strictly falls. */
  lemma FailureMovesOn(s: State, a: Action)
    requires Invariant(s) && a.Fail? && Enabled(s, a)
    ensures var t := Step(s, a);
            && Looping(t, a.id) && t.trips[a.id].view > s.trips[a.id].view
            && t.trips[a.id].failures == s.trips[a.id].failures + 1
            && t.trips[a.id].until - Current(t, a.id) < s.trips[a.id].until - Current(s, a.id)
  {
  }

  /** A call whose exchange finds the latest value cannot fail, and one whose view is stale cannot store: exactly one
      outcome of the loop body is open to every looping call. */
  lemma LoopNeverStuck(s: State, id: nat)
    requires Invariant(s) && Looping(s, id)
    ensures Enabled(s, Exit(id)) || Enabled(s, Store(id)) || exists seen: nat :: Enabled(s, Fail(id, seen))
    ensures Enabled(s, Store(id)) ==> !Enabled(s, Exit(id)) && forall seen: nat :: !Enabled(s, Fail(id, seen))
    ensures Enabled(s, Exit(id)) <==> s.trips[id].until <= Current(s, id)
    ensures Enabled(s, Exit(id)) ==> forall seen: nat :: !Enabled(s, Fail(id, seen))
    ensures Enabled(s, Store(id)) <==> s.trips[id].view == |s.stored| - 1 && s.trips[id].until > Current(s, id)
  {
    var latest: nat := |s.stored| - 1;
    if s.trips[id].until > Current(s, id) && s.trips[id].view < latest {
      assert s.stored[s.trips[id].view] < s.stored[latest];
      assert Enabled(s, Fail(id, latest));
    }
  }

  /** MAXIMUM REGISTER. Under every interleaving: the word never decreases; a finished call's `until` is covered then
      and ever after; and no call fails more often than other calls have stored. */
  lemma {:induction false} NeverDecreases(s: State, acts: seq<Action>, t: State)
    requires Invariant(s) && Run(s, acts, t)
    ensures Invariant(t) && BlockedUntil(s) <= BlockedUntil(t)
    ensures s.stored <= t.stored
    ensures forall id :: id in s.trips && s.trips[id].Done? ==> s.trips[id].until <= BlockedUntil(t)
    ensures forall id :: id in t.trips && t.trips[id].Loop? ==> t.trips[id].failures <= |t.stored| - 1
    decreases |acts|
  {
    hide Step, Increasing, Enabled, Looping;
    forall id | id in s.trips && s.trips[id].Done? ensures s.trips[id].until <= BlockedUntil(s) {
      assert TripOk(s, s.trips[id]);
    }
    forall id | id in t.trips && t.trips[id].Loop? && acts == [] ensures t.trips[id].failures <= |t.stored| - 1 {
      assert TripOk(t, t.trips[id]);
    }
    if acts != [] {
      StepInvariant(s, acts[0]);
      StepGrows(s, acts[0]);
      NeverDecreases(Step(s, acts[0]), acts[1..], t);
    }
  }

  /** Once every call has finished, the word is exactly the largest `until` any of them asked for (or zero). */
  lemma QuietIsMaximum(s: State, acts: seq<Action>, t: State)
    requires s == Init() && Run(s, acts, t)
    requires forall id :: id in t.trips ==> t.trips[id].Done?
    ensures t.stored != [] && (BlockedUntil(t) == 0 || BlockedUntil(t) in t.asked)
    ensures forall u :: u in t.asked ==> u <= BlockedUntil(t)
  {
    InitInvariant();
    NeverDecreases(s, acts, t);
    forall u | u in t.asked ensures u <= BlockedUntil(t) {
      var id :| id in t.trips && t.trips[id].until == u;
      assert TripOk(t, t.trips[id]);
    }
  }

  /** At every moment of a run the word is the largest of zero and the values stored. */
  lemma WordIsMaximumOfStores(s: State, acts: seq<Action>, t: State)
    requires s == Init() && Run(s, acts, t)
    ensures t.stored != [] && t.stored[0] == 0 && forall v :: v in t.stored ==> v <= BlockedUntil(t)
  {
    InitInvariant();
    NeverDecreases(s, acts, t);
    forall v | v in t.stored ensures v <= BlockedUntil(t) {
      var i :| 0 <= i < |t.stored| && t.stored[i] == v;
      BelowLast(t, i);
    }
  }

  /** Nanoseconds to wait when blocked. */
  function BlockedWait(blocked: nat, now: nat): Option<nat> {
    if blocked > now then Some(blocked - now) else None
  }

  /** The word after other calls have raised it `tries` times. */
  function Raised(word: nat, rivals: nat -> nat, tries: nat): nat {
    if tries == 0 then word else Max(Raised(word, rivals, tries - 1), rivals(tries - 1))
  }

  class CircuitBreaker {
    var blockedUntil: nat

    constructor ()
      ensures blockedUntil == 0
    {
      blockedUntil := 0;
    }

    method CompareExchange(expected: nat, desired: nat) returns (stored: bool, seen: nat)
      modifies this
      ensures stored == (old(blockedUntil) == expected) && seen == old(blockedUntil)
      ensures blockedUntil == if stored then desired else old(blockedUntil)
    {
      stored, seen := blockedUntil == expected, blockedUntil;
      if stored { blockedUntil := desired; }
    }

    /** One call, starting from a possibly stale load; `rivals(k)` is what another call stores just before the k-th
        exchange (zero for none). The loop stops, and the word is the maximum of everything. */
    method Trip(until: nat, first: nat, rivals: nat -> nat) returns (tries: nat)
      requires first <= blockedUntil
      modifies this
      ensures blockedUntil == Max(Raised(old(blockedUntil), rivals, tries), until)
      ensures tries <= until
    {
      var cur := first;
      tries := 0;
      while until > cur
        invariant blockedUntil == Raised(old(blockedUntil), rivals, tries)
        invariant cur <= blockedUntil && tries <= cur && tries <= until
        decreases until - cur
      {
        blockedUntil := Max(blockedUntil, rivals(tries));
        tries := tries + 1;
        var stored, seen := CompareExchange(cur, until);
        if stored {
          break;
        }
        cur := seen;
      }
    }
  }
}
