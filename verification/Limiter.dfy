/** The rolling-window limiter: the critical section over its deque, concurrent callers sharing it, and the retry
    loop. */
module Limiter {
  import opened Basics
  import Breaker

  /** One admitted request in the deque. */
  datatype Entry = Entry(at: nat, weight: nat)

  datatype Config = Config(maxPerWindow: nat, windowNanos: nat)

  const FLOOR: nat := 1_000_000

  function Total(es: seq<Entry>): nat {
    if es == [] then 0 else Total(es[..|es| - 1]) + Last(es).weight
  }

  /** The requests of a log admitted within `[from, to]`. */
  function During(log: seq<Entry>, from: int, to: int): seq<Entry> {
    if log == [] then []
    else
      var before := During(log[..|log| - 1], from, to);
      if from <= Last(log).at <= to then before + [Last(log)] else before
  }

  predicate Sorted(es: seq<Entry>) {
    forall i, j :: 0 <= i < j < |es| ==> es[i].at <= es[j].at
  }

  /** Entries left after popping expired ones off the front. */
  function Expire(es: seq<Entry>, cutoff: nat): seq<Entry> {
    if es != [] && es[0].at < cutoff then Expire(es[1..], cutoff) else es
  }

  /** How long a refused caller is told to sleep. */
  function Pause(front: nat, c: Config, now: nat): (wait: nat)
    ensures wait >= FLOOR && now + wait >= front + c.windowNanos
  {
    var left := SatSub(front + c.windowNanos, now);
    if left < FLOOR then FLOOR else left
  }

  predicate Fits(c: Config, live: seq<Entry>, weight: nat) {
    Total(live) + weight <= c.maxPerWindow || live == []
  }

  /** The critical section: the new deque and zero when admitted, or how long to sleep. */
  function Attempt(c: Config, window: seq<Entry>, now: nat, weight: nat): (seq<Entry>, nat) {
    var live := Expire(window, SatSub(now, c.windowNanos));
    if Fits(c, live, weight) then (live + [Entry(now, weight)], 0) else (live, Pause(live[0].at, c, now))
  }

  // ---------------------------------------------------------------- logs and intervals

  lemma {:induction false} DuringSplit(x: seq<Entry>, y: seq<Entry>, from: int, to: int)
    ensures During(x + y, from, to) == During(x, from, to) + During(y, from, to)
    decreases |y|
  {
    if y == [] {
      assert x + y == x;
    } else {
      var init := y[..|y| - 1];
      assert (x + y)[..|x + y| - 1] == x + init && Last(x + y) == Last(y);
      DuringSplit(x, init, from, to);
    }
  }

  lemma {:induction false} DuringNone(x: seq<Entry>, from: int, to: int)
    requires forall i :: 0 <= i < |x| ==> x[i].at < from || x[i].at > to
    ensures During(x, from, to) == []
  {
    if x != [] { DuringNone(x[..|x| - 1], from, to); }
  }

  lemma {:induction false} DuringAll(x: seq<Entry>, from: int, to: int)
    requires forall i :: 0 <= i < |x| ==> from <= x[i].at <= to
    ensures During(x, from, to) == x
  {
    if x != [] {
      DuringAll(x[..|x| - 1], from, to);
      assert x == x[..|x| - 1] + [Last(x)];
    }
  }

  /** A narrower interval admits no more weight. */
  lemma {:induction false} NarrowerWeighsLess(x: seq<Entry>, from: int, to: int, from': int, to': int)
    requires from <= from' && to' <= to
    ensures Total(During(x, from', to')) <= Total(During(x, from, to))
    ensures During(x, from, to) == [] ==> During(x, from', to') == []
  {
    if x != [] {
      var init := x[..|x| - 1];
      NarrowerWeighsLess(init, from, to, from', to');
      TotalSnoc(During(init, from, to), Last(x));
      TotalSnoc(During(init, from', to'), Last(x));
    }
  }

  lemma TotalSnoc(x: seq<Entry>, e: Entry)
    ensures Total(x + [e]) == Total(x) + e.weight
  {
    assert (x + [e])[..|x|] == x;
  }

  // ---------------------------------------------------------------- the deque refines the log

  /** The deque is a suffix of the admission log, and whatever left it was expired at some past moment. */
  ghost predicate Suffix(c: Config, window: seq<Entry>, log: seq<Entry>, now: nat) {
    && Sorted(log) && (forall i :: 0 <= i < |log| ==> log[i].at <= now)
    && |window| <= |log| && window == log[|log| - |window|..]
    && forall i :: 0 <= i < |log| - |window| ==> log[i].at < SatSub(now, c.windowNanos)
  }

  /** Popping off the front leaves exactly the log's entries of the last `windowNanos`. */
  lemma {:induction false} ExpireIsRecent(c: Config, window: seq<Entry>, log: seq<Entry>, earlier: nat, now: nat)
    requires Suffix(c, window, log, earlier) && earlier <= now
    ensures var live := Expire(window, SatSub(now, c.windowNanos));
            Suffix(c, live, log, now) && live == During(log, SatSub(now, c.windowNanos), now)
    decreases |window|
  {
    var cutoff := SatSub(now, c.windowNanos);
    var d := |log| - |window|;
    if window != [] && window[0].at < cutoff {
      assert window[0] == log[d];
      assert Suffix(c, window[1..], log, now);
      ExpireIsRecent(c, window[1..], log, now, now);
    } else {
      SuffixIsDuring(log, d, cutoff, now);
    }
  }

  lemma SuffixIsDuring(log: seq<Entry>, d: nat, cutoff: nat, now: nat)
    requires d <= |log| && Sorted(log) && forall i :: 0 <= i < |log| ==> log[i].at <= now
    requires forall i :: 0 <= i < d ==> log[i].at < cutoff
    requires d < |log| ==> log[d].at >= cutoff
    ensures log[d..] == During(log, cutoff, now)
  {
    assert log == log[..d] + log[d..];
    DuringSplit(log[..d], log[d..], cutoff, now);
    DuringNone(log[..d], cutoff, now);
    DuringAll(log[d..], cutoff, now);
  }

  /** Every closed interval of one window's length holds at most the budget, or a single request. */
  ghost predicate WithinBudget(c: Config, log: seq<Entry>) {
    forall a: int :: InBudget(c, log, a)
  }

  predicate InBudget(c: Config, log: seq<Entry>, a: int) {
    var d := During(log, a, a + c.windowNanos);
    Total(d) <= c.maxPerWindow || |d| == 1
  }

  /** REFINEMENT. The critical section decides exactly on the true admission log: it admits if and only if the
      requests of the last `windowNanos` leave room, or there are none. */
  lemma AttemptRefinesLog(c: Config, window: seq<Entry>, log: seq<Entry>, earlier: nat, now: nat, weight: nat)
    requires Suffix(c, window, log, earlier) && earlier <= now
    ensures var recent := During(log, SatSub(now, c.windowNanos), now);
            var (w, wait) := Attempt(c, window, now, weight);
            && (wait == 0 <==> Total(recent) + weight <= c.maxPerWindow || recent == [])
            && w == (if wait == 0 then recent + [Entry(now, weight)] else recent)
            && Suffix(c, w, if wait == 0 then log + [Entry(now, weight)] else log, now)
  {
    hide Expire, During;
    ExpireIsRecent(c, window, log, earlier, now);
    var live := Expire(window, SatSub(now, c.windowNanos));
    SuffixSnoc(c, live, log, now, Entry(now, weight));
  }

  lemma SuffixSnoc(c: Config, window: seq<Entry>, log: seq<Entry>, now: nat, e: Entry)
    requires Suffix(c, window, log, now) && e.at == now
    ensures Suffix(c, window + [e], log + [e], now)
  {
  }

  /** One more admission keeps every interval within budget. */
  lemma AdmissionKeepsBudget(c: Config, log: seq<Entry>, now: nat, weight: nat)
    requires WithinBudget(c, log) && forall i :: 0 <= i < |log| ==> log[i].at <= now
    requires var recent := During(log, SatSub(now, c.windowNanos), now);
             Total(recent) + weight <= c.maxPerWindow || recent == []
    ensures WithinBudget(c, log + [Entry(now, weight)])
  {
    hide During, Total, InBudget;
    forall a: int ensures InBudget(c, log + [Entry(now, weight)], a) {
      IntervalKeepsBudget(c, log, now, weight, a);
    }
  }

  lemma IntervalKeepsBudget(c: Config, log: seq<Entry>, now: nat, weight: nat, a: int)
    requires WithinBudget(c, log) && forall i :: 0 <= i < |log| ==> log[i].at <= now
    requires var recent := During(log, SatSub(now, c.windowNanos), now);
             Total(recent) + weight <= c.maxPerWindow || recent == []
    ensures InBudget(c, log + [Entry(now, weight)], a)
  {
    hide During, Total, WithinBudget;
    var e, b := Entry(now, weight), a + c.windowNanos;
    DuringSplit(log, [e], a, b);
    DuringOne(e, a, b);
    WasInBudget(c, log, a);
    if a <= now <= b {
      RecentHoldsInterval(c, log, now, a);
      OneMoreFits(c.maxPerWindow, During(log, a, b), During(log, SatSub(now, c.windowNanos), now), e);
    } else {
      AddNothing(During(log, a, b));
    }
  }

  lemma AddNothing(x: seq<Entry>)
    ensures x + [] == x
  {
  }

  lemma WasInBudget(c: Config, log: seq<Entry>, a: int)
    requires WithinBudget(c, log)
    ensures InBudget(c, log, a)
  {
  }

  lemma OneMoreFits(max: nat, before: seq<Entry>, recent: seq<Entry>, e: Entry)
    requires Total(before) <= Total(recent) && (recent == [] ==> before == [])
    requires Total(recent) + e.weight <= max || recent == []
    ensures Total(before + [e]) <= max || |before + [e]| == 1
  {
    TotalSnoc(before, e);
    hide Total;
  }

  /** An interval that reaches `now` lies, as far as the log goes, within the last `windowNanos`. */
  lemma RecentHoldsInterval(c: Config, log: seq<Entry>, now: nat, a: int)
    requires (forall i :: 0 <= i < |log| ==> log[i].at <= now) && a <= now <= a + c.windowNanos
    ensures var recent, d := During(log, SatSub(now, c.windowNanos), now), During(log, a, a + c.windowNanos);
            Total(d) <= Total(recent) && (recent == [] ==> d == [])
  {
    hide During, Total;
    var from := if a > 0 then a else 0;
    DuringCapped(log, a, a + c.windowNanos, from, now);
    NarrowerWeighsLess(log, SatSub(now, c.windowNanos), now, from, now);
  }

  lemma DuringOne(e: Entry, a: int, b: int)
    ensures During([e], a, b) == if a <= e.at <= b then [e] else []
  {
    assert During([e][..0], a, b) == [];
  }

  /** Bounds beyond the log's own range do not matter. */
  lemma {:induction false} DuringCapped(log: seq<Entry>, a: int, b: int, from: nat, now: nat)
    requires forall i :: 0 <= i < |log| ==> log[i].at <= now
    requires now <= b && a <= from && (a >= 0 ==> a == from) && (a < 0 ==> from == 0)
    ensures During(log, a, b) == During(log, from, now)
  {
    if log != [] { DuringCapped(log[..|log| - 1], a, b, from, now); }
  }

  // ---------------------------------------------------------------- concurrent callers

  /** Where a caller stands: its breaker check and its critical section are separate steps. */
  datatype Caller = Cleared(checkedAt: nat, blockedSeen: nat) | Asleep(until: nat)

  /** What is recorded of an admission beside its entry; `trips` are the trips that came before it. */
  datatype Grant = Grant(at: nat, checkedAt: nat, blockedSeen: nat, blockedNow: nat, trips: seq<nat>)

  datatype State = State(now: nat, blocked: nat, window: seq<Entry>, callers: map<nat, Caller>,
                         trips: seq<nat>, log: seq<Entry>, grants: seq<Grant>)

  datatype Action =
    | Tick(nanos: nat)
    | Trip(until: nat)             // another response trips the breaker: the word becomes the maximum
    | Check(id: nat, seen: nat)    // the breaker check at the top of the loop; a relaxed load may see an older word
    | Enter(id: nat, weight: nat)  // the critical section
    | Wake(id: nat)                // a sleep ends and the loop starts over

  function Init(): State {
    State(0, 0, [], map[], [], [], [])
  }

  predicate Enabled(s: State, a: Action) {
    match a
    case Tick(_) => true
    case Trip(_) => true
    case Check(id, seen) => id !in s.callers && seen <= s.blocked
    case Enter(id, _) => id in s.callers && s.callers[id].Cleared?
    case Wake(id) => id in s.callers && s.callers[id].Asleep? && s.callers[id].until <= s.now
  }

  function Step(c: Config, s: State, a: Action): State
    requires Enabled(s, a)
  {
    match a
    case Tick(nanos) => s.(now := s.now + nanos)
    case Trip(until) => s.(blocked := Max(s.blocked, until), trips := s.trips + [until])
    case Check(id, seen) =>
      (match Breaker.BlockedWait(seen, s.now)
       case Some(wait) => s.(callers := s.callers[id := Asleep(s.now + wait)])
       case None => s.(callers := s.callers[id := Cleared(s.now, seen)]))
    case Enter(id, weight) =>
      var (w, wait) := Attempt(c, s.window, s.now, weight);
      if wait == 0 then
        s.(window := w, callers := s.callers - {id}, log := s.log + [Entry(s.now, weight)],
           grants := s.grants + [Grant(s.now, s.callers[id].checkedAt, s.callers[id].blockedSeen, s.blocked, s.trips)])
      else
        s.(window := w, callers := s.callers[id := Asleep(s.now + wait)])
    case Wake(id) => s.(callers := s.callers - {id})
  }

  ghost predicate Run(c: Config, s: State, acts: seq<Action>, t: State)
    decreases |acts|
  {
    if acts == [] then s == t else Enabled(s, acts[0]) && Run(c, Step(c, s, acts[0]), acts[1..], t)
  }

  /** The breaker word after these trips. */
  function Highest(trips: seq<nat>): nat {
    if trips == [] then 0 else Max(Highest(trips[..|trips| - 1]), Last(trips))
  }

  lemma HighestSnoc(trips: seq<nat>, until: nat)
    ensures Highest(trips + [until]) == Max(Highest(trips), until)
  {
    assert (trips + [until])[..|trips|] == trips;
  }

  lemma {:induction false} HighestAbove(trips: seq<nat>, at: nat)
    ensures Highest(trips) > at <==> exists u :: u in trips && u > at
  {
    if trips != [] {
      var init := trips[..|trips| - 1];
      HighestAbove(init, at);
      assert trips == init + [Last(trips)];
      assert Last(trips) in trips && forall u :: u in init ==> u in trips;
      if Highest(init) > at {
        var u :| u in init && u > at;
        assert u in trips;
      }
    }
  }

  /** Every admission was cleared by a check that saw the breaker open. */
  predicate Vouched(g: Grant) {
    g.blockedSeen <= g.checkedAt <= g.at && g.blockedSeen <= g.blockedNow == Highest(g.trips)
  }

  ghost predicate Invariant(c: Config, s: State) {
    && Suffix(c, s.window, s.log, s.now) && WithinBudget(c, s.log) && s.blocked == Highest(s.trips)
    && |s.grants| == |s.log| && (forall i :: 0 <= i < |s.log| ==> s.grants[i].at == s.log[i].at && Vouched(s.grants[i]))
    && forall id :: id in s.callers && s.callers[id].Cleared? ==>
         s.callers[id].blockedSeen <= s.callers[id].checkedAt <= s.now && s.callers[id].blockedSeen <= s.blocked
  }

  lemma InitInvariant(c: Config)
    ensures Invariant(c, Init())
  {
    forall a: int ensures InBudget(c, [], a) {
      assert During([], a, a + c.windowNanos) == [];
    }
  }

  lemma SuffixBounds(c: Config, window: seq<Entry>, log: seq<Entry>, now: nat)
    requires Suffix(c, window, log, now)
    ensures forall i :: 0 <= i < |log| ==> log[i].at <= now
  {
  }

  lemma LaterSuffix(c: Config, window: seq<Entry>, log: seq<Entry>, earlier: nat, now: nat)
    requires Suffix(c, window, log, earlier) && earlier <= now
    ensures Suffix(c, window, log, now)
  {
  }

  lemma EnterInvariant(c: Config, s: State, id: nat, weight: nat)
    requires Invariant(c, s) && Enabled(s, Enter(id, weight))
    ensures Invariant(c, Step(c, s, Enter(id, weight)))
  {
    hide Attempt, During, Total, WithinBudget, Suffix;
    SuffixBounds(c, s.window, s.log, s.now);
    AttemptRefinesLog(c, s.window, s.log, s.now, s.now, weight);
    if Attempt(c, s.window, s.now, weight).1 == 0 { AdmissionKeepsBudget(c, s.log, s.now, weight); }
  }

  lemma OtherInvariant(c: Config, s: State, a: Action)
    requires Invariant(c, s) && Enabled(s, a) && !a.Enter?
    ensures Invariant(c, Step(c, s, a))
  {
    hide Suffix, WithinBudget, Attempt, During, Total, Vouched, Highest, Fits, Expire;
    match a {
      case Tick(nanos) => LaterSuffix(c, s.window, s.log, s.now, s.now + nanos);
      case Trip(until) => HighestSnoc(s.trips, until);
      case _ =>
    }
  }

  lemma StepInvariant(c: Config, s: State, a: Action)
    requires Invariant(c, s) && Enabled(s, a)
    ensures Invariant(c, Step(c, s, a))
  {
    hide Invariant, Step, Enabled;
    match a {
      case Enter(id, weight) => EnterInvariant(c, s, id, weight);
      case _ => OtherInvariant(c, s, a);
    }
  }

  lemma {:induction false} RunInvariant(c: Config, s: State, acts: seq<Action>, t: State)
    requires Invariant(c, s) && Run(c, s, acts, t)
    ensures Invariant(c, t)
    decreases |acts|
  {
    hide Invariant, Step, Enabled;
    if acts != [] {
      StepInvariant(c, s, acts[0]);
      RunInvariant(c, Step(c, s, acts[0]), acts[1..], t);
    }
  }

  /** SLIDING WINDOW. For any number of callers, any interleaving of their steps with the clock and with trips: every
      closed interval of length `windowNanos` holds admitted weight at most `maxPerWindow`, or exactly one request. */
  lemma SlidingWindowBound(c: Config, acts: seq<Action>, t: State, a: int)
    requires Run(c, Init(), acts, t)
    ensures var d := During(t.log, a, a + c.windowNanos);
            Total(d) <= c.maxPerWindow || |d| == 1
  {
    InitInvariant(c);
    RunInvariant(c, Init(), acts, t);
    assert InBudget(c, t.log, a);
  }

  /** Every admission was cleared by an earlier check of the same caller that saw the breaker open. It happens under a
      shut breaker exactly when a trip past the moment of admission came before it - one that check did not see. */
  lemma LateTripOnly(c: Config, acts: seq<Action>, t: State, i: nat)
    requires Run(c, Init(), acts, t) && i < |t.grants|
    ensures var g := t.grants[i];
            && g.blockedSeen <= g.checkedAt <= g.at
            && (Breaker.BlockedWait(g.blockedNow, g.at).Some? <==> exists u :: u in g.trips && u > g.at)
            && (Breaker.BlockedWait(g.blockedNow, g.at).Some? ==> g.blockedNow > g.blockedSeen)
  {
    InitInvariant(c);
    RunInvariant(c, Init(), acts, t);
    assert Vouched(t.grants[i]);
    HighestAbove(t.grants[i].trips, t.grants[i].at);
  }

  /** Such an admission does happen: check, trip, enter. */
  lemma TripCanBeOvertaken()
    ensures var c := Config(10, 60);
            exists t :: Run(c, Init(), [Check(0, 0), Trip(1000), Enter(0, 1)], t) && |t.grants| == 1 &&
                        Breaker.BlockedWait(t.grants[0].blockedNow, t.grants[0].at) == Some(1000)
  {
    var c := Config(10, 60);
    var s1 := Step(c, Init(), Check(0, 0));
    var s2 := Step(c, s1, Trip(1000));
    assert Total([]) == 0;
    var t := Step(c, s2, Enter(0, 1));
    assert Run(c, t, [], t);
    assert Run(c, s2, [Enter(0, 1)], t);
    assert [Trip(1000), Enter(0, 1)][1..] == [Enter(0, 1)];
    assert Run(c, s1, [Trip(1000), Enter(0, 1)], t);
    var acts := [Check(0, 0), Trip(1000), Enter(0, 1)];
    assert acts[1..] == [Trip(1000), Enter(0, 1)];
    assert Run(c, Init(), acts, t);
  }

  /** A sleep ends when its time is up, and not before. */
  lemma SleepEnds(c: Config, s: State, id: nat)
    requires id in s.callers && s.callers[id].Asleep?
    ensures var left := SatSub(s.callers[id].until, s.now);
            && Enabled(s, Tick(left)) && Enabled(Step(c, s, Tick(left)), Wake(id))
            && (left > 0 ==> !Enabled(Step(c, s, Tick(left - 1)), Wake(id)))
  {
  }

  // ---------------------------------------------------------------- the retry loop

  /** Twice the entries still queued, less one once the front has reached its window's edge. */
  function Measure(c: Config, live: seq<Entry>, now: nat): nat {
    if live == [] then 0 else if live[0].at + c.windowNanos <= now then 2 * |live| - 1 else 2 * |live|
  }

  lemma {:induction false} ExpireShrinks(es: seq<Entry>, cutoff: nat)
    ensures |Expire(es, cutoff)| <= |es|
    ensures |Expire(es, cutoff)| == |es| ==> Expire(es, cutoff) == es && (es != [] ==> es[0].at >= cutoff)
    ensures Expire(es, cutoff) != [] ==> Expire(es, cutoff)[0].at >= cutoff
  {
    if es != [] && es[0].at < cutoff { ExpireShrinks(es[1..], cutoff); }
  }

  lemma ExpireNothing(es: seq<Entry>)
    ensures Expire(es, 0) == es
  {
  }

  lemma {:induction false} ExpireTwice(es: seq<Entry>, a: nat, b: nat)
    requires a <= b
    ensures Expire(Expire(es, a), b) == Expire(es, b)
  {
    if es != [] && es[0].at < a { ExpireTwice(es[1..], a, b); }
  }

  /** Sleeping as told always brings a refused caller closer, even though an entry exactly one window old is kept. */
  lemma SleepMakesProgress(c: Config, live: seq<Entry>, now: nat, later: nat)
    requires live != [] && live[0].at >= SatSub(now, c.windowNanos)
    requires later >= now + Pause(live[0].at, c, now)
    ensures Measure(c, Expire(live, SatSub(later, c.windowNanos)), later) < Measure(c, live, now)
  {
    var cutoff := SatSub(later, c.windowNanos);
    ExpireShrinks(live, cutoff);
    hide Expire;
    if |Expire(live, cutoff)| == |live| {
      assert live[0].at + c.windowNanos == later;
    }
  }

  /** A refused caller is told to sleep until the front entry's window ends, or a millisecond if that is sooner. */
  lemma PauseOnTime(es: seq<Entry>, cutoff: nat, c: Config, now: nat)
    requires cutoff == SatSub(now, c.windowNanos)
    ensures var live := Expire(es, cutoff);
            && (forall e :: e in live ==> e in es)
            && (live != [] ==>
                  var wait := Pause(live[0].at, c, now);
                  var end := live[0].at + c.windowNanos;
                  wait >= 1_000_000 && end <= now + wait <= end + 1_000_000)
  {
    ExpireMembers(es, cutoff);
    ExpireShrinks(es, cutoff);
  }

  lemma {:induction false} ExpireMembers(es: seq<Entry>, cutoff: nat)
    ensures forall e :: e in Expire(es, cutoff) ==> e in es
  {
    if es != [] && es[0].at < cutoff { ExpireMembers(es[1..], cutoff); }
  }

  class RateLimiter {
    const config: Config
    var window: seq<Entry>

    constructor (max: nat, windowNanos: nat)
      ensures window == [] && config == Config(Max(max, 1), windowNanos)
    {
      window := [];
      config := Config(Max(max, 1), windowNanos);
    }

    method SumWeights() returns (sum: nat)
      ensures sum == Total(window)
    {
      var live := window;
      sum := 0;
      for i := 0 to |live|
        invariant sum == Total(live[..i])
      {
        assert live[..i + 1] == live[..i] + [live[i]];
        TotalSnoc(live[..i], live[i]);
        sum := sum + live[i].weight;
      }
      assert live[..|live|] == live;
    }

    /** One pass through the critical section. */
    method TryAcquire(now: nat, weight: nat) returns (wait: nat)
      modifies this
      ensures (window, wait) == Attempt(config, old(window), now, weight)
    {
      var cutoff := SatSub(now, config.windowNanos);
      while window != [] && window[0].at < cutoff
        invariant Expire(window, cutoff) == Expire(old(window), cutoff)
        decreases |window|
      {
        window := window[1..];
      }
      var sum := SumWeights();
      if sum + weight <= config.maxPerWindow || window == [] {
        window := window + [Entry(now, weight)];
        wait := 0;
      } else {
        wait := Pause(window[0].at, config, now);
      }
    }

    /** PROGRESS. With no competing admission and no further trip, the retry loop ends: at most two sleeps per queued
        entry, and one more only if the breaker was shut at the start, however late each sleep returns. When sleeps
        return on time, it ends by any deadline that gives the breaker its time and every queued entry its window and
        one millisecond. */
    method Acquire(start: nat, weight: nat, blocked: nat, late: nat -> nat, ghost deadline: nat)
      returns (at: nat, sleeps: nat)
      modifies this
      ensures
        && (forall k: nat :: late(k) == 0) && start <= deadline && blocked <= deadline
        && (forall e :: e in old(window) ==> e.at + config.windowNanos + 1_000_000 <= deadline)
        ==> at <= deadline
      ensures at >= start && at >= blocked
      ensures window == Expire(old(window), SatSub(at, config.windowNanos)) + [Entry(at, weight)]
      ensures sleeps <= 2 * |old(window)| + if blocked <= start then 0 else 1
    {
      hide Expire, Pause;
      at, sleeps := start, 0;
      ghost var cut: nat := 0;
      ExpireNothing(window);
      ExpireShrinks(window, SatSub(at, config.windowNanos));
      ghost var queued := window;
      ghost var timely :=
        && (forall k: nat :: late(k) == 0) && start <= deadline && blocked <= deadline
        && forall e :: e in queued ==> e.at + config.windowNanos + 1_000_000 <= deadline;
      while true
        invariant timely ==> at <= deadline
        invariant at >= start && (at >= blocked || (sleeps == 0 && window == old(window)))
        invariant cut <= SatSub(at, config.windowNanos) && window == Expire(old(window), cut)
        invariant at >= blocked ==>
                    sleeps + Measure(config, Expire(window, SatSub(at, config.windowNanos)), at)
                    <= 2 * |old(window)| + if blocked <= start then 0 else 1
        decreases if at < blocked then 1 else 0, Measure(config, Expire(window, SatSub(at, config.windowNanos)), at)
      {
        var block := Breaker.BlockedWait(blocked, at);
        if block.Some? {
          at := at + block.value + late(sleeps);
          sleeps := sleeps + 1;
          ExpireShrinks(window, SatSub(at, config.windowNanos));
          continue;
        }
        var now := at;
        ExpireTwice(old(window), cut, SatSub(now, config.windowNanos));
        ExpireShrinks(window, SatSub(now, config.windowNanos));
        cut := SatSub(now, config.windowNanos);
        var wait := TryAcquire(now, weight);
        if wait == 0 {
          break;
        }
        PauseOnTime(queued, cut, config, now);
        at := at + wait + late(sleeps);
        sleeps := sleeps + 1;
        SleepMakesProgress(config, window, now, at);
      }
    }
  }
}
