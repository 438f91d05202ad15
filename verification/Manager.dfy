/** The per-symbol operations as the collector runs them, in place, against the functions the state machine
    is built from. */
module Manager {
  import opened Basics
  import opened Ladder
  import opened Exchange
  import opened Normalize
  import opened Attach
  import opened Ring
  import opened OrderBook
  import opened Collector

  class SymbolManager {
    const depth: nat
    const ring: RingBuffer
    var phase: Phase
    var book: Orderbook?

    ghost function BookValue(): Option<Book>
      reads this, book
    {
      if book == null then None else Some(book.Value())
    }

    constructor (depth: nat, ring: RingBuffer)
      ensures this.depth == depth && this.ring == ring && phase == Initializing && book == null
    {
      this.depth := depth;
      this.ring := ring;
      phase := Initializing;
      book := null;
    }

    /** Install a REST response as the symbol's book. */
    method ApplySnapshot(id: nat, bids: seq<Level>, asks: seq<Level>, now: nat)
      modifies this
      ensures BookValue() == Some(Book(id, Sides(InsertLevels(bids), InsertLevels(asks)))) && phase == old(phase)
      ensures fresh(book) && book.lastProcessed == now
    {
      book := new Orderbook(id, bids, asks, now);
    }

    /** One diff, if the symbol has a book. */
    method ApplyOne(d: Diff, now: nat)
      modifies book
      ensures book != null ==> book.lastProcessed == now
      ensures BookValue() == FoldOption(old(BookValue()), [d], depth)
    {
      if book != null {
        ghost var before := book.Value();
        book.Receive(d, depth, now);
        FoldOne(before, d, depth);
      }
    }

    /** Drain the ring, normalise, find the bridge and follow the chain from it, applying as it goes. */
    method TryAttachToStream(now: nat) returns (outcome: Outcome)
      modifies this, book, ring
      ensures ring.buffer == [] && book == old(book)
      ensures (BookValue(), outcome) == TryAttach(old(BookValue()), old(ring.buffer), depth)
      ensures phase == if outcome == TooOld then Initializing else old(phase)
    {
      hide ApplyDiff, Fold, Normalized, Rising, Listing, Chosen, Keep, ChainEnd, BridgeIndex, Bridges;
      var buffered := ring.Drain();
      ghost var start := BookValue();
      EmptyIffNormalizedEmpty(buffered);
      if buffered == [] {
        FoldNothing(start, depth);
        return Empty;
      }
      var n := if book == null then 0 else book.lastUpdateId;
      var ms := NormalizeForAttach(buffered);
      var firstPu := ms[0].prev;
      if n < firstPu {
        phase := Initializing;
        FoldNothing(start, depth);
        return TooOld;
      }
      var bridge := FindBridge(n, ms);
      if bridge.None? {
        if firstPu > 0 && SatSub(firstPu, n) > 10000 {
          assert false;  // never taken: a snapshot this stale has already been sent back above
        }
        FoldNothing(start, depth);
        return NoBridge;
      }
      outcome := Follow(n, ms, bridge.value.0, now);
    }

    /** Apply from the bridge onwards, checking each link after the first. */
    method Follow(n: nat, ms: seq<Diff>, b: nat, now: nat) returns (outcome: Outcome)
      requires Rising(ms) && b < |ms| && Bridges(n, ms[b])
      modifies book
      ensures BookValue() == FoldOption(old(BookValue()), ms[b..ChainEnd(ms, b)], depth)
      ensures outcome == if ChainEnd(ms, b) == |ms| then Attached(|ms| - b) else Gap(ChainEnd(ms, b) - b)
    {
      hide ApplyDiff, Fold, Rising;
      ghost var start := BookValue();
      ghost var end := ChainEnd(ms, b);
      FoldNothing(start, depth);
      assert ms[b..b] == [];
      var lastU, applied, i := n, 0, b;
      while i < |ms|
        invariant b <= i <= end && applied == i - b && lastU == (if i == b then n else ms[i - 1].final)
        invariant BookValue() == FoldOption(start, ms[b..i], depth)
      {
        assert b < i ==> (Follows(ms, i) <==> i < end);
        if i > b && ms[i].prev != lastU {
          return Gap(applied);
        }
        AfterBridge(n, ms, b, i);
        if ms[i].final <= n {
          assert false;  // never taken: the sorted diffs after the bridge all end past the snapshot
        }
        ApplyOne(ms[i], now);
        FoldOptionSnoc(start, ms, b, i, depth);
        lastU := ms[i].final;
        applied := applied + 1;
        i := i + 1;
      }
      outcome := Attached(applied);
    }

    /** A successful attempt makes the symbol Live; the manager otherwise leaves the phase as the attempt set it. */
    method SyncStep(now: nat) returns (outcome: Outcome)
      modifies this, book, ring
      ensures ring.buffer == [] && book == old(book)
      ensures (BookValue(), outcome) == TryAttach(old(BookValue()), old(ring.buffer), depth)
      ensures phase == if outcome.Attached? then Live else if outcome == TooOld then Initializing else old(phase)
    {
      outcome := TryAttachToStream(now);
      if outcome.Attached? {
        phase := Live;
      }
    }

    /** The live loop's turn at a listed symbol, whatever its phase is by then: no chain check, every drained diff
        applied in order. */
    method LiveUpdate(now: nat)
      modifies book, ring
      ensures ring.buffer == [] && BookValue() == FoldOption(old(BookValue()), old(ring.buffer), depth)
      ensures book != null && old(ring.buffer) != [] ==> book.lastProcessed == now
    {
      hide ApplyDiff;
      ghost var start := BookValue();
      var updates := ring.Drain();
      FoldNothing(start, depth);
      assert updates[0..0] == [];
      for i := 0 to |updates|
        invariant ring.buffer == [] && BookValue() == FoldOption(start, updates[0..i], depth)
        invariant book != null && i > 0 ==> book.lastProcessed == now
      {
        ApplyOne(updates[i], now);
        FoldOptionSnoc(start, updates, 0, i, depth);
      }
      assert updates[0..|updates|] == updates;
    }

    /** Drop everything held for the symbol. */
    method RemoveSymbolState()
      modifies this
      ensures phase == Initializing && BookValue() == None
    {
      book := null;
      phase := Initializing;
    }
  }

  /** The symbols a pass of the live loop will turn to, as they stand when the pass begins. */
  method ListLive(symbols: seq<SymbolManager>) returns (listed: seq<SymbolManager>)
    ensures forall m :: m in listed <==> m in symbols && m.phase == Live
    ensures |listed| <= |symbols|
  {
    listed := [];
    for i := 0 to |symbols|
      invariant forall m :: m in listed <==> m in symbols[..i] && m.phase == Live
      invariant |listed| <= i
    {
      assert symbols[..i + 1] == symbols[..i] + [symbols[i]];
      if symbols[i].phase == Live {
        listed := listed + [symbols[i]];
      }
    }
    assert symbols[..|symbols|] == symbols;
  }

  /** The symbols a stale sweep will remove: those holding a book idle for more than two hours. */
  method ListStale(symbols: seq<SymbolManager>, now: nat) returns (stale: seq<SymbolManager>)
    ensures forall m :: m in stale <==>
              m in symbols && m.book != null && now > m.book.lastProcessed + 2 * 60 * 60
    ensures |stale| <= |symbols|
  {
    stale := [];
    for i := 0 to |symbols|
      invariant forall m :: m in stale <==>
                  m in symbols[..i] && m.book != null && now > m.book.lastProcessed + MAX_IDLE_SECS
      invariant |stale| <= i
    {
      assert symbols[..i + 1] == symbols[..i] + [symbols[i]];
      if symbols[i].book != null {
        if SatSub(now, symbols[i].book.lastProcessed) > MAX_IDLE_SECS {
          stale := stale + [symbols[i]];
        }
      }
    }
    assert symbols[..|symbols|] == symbols;
  }

  lemma EmptyIffNormalizedEmpty(batch: seq<Diff>)
    ensures batch == [] <==> Normalized(batch) == []
    ensures Rising(Normalized(batch))
  {
    NormalizedContents(batch);
    assert Normalized(batch) != [] ==> Normalized(batch)[0] in batch;
  }

  lemma AfterBridge(n: nat, ms: seq<Diff>, b: nat, i: nat)
    requires Rising(ms) && b <= i < |ms| && Bridges(n, ms[b])
    ensures ms[i].final > n
  {
  }

  lemma FoldOptionSnoc(b: Option<Book>, ms: seq<Diff>, lo: nat, i: nat, depth: nat)
    requires lo <= i < |ms|
    ensures FoldOption(FoldOption(b, ms[lo..i], depth), [ms[i]], depth) == FoldOption(b, ms[lo..i + 1], depth)
  {
    hide ApplyDiff;
    assert ms[lo..i + 1] == ms[lo..i] + [ms[i]];
    match b {
      case None =>
      case Some(k) => FoldSplit(k, ms[lo..i], [ms[i]], depth);
    }
  }
}
