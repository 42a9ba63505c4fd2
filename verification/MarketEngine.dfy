/** The market-state engine: per-instrument books driven by an event stream, a snapshot
    state machine, and top-of-book publication on best-price changes. */
module MarketEngine {
  import opened Arithmetic
  import opened MachineInts
  import opened ArrayBook

  datatype Body =
    | BookDelta(price: int, qty: int, side: Side)
    | Trade(tradePrice: int, tradeQty: int, aggressor: Side)
    | Quote(bidPrice: int, bidQty: int, askPrice: int, askQty: int)
    | Other

  /** The header flags are the two bits the engine reads. */
  datatype Event = Event(instrument: nat, ts: nat, seqNum: nat, isSnapshot: bool, lastInBatch: bool, body: Body)

  datatype TradeInfo = TradeInfo(price: int, qty: int, side: Side, ts: nat)

  datatype TopOfBook = TopOfBook(bid: Level, ask: Level, microPrice: int, spread: int, instrument: nat, ts: nat)

  datatype InstrumentState = InstrumentState(
    book: Book, prevBid: Option<int>, prevAsk: Option<int>, lastTrade: Option<TradeInfo>,
    lastEventTs: nat, seqNum: nat, snapshotReceived: bool, inSnapshot: bool)

  datatype Engine = Engine(instruments: seq<InstrumentState>, tobChanged: bool, lastTob: Option<TopOfBook>)

  function FreshState(n: nat): InstrumentState {
    InstrumentState(EmptyBook(n), None, None, None, 0, 0, false, false)
  }

  // ---- One event on one instrument ----

  function PriceOf(l: Option<Level>): Option<int> { if l.Some? then Some(l.value.price) else None }

  /** The best bid and ask prices of a book. */
  function BestPair(b: Book): (Option<int>, Option<int>) {
    (PriceOf(Best(b.bids, Bid)), PriceOf(Best(b.asks, Ask)))
  }

  /** Each price weighted by the quantity of the other side. */
  function Weighted(bid: Level, ask: Level): int { bid.price * ask.qty + ask.price * bid.qty }

  /** The plain operators wrap; a total that is not positive gives the midpoint instead. */
  function MicroPrice(bid: Level, ask: Level): int {
    var total := WrapI64(bid.qty + ask.qty);
    if total > 0 then TruncDiv(WrapI64(WrapI64(bid.price * ask.qty) + WrapI64(ask.price * bid.qty)), total)
    else TruncDiv(bid.price + ask.price, 2)
  }

  /** `check_bbo_price_change`: remember the pair, and publish it when it is new and two-sided. */
  function CheckBbo(st: InstrumentState, instrument: nat): (InstrumentState, Option<TopOfBook>) {
    var bid, ask := Best(st.book.bids, Bid), Best(st.book.asks, Ask);
    if PriceOf(bid) == st.prevBid && PriceOf(ask) == st.prevAsk then (st, None)
    else
      var st' := st.(prevBid := PriceOf(bid), prevAsk := PriceOf(ask));
      if bid.Some? && ask.Some? then
        (st', Some(TopOfBook(bid.value, ask.value, MicroPrice(bid.value, ask.value),
                             ask.value.price - bid.value.price, instrument, st.lastEventTs)))
      else (st', None)
  }

  function OnDelta(st: InstrumentState, e: Event): (InstrumentState, Option<TopOfBook>)
    requires e.body.BookDelta?
  {
    var s1 := st.(lastEventTs := e.ts, seqNum := e.seqNum);
    var s2 := if e.isSnapshot
              then s1.(book := EmptyBook(|st.book.bids|), inSnapshot := true, snapshotReceived := false)
              else s1;
    var s3 := s2.(book := ApplyDelta(s2.book, e.body.price, e.body.qty, e.body.side));
    if !e.lastInBatch then (s3, None)
    else
      var s4 := if s3.inSnapshot then s3.(inSnapshot := false, snapshotReceived := true) else s3;
      if s4.snapshotReceived then CheckBbo(s4, e.instrument) else (s4, None)
  }

  function OnQuote(st: InstrumentState, e: Event): (InstrumentState, Option<TopOfBook>)
    requires e.body.Quote?
  {
    var q := e.body;
    var b0 := EmptyBook(|st.book.bids|);
    var b1 := ApplyDelta(b0, q.bidPrice, q.bidQty, Bid);
    var b2 := ApplyDelta(b1, q.askPrice, q.askQty, Ask);
    CheckBbo(st.(lastEventTs := e.ts, snapshotReceived := true, book := b2), e.instrument)
  }

  /** New state of the instrument an event addresses, and what the event publishes. */
  function OnEvent(st: InstrumentState, e: Event): (InstrumentState, Option<TopOfBook>) {
    match e.body
    case BookDelta(_, _, _) => OnDelta(st, e)
    case Trade(p, q, s) => (st.(lastEventTs := e.ts, lastTrade := Some(TradeInfo(p, q, s, e.ts))), None)
    case Quote(_, _, _, _) => OnQuote(st, e)
    case Other => (st, None)
  }

  // ---- One event on the engine ----

  predicate Addressed(en: Engine, e: Event) { 1 <= e.instrument <= |en.instruments| }

  /** What an event publishes, if its instrument is known. */
  function Publishes(en: Engine, e: Event): Option<TopOfBook> {
    if Addressed(en, e) then OnEvent(en.instruments[e.instrument - 1], e).1 else None
  }

  function Processed(en: Engine, e: Event): Engine {
    if !Addressed(en, e) then en
    else
      var res := OnEvent(en.instruments[e.instrument - 1], e);
      var instruments := en.instruments[e.instrument - 1 := res.0];
      if res.1.Some? then Engine(instruments, true, res.1) else en.(instruments := instruments)
  }

  /** `take_tob`: the flagged publication, and the engine with the flag down. */
  function Take(en: Engine): (Engine, Option<TopOfBook>) {
    (en.(tobChanged := false), if en.tobChanged then en.lastTob else None)
  }

  /** The engine as an object; `n` ticks per book, ids 1 to `active`. */
  class MarketStateEngine {
    var instruments: seq<InstrumentState>
    var tobChanged: bool
    var lastTob: Option<TopOfBook>

    function Value(): Engine
      reads this
    {
      Engine(instruments, tobChanged, lastTob)
    }

    constructor (active: nat, n: nat)
      ensures Value() == Engine(seq(active, _ => FreshState(n)), false, None)
    {
      instruments := seq(active, _ => FreshState(n));
      tobChanged, lastTob := false, None;
    }

    method Process(e: Event)
      modifies this
      ensures Value() == Processed(old(Value()), e)
    {
      var raw := e.instrument;
      if raw == 0 || raw > |instruments| {
        return;
      }
      var slot := raw - 1;
      var state := instruments[slot];
      var published: Option<TopOfBook> := None;
      match e.body {
        case BookDelta(price, qty, side) =>
          state := state.(lastEventTs := e.ts, seqNum := e.seqNum);
          if e.isSnapshot {
            state := state.(book := EmptyBook(|state.book.bids|), inSnapshot := true, snapshotReceived := false);
          }
          state := state.(book := ApplyDelta(state.book, price, qty, side));
          if e.lastInBatch {
            if state.inSnapshot {
              state := state.(inSnapshot := false, snapshotReceived := true);
            }
            if state.snapshotReceived {
              var res := CheckBbo(state, raw);
              state, published := res.0, res.1;
            }
          }
        case Trade(price, qty, aggressor) =>
          state := state.(lastEventTs := e.ts, lastTrade := Some(TradeInfo(price, qty, aggressor, e.ts)));
        case Quote(bp, bq, ap, aq) =>
          state := state.(lastEventTs := e.ts, snapshotReceived := true, book := EmptyBook(|state.book.bids|));
          state := state.(book := ApplyDelta(state.book, bp, bq, Bid));
          state := state.(book := ApplyDelta(state.book, ap, aq, Ask));
          var res := CheckBbo(state, raw);
          state, published := res.0, res.1;
        case Other =>
      }
      instruments := instruments[slot := state];
      if published.Some? {
        lastTob, tobChanged := published, true;
      }
    }

    /** Hands out the latest publication once. */
    method TakeTob() returns (r: Option<TopOfBook>)
      modifies this`tobChanged
      ensures (Value(), r) == Take(old(Value()))
    {
      if tobChanged {
        tobChanged := false;
        return lastTob;
      }
      r := None;
    }
  }

  // ---- Streams ----

  function Run(active: nat, n: nat, events: seq<Event>): Engine {
    if events == [] then Engine(seq(active, _ => FreshState(n)), false, None)
    else Processed(Run(active, n, events[..|events| - 1]), events[|events| - 1])
  }

  lemma {:induction false} RunShape(active: nat, n: nat, events: seq<Event>)
    ensures var en := Run(active, n, events);
            && |en.instruments| == active
            && forall i :: 0 <= i < active ==> |en.instruments[i].book.bids| == n == |en.instruments[i].book.asks|
  {
    if events != [] {
      var init, e := events[..|events| - 1], events[|events| - 1];
      RunShape(active, n, init);
      if Addressed(Run(active, n, init), e) { EventBook(Run(active, n, init).instruments[e.instrument - 1], e); }
    }
  }

  /** The state of an instrument after a stream. */
  function StateOf(active: nat, n: nat, events: seq<Event>, inst: nat): (st: InstrumentState)
    requires 1 <= inst <= active
    ensures |st.book.bids| == n == |st.book.asks|
  {
    RunShape(active, n, events);
    Run(active, n, events).instruments[inst - 1]
  }

  /** An event changes only its own instrument, and that one as the event alone decides. */
  lemma StepOfState(active: nat, n: nat, events: seq<Event>, inst: nat)
    requires 1 <= inst <= active && events != []
    ensures var init, last := events[..|events| - 1], events[|events| - 1];
            StateOf(active, n, events, inst) ==
            if last.instrument == inst then OnEvent(StateOf(active, n, init, inst), last).0
            else StateOf(active, n, init, inst)
  {
    RunShape(active, n, events[..|events| - 1]);
  }

  // ---- Books are last-write-wins since the last reset ----

  /** What one event says about a level of its instrument: the quantity it writes there, or
      zero if it resets the book, or nothing. */
  function Says(e: Event, side: Side, p: nat): Option<int> {
    match e.body
    case BookDelta(price, qty, s) =>
      if price == p && s == side then Some(qty) else if e.isSnapshot then Some(0) else None
    case Quote(bp, bq, ap, aq) =>
      if side == Bid then Some(if bp == p then bq else 0) else Some(if ap == p then aq else 0)
    case _ => None
  }

  /** What the stream says about a level: the latest event that says anything decides. */
  function LevelAfter(events: seq<Event>, inst: nat, side: Side, p: nat): int {
    if events == [] then 0
    else
      var e := events[|events| - 1];
      if e.instrument == inst && Says(e, side, p).Some? then Says(e, side, p).value
      else LevelAfter(events[..|events| - 1], inst, side, p)
  }

  /** The book an event leaves behind. */
  lemma EventBook(st: InstrumentState, e: Event)
    ensures OnEvent(st, e).0.book ==
            match e.body
            case BookDelta(price, qty, side) =>
              ApplyDelta(if e.isSnapshot then EmptyBook(|st.book.bids|) else st.book, price, qty, side)
            case Quote(bp, bq, ap, aq) =>
              ApplyDelta(ApplyDelta(EmptyBook(|st.book.bids|), bp, bq, Bid), ap, aq, Ask)
            case _ => st.book
  {}

  lemma EventWrites(st: InstrumentState, e: Event, side: Side, p: nat)
    requires p < |st.book.bids| == |st.book.asks|
    ensures var b := OnEvent(st, e).0.book;
            && |b.bids| == |st.book.bids| == |b.asks|
            && b.Of(side)[p] == Says(e, side, p).UnwrapOr(st.book.Of(side)[p])
  {
    EventBook(st, e);
    match e.body
    case BookDelta(_, _, _) =>
    case Quote(_, _, _, _) =>
    case _ =>
  }

  /** After every stream each level of each book holds the latest write since the last reset. */
  lemma {:induction false} BookIsLastWrite(active: nat, n: nat, events: seq<Event>, inst: nat, side: Side, p: nat)
    requires 1 <= inst <= active && p < n
    ensures StateOf(active, n, events, inst).book.Of(side)[p] == LevelAfter(events, inst, side, p)
  {
    if events != [] {
      var init := events[..|events| - 1];
      BookIsLastWrite(active, n, init, inst, side, p);
      StepOfState(active, n, events, inst);
      EventWrites(StateOf(active, n, init, inst), events[|events| - 1], side, p);
    }
  }

  // ---- The snapshot state machine ----

  predicate NoQuotes(events: seq<Event>) { forall i :: 0 <= i < |events| ==> !events[i].body.Quote? }

  predicate DeltaOf(e: Event, inst: nat) { e.instrument == inst && e.body.BookDelta? }

  /** A snapshot has started and no batch has ended since. */
  predicate SnapshotOpen(events: seq<Event>, inst: nat) {
    events != [] &&
    var init, e := events[..|events| - 1], events[|events| - 1];
    if DeltaOf(e, inst) && e.lastInBatch then false
    else if DeltaOf(e, inst) && e.isSnapshot then true
    else SnapshotOpen(init, inst)
  }

  /** A batch has ended at or after the latest snapshot start. */
  predicate SnapshotComplete(events: seq<Event>, inst: nat, batchEnded: bool) {
    events != [] &&
    var init, e := events[..|events| - 1], events[|events| - 1];
    if !DeltaOf(e, inst) then SnapshotComplete(init, inst, batchEnded)
    else if e.isSnapshot then batchEnded || e.lastInBatch
    else SnapshotComplete(init, inst, batchEnded || e.lastInBatch)
  }

  /** With or without an ended batch, completeness differs only by an open snapshot. */
  lemma {:induction false} CompleteSplits(events: seq<Event>, inst: nat)
    ensures SnapshotComplete(events, inst, true) <==> SnapshotOpen(events, inst) || SnapshotComplete(events, inst, false)
  {
    if events != [] {
      CompleteSplits(events[..|events| - 1], inst);
    }
  }

  /** A quote has come since the latest snapshot start. */
  predicate QuoteSince(events: seq<Event>, inst: nat) {
    events != [] &&
    var init, e := events[..|events| - 1], events[|events| - 1];
    if e.instrument == inst && e.body.Quote? then true
    else if DeltaOf(e, inst) && e.isSnapshot then false
    else QuoteSince(init, inst)
  }

  /** How one event of the instrument moves the two flags. */
  lemma EventFlags(st: InstrumentState, e: Event)
    ensures var after := OnEvent(st, e).0;
            var delta := e.body.BookDelta?;
            var open := (delta && e.isSnapshot) || st.inSnapshot;
            && after.inSnapshot == (open && !(delta && e.lastInBatch))
            && after.snapshotReceived == (e.body.Quote? || (delta && e.lastInBatch && open) || (st.snapshotReceived && !(delta && e.isSnapshot)))
  {}

  /** On every stream the two flags say exactly: a snapshot is open; a snapshot is complete or a
      quote has come since the latest one started. */
  lemma {:induction false} FlagsMeanSnapshot(active: nat, n: nat, events: seq<Event>, inst: nat)
    requires 1 <= inst <= active
    ensures var st := StateOf(active, n, events, inst);
            && st.inSnapshot == SnapshotOpen(events, inst)
            && st.snapshotReceived == (SnapshotComplete(events, inst, false) || QuoteSince(events, inst))
  {
    if events != [] {
      var init := events[..|events| - 1];
      FlagsMeanSnapshot(active, n, init, inst);
      StepOfState(active, n, events, inst);
      EventFlags(StateOf(active, n, init, inst), events[|events| - 1]);
      CompleteSplits(init, inst);
    }
  }

  /** On every stream: whatever is published comes from a quote or from the end of a batch; it is
      published inside an open snapshot exactly if it is a quote and the snapshot was open before;
      and without a completed snapshot only if a quote has come since. */
  lemma PublicationsAndSnapshots(active: nat, n: nat, events: seq<Event>)
    requires events != []
    ensures var init, e := events[..|events| - 1], events[|events| - 1];
            Publishes(Run(active, n, init), e).Some? ==>
              && 1 <= e.instrument <= active && (e.body.Quote? || (e.body.BookDelta? && e.lastInBatch))
              && (SnapshotOpen(events, e.instrument) <==> e.body.Quote? && SnapshotOpen(init, e.instrument))
              && (SnapshotComplete(events, e.instrument, false) || QuoteSince(events, e.instrument))
  {
    var init, e := events[..|events| - 1], events[|events| - 1];
    PublishesIsOnEvent(active, n, init, e);
    if Publishes(Run(active, n, init), e).Some? {
      StepOfState(active, n, events, e.instrument);
      FlagsMeanSnapshot(active, n, events, e.instrument);
      EventPublishes(StateOf(active, n, init, e.instrument), e);
    }
  }

  lemma {:induction false} NoQuoteSince(events: seq<Event>, inst: nat)
    requires NoQuotes(events)
    ensures !QuoteSince(events, inst)
  {
    if events != [] {
      assert !events[|events| - 1].body.Quote?;
      NoQuoteSince(events[..|events| - 1], inst);
    }
  }

  /** So without quotes nothing is published before a snapshot is complete, nor inside one. */
  lemma NothingBeforeSnapshot(active: nat, n: nat, events: seq<Event>)
    requires events != [] && NoQuotes(events)
    ensures var init, e := events[..|events| - 1], events[|events| - 1];
            Publishes(Run(active, n, init), e).Some? ==>
              SnapshotComplete(events, e.instrument, false) && !SnapshotOpen(events, e.instrument)
  {
    PublicationsAndSnapshots(active, n, events);
    NoQuoteSince(events, events[|events| - 1].instrument);
    assert !events[|events| - 1].body.Quote?;
  }

  lemma RunOfOne(active: nat, n: nat, e: Event)
    ensures Run(active, n, [e]) == Processed(Engine(seq(active, _ => FreshState(n)), false, None), e)
  {
    assert [e][..0] == [];
    assert Run(active, n, []) == Engine(seq(active, _ => FreshState(n)), false, None);
  }

  const SampleQuote: Event := Event(1, 0, 0, false, false, Quote(2, 1, 4, 1))

  /** The state of instrument 1 after the sample quote. */
  lemma AfterSampleQuote()
    ensures var st := StateOf(1, 8, [SampleQuote], 1);
            && st.book == Book([0, 0, 1, 0, 0, 0, 0, 0], [0, 0, 0, 0, 1, 0, 0, 0])
            && st.prevBid == Some(2) && st.prevAsk == Some(4) && st.snapshotReceived && !st.inSnapshot
            && LastPublished(1, 8, [SampleQuote], 1) == Some((2, 4))
  {
    RunOfOne(1, 8, SampleQuote);
    QuotedBest(8, 2, 1, 4, 1);
    assert [SampleQuote][..0] == [];
    TwoSidedIsPublished(1, 8, [SampleQuote], 1);
  }

  /** With quotes both halves fail. A quote inside an open snapshot publishes. */
  lemma QuotePublishesInsideSnapshot()
    ensures var start := Event(1, 1, 1, true, false, BookDelta(3, 5, Bid));
            && Publishes(Run(1, 8, [start]), SampleQuote).Some?
            && SnapshotOpen([start, SampleQuote], 1)
  {
    var start := Event(1, 1, 1, true, false, BookDelta(3, 5, Bid));
    RunOfOne(1, 8, start);
    QuotedBest(8, 2, 1, 4, 1);
    PublishesIsOnEvent(1, 8, [start], SampleQuote);
    assert [start, SampleQuote][..1] == [start];
    assert SnapshotOpen([start], 1);
  }

  /** And a delta after a quote publishes although no snapshot was ever opened or completed. */
  lemma DeltaPublishesWithoutSnapshot()
    ensures var d := Event(1, 1, 1, false, true, BookDelta(3, 5, Bid));
            && Publishes(Run(1, 8, [SampleQuote]), d).Some?
            && !SnapshotComplete([SampleQuote, d], 1, false) && !SnapshotOpen([SampleQuote, d], 1)
  {
    var d := Event(1, 1, 1, false, true, BookDelta(3, 5, Bid));
    AfterSampleQuote();
    var b := ApplyDelta(StateOf(1, 8, [SampleQuote], 1).book, 3, 5, Bid);
    BestUnique(b.bids, Bid, 3);
    BestUnique(b.asks, Ask, 4);
    PublishesIsOnEvent(1, 8, [SampleQuote], d);
    EventPublishes(StateOf(1, 8, [SampleQuote], 1), d);
    assert [SampleQuote, d][..1] == [SampleQuote] && [SampleQuote][..0] == [];
    assert !SnapshotComplete([SampleQuote], 1, true) && !SnapshotComplete([SampleQuote], 1, false);
  }

  /** A quote leaves a book of one level per side. */
  lemma QuotedBest(n: nat, bp: int, bq: int, ap: int, aq: int)
    requires 0 <= bp < n && 0 <= ap < n && bq > 0 && aq > 0
    ensures var b := ApplyDelta(ApplyDelta(EmptyBook(n), bp, bq, Bid), ap, aq, Ask);
            Best(b.bids, Bid) == Some(Level(bp, bq)) && Best(b.asks, Ask) == Some(Level(ap, aq))
  {
    var b := ApplyDelta(ApplyDelta(EmptyBook(n), bp, bq, Bid), ap, aq, Ask);
    BestUnique(b.bids, Bid, bp);
    BestUnique(b.asks, Ask, ap);
  }

  // ---- Publication ----

  /** The event makes the engine look at the best prices, given the state it leads to. */
  predicate Checks(e: Event, after: InstrumentState) {
    e.body.Quote? || (e.body.BookDelta? && e.lastInBatch && after.snapshotReceived)
  }

  function PrevPair(st: InstrumentState): (Option<int>, Option<int>) { (st.prevBid, st.prevAsk) }

  predicate TwoSided(b: Book) { Best(b.bids, Bid).Some? && Best(b.asks, Ask).Some? }

  /** A check remembers the pair it saw; nothing else touches the remembered pair. */
  lemma EventRemembers(st: InstrumentState, e: Event)
    ensures var after := OnEvent(st, e).0;
            PrevPair(after) == if Checks(e, after) then BestPair(after.book) else PrevPair(st)
  {}

  /** A check publishes a two-sided pair that differs from the remembered one, as it stands. */
  lemma EventPublishes(st: InstrumentState, e: Event)
    ensures var after, tob := OnEvent(st, e).0, OnEvent(st, e).1;
            && (tob.Some? <==> Checks(e, after) && TwoSided(after.book) && BestPair(after.book) != PrevPair(st))
            && (tob.Some? ==>
                  && Some(tob.value.bid) == Best(after.book.bids, Bid) && Some(tob.value.ask) == Best(after.book.asks, Ask)
                  && tob.value.spread == tob.value.ask.price - tob.value.bid.price
                  && tob.value.microPrice == MicroPrice(tob.value.bid, tob.value.ask)
                  && tob.value.instrument == e.instrument && tob.value.ts == e.ts)
  {}

  /** The best-price pair of `inst` at its latest check, read backwards. */
  function CheckedPair(active: nat, n: nat, events: seq<Event>, inst: nat): (Option<int>, Option<int>)
    requires 1 <= inst <= active
  {
    if events == [] then (None, None)
    else
      var e, st := events[|events| - 1], StateOf(active, n, events, inst);
      if e.instrument == inst && Checks(e, st) then BestPair(st.book)
      else CheckedPair(active, n, events[..|events| - 1], inst)
  }

  lemma {:induction false} PrevIsCheckedPair(active: nat, n: nat, events: seq<Event>, inst: nat)
    requires 1 <= inst <= active
    ensures PrevPair(StateOf(active, n, events, inst)) == CheckedPair(active, n, events, inst)
  {
    if events != [] {
      var init := events[..|events| - 1];
      PrevIsCheckedPair(active, n, init, inst);
      StepOfState(active, n, events, inst);
      EventRemembers(StateOf(active, n, init, inst), events[|events| - 1]);
    }
  }

  /** Along every stream, an event publishes exactly when it checks a two-sided book whose best
      pair differs from the pair seen at the instrument's previous check. */
  lemma PublishesIffPairChanged(active: nat, n: nat, events: seq<Event>, inst: nat)
    requires 1 <= inst <= active && events != [] && events[|events| - 1].instrument == inst
    ensures var init, e := events[..|events| - 1], events[|events| - 1];
            var st := StateOf(active, n, events, inst);
            Publishes(Run(active, n, init), e).Some? <==>
              Checks(e, st) && TwoSided(st.book) && BestPair(st.book) != CheckedPair(active, n, init, inst)
  {
    var init := events[..|events| - 1];
    PrevIsCheckedPair(active, n, init, inst);
    StepOfState(active, n, events, inst);
    PublishesIsOnEvent(active, n, init, events[|events| - 1]);
    EventPublishes(StateOf(active, n, init, inst), events[|events| - 1]);
  }

  lemma PublishesIsOnEvent(active: nat, n: nat, events: seq<Event>, e: Event)
    ensures Publishes(Run(active, n, events), e) ==
            if 1 <= e.instrument <= active then OnEvent(StateOf(active, n, events, e.instrument), e).1 else None
  {
    RunShape(active, n, events);
  }

  /** The latest publication of a stream, over all instruments. */
  function LatestTob(active: nat, n: nat, events: seq<Event>): Option<TopOfBook> {
    if events == [] then None
    else
      var init, e := events[..|events| - 1], events[|events| - 1];
      var tob := Publishes(Run(active, n, init), e);
      if tob.Some? then tob else LatestTob(active, n, init)
  }

  /** A user of the engine feeds events and takes publications, in any order. */
  datatype Call = Feed(event: Event) | TakeCall

  function After(active: nat, n: nat, calls: seq<Call>): Engine {
    if calls == [] then Run(active, n, [])
    else
      var en, c := After(active, n, calls[..|calls| - 1]), calls[|calls| - 1];
      if c.Feed? then Processed(en, c.event) else Take(en).0
  }

  /** The events among the calls. */
  function Fed(calls: seq<Call>): seq<Event> {
    if calls == [] then []
    else
      var c := calls[|calls| - 1];
      if c.Feed? then Fed(calls[..|calls| - 1]) + [c.event] else Fed(calls[..|calls| - 1])
  }

  /** The latest publication since the latest take. */
  function Pending(active: nat, n: nat, calls: seq<Call>): Option<TopOfBook> {
    if calls == [] || calls[|calls| - 1].TakeCall? then None
    else
      var init, e := calls[..|calls| - 1], calls[|calls| - 1].event;
      var tob := Publishes(Run(active, n, Fed(init)), e);
      if tob.Some? then tob else Pending(active, n, init)
  }

  /** Processing reads neither the flag nor the held publication. */
  lemma ProcessingIgnoresFlag(en: Engine, run: Engine, e: Event)
    requires en.instruments == run.instruments
    ensures Publishes(en, e) == Publishes(run, e) && Processed(en, e).instruments == Processed(run, e).instruments
    ensures var tob := Publishes(run, e);
            && Processed(en, e).lastTob == (if tob.Some? then tob else en.lastTob)
            && Processed(en, e).tobChanged == (tob.Some? || en.tobChanged)
  {}

  lemma FedNext(init: seq<Call>, c: Call)
    ensures Fed(init + [c]) == if c.Feed? then Fed(init) + [c.event] else Fed(init)
  {
    assert (init + [c])[..|init|] == init;
  }

  lemma RunNext(active: nat, n: nat, init: seq<Event>, e: Event)
    ensures Run(active, n, init + [e]) == Processed(Run(active, n, init), e)
    ensures var tob := Publishes(Run(active, n, init), e);
            LatestTob(active, n, init + [e]) == if tob.Some? then tob else LatestTob(active, n, init)
  {
    assert (init + [e])[..|init|] == init;
  }

  /** Takes do not disturb the instruments; the engine holds the latest publication of all, and flags
      exactly one that was published since the latest take. */
  lemma {:induction false} TakesDoNotDisturb(active: nat, n: nat, calls: seq<Call>)
    ensures var en := After(active, n, calls);
            && en.instruments == Run(active, n, Fed(calls)).instruments
            && en.lastTob == LatestTob(active, n, Fed(calls))
            && en.tobChanged == Pending(active, n, calls).Some?
            && (en.tobChanged ==> en.lastTob == Pending(active, n, calls))
  {
    if calls != [] {
      var init, c := calls[..|calls| - 1], calls[|calls| - 1];
      TakesDoNotDisturb(active, n, init);
      assert calls == init + [c];
      FedNext(init, c);
      if c.Feed? {
        RunNext(active, n, Fed(init), c.event);
        ProcessingIgnoresFlag(After(active, n, init), Run(active, n, Fed(init)), c.event);
      }
    }
  }

  /** A take returns the latest publication since the previous take, if there was one. */
  lemma TakeReturnsPending(active: nat, n: nat, calls: seq<Call>)
    ensures Take(After(active, n, calls)).1 == Pending(active, n, calls)
  {
    TakesDoNotDisturb(active, n, calls);
  }

  /** The latest trade of `inst` in a stream, with its own price, quantity, aggressor and time. */
  function LatestTrade(events: seq<Event>, inst: nat): Option<TradeInfo> {
    if events == [] then None
    else
      var e := events[|events| - 1];
      if e.instrument == inst && e.body.Trade?
      then Some(TradeInfo(e.body.tradePrice, e.body.tradeQty, e.body.aggressor, e.ts))
      else LatestTrade(events[..|events| - 1], inst)
  }

  /** Trades are remembered, whatever happens to the book in between. */
  lemma {:induction false} TradeIsLatest(active: nat, n: nat, events: seq<Event>, inst: nat)
    requires 1 <= inst <= active
    ensures StateOf(active, n, events, inst).lastTrade == LatestTrade(events, inst)
  {
    if events != [] {
      TradeIsLatest(active, n, events[..|events| - 1], inst);
      StepOfState(active, n, events, inst);
    }
  }

  /** The receive time of the latest delta, trade or quote of `inst`, and zero before any. */
  function LatestTime(events: seq<Event>, inst: nat): nat {
    if events == [] then 0
    else
      var e := events[|events| - 1];
      if e.instrument == inst && !e.body.Other? then e.ts else LatestTime(events[..|events| - 1], inst)
  }

  /** The sequence number of the latest delta of `inst`, and zero before any. */
  function LatestSeqNum(events: seq<Event>, inst: nat): nat {
    if events == [] then 0
    else
      var e := events[|events| - 1];
      if DeltaOf(e, inst) then e.seqNum else LatestSeqNum(events[..|events| - 1], inst)
  }

  lemma EventStamps(st: InstrumentState, e: Event)
    ensures OnEvent(st, e).0.lastEventTs == if e.body.Other? then st.lastEventTs else e.ts
    ensures OnEvent(st, e).0.seqNum == if e.body.BookDelta? then e.seqNum else st.seqNum
  {}

  /** Time and sequence number are those of the latest event of the right kind. */
  lemma {:induction false} StampsAreLatest(active: nat, n: nat, events: seq<Event>, inst: nat)
    requires 1 <= inst <= active
    ensures var st := StateOf(active, n, events, inst);
            st.lastEventTs == LatestTime(events, inst) && st.seqNum == LatestSeqNum(events, inst)
  {
    if events != [] {
      var init, e := events[..|events| - 1], events[|events| - 1];
      StampsAreLatest(active, n, init, inst);
      StepOfState(active, n, events, inst);
      EventStamps(StateOf(active, n, init, inst), e);
    }
  }

  // ---- Repeated publications ----

  /** The pair of the latest publication for `inst`. */
  function LastPublished(active: nat, n: nat, events: seq<Event>, inst: nat): Option<(int, int)> {
    if events == [] then None
    else
      var init, e := events[..|events| - 1], events[|events| - 1];
      var tob := Publishes(Run(active, n, init), e);
      if e.instrument == inst && tob.Some? then Some((tob.value.bid.price, tob.value.ask.price))
      else LastPublished(active, n, init, inst)
  }

  /** While the remembered pair is two-sided it is the pair last published. */
  lemma {:induction false} TwoSidedIsPublished(active: nat, n: nat, events: seq<Event>, inst: nat)
    requires 1 <= inst <= active
    ensures var st := StateOf(active, n, events, inst);
            st.prevBid.Some? && st.prevAsk.Some? ==>
              LastPublished(active, n, events, inst) == Some((st.prevBid.value, st.prevAsk.value))
  {
    if events != [] {
      var init, e := events[..|events| - 1], events[|events| - 1];
      TwoSidedIsPublished(active, n, init, inst);
      StepOfState(active, n, events, inst);
      PublishesIsOnEvent(active, n, init, e);
      EventPublishes(StateOf(active, n, init, inst), e);
      EventRemembers(StateOf(active, n, init, inst), e);
    }
  }

  lemma {:induction false} PublishedInRange(active: nat, n: nat, events: seq<Event>, inst: nat)
    requires 1 <= inst <= active && LastPublished(active, n, events, inst).Some?
    ensures var p := LastPublished(active, n, events, inst).value; 0 <= p.0 < n && 0 <= p.1 < n
  {
    var init, e := events[..|events| - 1], events[|events| - 1];
    PublishesIsOnEvent(active, n, init, e);
    if e.instrument == inst && Publishes(Run(active, n, init), e).Some? {
      EventPublishes(StateOf(active, n, init, inst), e);
      StepOfState(active, n, events, inst);
      var b := StateOf(active, n, events, inst).book;
      BestIsBest(b.bids, Bid);
      BestIsBest(b.asks, Ask);
    } else {
      PublishedInRange(active, n, init, inst);
    }
  }

  /** The event `e` would publish the same pair again. */
  predicate Repeats(active: nat, n: nat, events: seq<Event>, e: Event) {
    var tob := Publishes(Run(active, n, events), e);
    tob.Some? && LastPublished(active, n, events, e.instrument) == Some((tob.value.bid.price, tob.value.ask.price))
  }

  /** Two consecutive publications can be equal exactly when the latest check in between saw a
      one-sided book, which moves the remembered pair without publishing. */
  lemma RepeatPossibleIff(active: nat, n: nat, events: seq<Event>, inst: nat)
    requires 1 <= inst <= active && LastPublished(active, n, events, inst).Some?
    ensures (exists e: Event :: e.instrument == inst && Repeats(active, n, events, e))
       <==> CheckedPair(active, n, events, inst).0.None? || CheckedPair(active, n, events, inst).1.None?
  {
    var st := StateOf(active, n, events, inst);
    PrevIsCheckedPair(active, n, events, inst);
    if st.prevBid.None? || st.prevAsk.None? {
      var p := LastPublished(active, n, events, inst).value;
      PublishedInRange(active, n, events, inst);
      QuoteRepeats(active, n, events, inst, p.0, p.1);
    } else {
      forall e: Event | e.instrument == inst
        ensures !Repeats(active, n, events, e)
      {
        TwoSidedNeverRepeats(active, n, events, e);
      }
    }
  }

  /** After a two-sided check no event publishes the last published prices again. */
  lemma TwoSidedNeverRepeats(active: nat, n: nat, events: seq<Event>, e: Event)
    requires 1 <= e.instrument <= active && LastPublished(active, n, events, e.instrument).Some?
    requires var st := StateOf(active, n, events, e.instrument); st.prevBid.Some? && st.prevAsk.Some?
    ensures !Repeats(active, n, events, e)
  {
    TwoSidedIsPublished(active, n, events, e.instrument);
    PublishesIsOnEvent(active, n, events, e);
    EventPublishes(StateOf(active, n, events, e.instrument), e);
  }

  /** After a one-sided check a quote of the last published prices is published again. */
  lemma QuoteRepeats(active: nat, n: nat, events: seq<Event>, inst: nat, bp: int, ap: int)
    requires 1 <= inst <= active && 0 <= bp < n && 0 <= ap < n
    requires LastPublished(active, n, events, inst) == Some((bp, ap))
    requires var st := StateOf(active, n, events, inst); st.prevBid.None? || st.prevAsk.None?
    ensures Repeats(active, n, events, Event(inst, 0, 0, false, false, Quote(bp, 1, ap, 1)))
  {
    var e := Event(inst, 0, 0, false, false, Quote(bp, 1, ap, 1));
    QuotedBest(n, bp, 1, ap, 1);
    PublishesIsOnEvent(active, n, events, e);
    EventPublishes(StateOf(active, n, events, inst), e);
  }

  /** It does happen: a quote, a batch that empties the ask side, and the same quote again. */
  lemma QuoteRepeatsAfterGap()
    ensures Repeats(1, 8, [SampleQuote, Event(1, 1, 1, false, true, BookDelta(4, 0, Ask))], SampleQuote)
  {
    var gap := Event(1, 1, 1, false, true, BookDelta(4, 0, Ask));
    var events := [SampleQuote, gap];
    AfterSampleQuote();
    assert events[..1] == [SampleQuote];
    var st := StateOf(1, 8, [SampleQuote], 1);
    BestIsBest(ApplyDelta(st.book, 4, 0, Ask).asks, Ask);
    StepOfState(1, 8, events, 1);
    EventRemembers(st, gap);
    EventPublishes(st, gap);
    PublishesIsOnEvent(1, 8, [SampleQuote], gap);
    QuoteRepeats(1, 8, events, 1, 2, 4);
  }

  // ---- The micro price ----

  lemma WeightedMean(bp: nat, ap: nat, bq: nat, aq: nat)
    requires bq > 0 && aq > 0
    ensures var m := (bp * aq + ap * bq) / (bq + aq);
            (if bp < ap then bp else ap) <= m <= (if bp < ap then ap else bp)
  {
    var lo, hi := if bp < ap then bp else ap, if bp < ap then ap else bp;
    MulMono(lo, bp, aq);
    MulMono(lo, ap, bq);
    MulMono(bp, hi, aq);
    MulMono(ap, hi, bq);
    MeanBounds(bp * aq + ap * bq, lo, hi, bq, aq);
  }

  lemma MeanBounds(sum: nat, lo: nat, hi: nat, bq: nat, aq: nat)
    requires bq > 0 && aq > 0 && lo * aq + lo * bq <= sum <= hi * aq + hi * bq
    ensures lo <= sum / (bq + aq) <= hi
  {
    Factored(lo, aq, bq);
    Factored(hi, aq, bq);
    QuotientBetween(sum, lo, hi, bq + aq);
  }

  lemma Factored(x: int, a: int, b: int)
    ensures x * a + x * b == x * (b + a)
  {}

  lemma QuotientBetween(sum: nat, lo: nat, hi: nat, t: nat)
    requires t > 0 && lo * t <= sum <= hi * t
    ensures lo <= sum / t <= hi
  {
    DivBounds(sum, t);
    Distribute(hi, 1, t);
    if sum / t < lo { MulMono(sum / t + 1, lo, t); }
    if sum / t > hi { MulMono(hi + 1, sum / t, t); }
  }

  /** The exact micro price: the mean of the prices, each weighted by the other side. */
  function ExactMicroPrice(bid: Level, ask: Level): int
    requires bid.qty > 0 && ask.qty > 0
  {
    Weighted(bid, ask) / (bid.qty + ask.qty)
  }

  /** A best bid and a best ask, as two signed words each. */
  predicate Quotable(bid: Level, ask: Level) {
    0 <= bid.price <= I64_MAX && 0 <= ask.price <= I64_MAX && 0 < bid.qty <= I64_MAX && 0 < ask.qty <= I64_MAX
  }

  lemma WeightedIsNonNegative(bid: Level, ask: Level)
    requires Quotable(bid, ask)
    ensures bid.price * ask.qty >= 0 && ask.price * bid.qty >= 0
  {
    ProductSign(bid.price, ask.qty);
    ProductSign(ask.price, bid.qty);
  }

  /** The wrapped products add up to the wrapped sum. */
  lemma WrappedWeighted(x: int, y: int)
    ensures WrapI64(WrapI64(x) + WrapI64(y)) == WrapI64(x + y)
  {
    WrapOfSum(x, WrapI64(y));
    WrapOfSum(y, x);
  }

  /** A wrapped dividend never has the quotient of the exact one: they are further apart than any divisor. */
  lemma WrappedQuotientDiffers(sum: nat, t: nat)
    requires sum > I64_MAX && 0 < t <= I64_MAX
    ensures TruncDiv(WrapI64(sum), t) != sum / t
  {
    var wrapped := WrapI64(sum);
    if wrapped >= 0 {
      FarQuotients(sum, wrapped, t);
    } else {
      DivBounds(0 - wrapped, t);
      QuotientAtLeastOne(sum, t);
    }
  }

  lemma FarQuotients(x: nat, y: nat, t: nat)
    requires 0 < t <= x - y
    ensures x / t != y / t
  {
    DivIdentity(x, t);
    DivIdentity(y, t);
  }

  lemma QuotientAtLeastOne(sum: nat, t: nat)
    requires 0 < t <= sum
    ensures sum / t >= 1
  {
    DivBounds(sum, t);
    if sum / t <= 0 { MulMono(sum / t + 1, 1, t); }
  }

  /** The micro price as one division of the wrapped weighted sum. */
  lemma MicroPriceUnfolds(bid: Level, ask: Level)
    requires Quotable(bid, ask)
    ensures MicroPrice(bid, ask) ==
            if InI64(bid.qty + ask.qty) then TruncDiv(WrapI64(Weighted(bid, ask)), bid.qty + ask.qty)
            else (bid.price + ask.price) / 2
  {
    WrappedWeighted(bid.price * ask.qty, ask.price * bid.qty);
    TotalWraps(bid.qty + ask.qty);
  }

  lemma TotalWraps(t: int)
    requires 0 < t <= 2 * I64_MAX
    ensures if InI64(t) then WrapI64(t) == t else WrapI64(t) < 0
  {}

  lemma WrappedMean(sum: nat, t: nat)
    requires 0 < t <= I64_MAX
    ensures TruncDiv(WrapI64(sum), t) == sum / t <==> InI64(sum)
  {
    WrapExactIff(sum);
    if !InI64(sum) { WrappedQuotientDiffers(sum, t); }
  }

  /** While the total quantity fits a word, the micro price is exact if and only if the weighted sum
      fits one too; a total that does not fit gives the midpoint. */
  lemma MicroPriceExactIff(bid: Level, ask: Level)
    requires Quotable(bid, ask)
    ensures InI64(bid.qty + ask.qty) ==> (MicroPrice(bid, ask) == ExactMicroPrice(bid, ask) <==> InI64(Weighted(bid, ask)))
    ensures !InI64(bid.qty + ask.qty) ==> MicroPrice(bid, ask) == (bid.price + ask.price) / 2
  {
    MicroPriceUnfolds(bid, ask);
    if InI64(bid.qty + ask.qty) {
      WeightedIsNonNegative(bid, ask);
      WrappedMean(Weighted(bid, ask), bid.qty + ask.qty);
    }
  }

  /** What a caller can check so that the micro price is a mean of the two prices. */
  predicate MicroPriceSafe(bid: Level, ask: Level) { !InI64(bid.qty + ask.qty) || InI64(Weighted(bid, ask)) }

  lemma MicroPriceBetween(bid: Level, ask: Level)
    requires Quotable(bid, ask) && MicroPriceSafe(bid, ask)
    ensures (if bid.price < ask.price then bid.price else ask.price) <= MicroPrice(bid, ask)
    ensures MicroPrice(bid, ask) <= (if bid.price < ask.price then ask.price else bid.price)
  {
    MicroPriceExactIff(bid, ask);
    WeightedMean(bid.price, ask.price, bid.qty, ask.qty);
  }

  /** Otherwise it can lie outside: at 3 and 4 with 2^61 lots each, the micro price is 0. */
  lemma MicroPriceCanLieOutside()
    ensures var bid, ask := Level(3, 0x2000_0000_0000_0000), Level(4, 0x2000_0000_0000_0000);
            Quotable(bid, ask) && !MicroPriceSafe(bid, ask) && MicroPrice(bid, ask) == 0
  {}

  /** A published micro price lies between the two best prices, unless the weighted sum overflows. */
  lemma PublishedMicroPriceBetween(st: InstrumentState, e: Event)
    requires OnEvent(st, e).1.Some?
    requires var tob := OnEvent(st, e).1.value; Quotable(tob.bid, tob.ask) && MicroPriceSafe(tob.bid, tob.ask)
    ensures var tob := OnEvent(st, e).1.value;
            var bp, ap := tob.bid.price, tob.ask.price;
            (if bp < ap then bp else ap) <= tob.microPrice <= (if bp < ap then ap else bp)
  {
    EventPublishes(st, e);
    MicroPriceBetween(OnEvent(st, e).1.value.bid, OnEvent(st, e).1.value.ask);
  }

  /** Whatever is published in words is quotable: prices in the book, quantities positive. */
  lemma PublishedIsQuotable(st: InstrumentState, e: Event)
    requires OnEvent(st, e).1.Some? && |st.book.bids| == |st.book.asks| <= I64_MAX
    ensures var tob := OnEvent(st, e).1.value;
            Quotable(tob.bid, tob.ask) <==> InI64(tob.bid.qty) && InI64(tob.ask.qty)
  {
    EventPublishes(st, e);
    EventBook(st, e);
    var b := OnEvent(st, e).0.book;
    BestIsBest(b.bids, Bid);
    BestIsBest(b.asks, Ask);
  }

  /** The micro price leans to the side with less quantity: more lots on the bid push it to the
      upper half of an uncrossed spread, more lots on the ask to the lower half. */
  lemma MicroPriceLeans(bid: Level, ask: Level)
    requires Quotable(bid, ask) && MicroPriceSafe(bid, ask) && bid.price <= ask.price
    ensures bid.qty >= ask.qty ==> 2 * MicroPrice(bid, ask) + 1 >= bid.price + ask.price
    ensures bid.qty <= ask.qty ==> 2 * MicroPrice(bid, ask) <= bid.price + ask.price
  {
    MicroPriceExactIff(bid, ask);
    if InI64(bid.qty + ask.qty) {
      WeightedIsNonNegative(bid, ask);
      Lean(bid.price, ask.price, bid.qty, ask.qty);
      ProductSign(ask.price - bid.price, bid.qty - ask.qty);
      DivBounds(Weighted(bid, ask), bid.qty + ask.qty);
      HalfBound(ExactMicroPrice(bid, ask), bid.qty + ask.qty, bid.price + ask.price, Weighted(bid, ask));
    }
  }

  lemma Lean(bp: int, ap: int, bq: int, aq: int)
    ensures 2 * (bp * aq + ap * bq) == (bp + ap) * (bq + aq) + (ap - bp) * (bq - aq)
  {}

  lemma HalfBound(m: int, t: int, s: int, sum: int)
    requires t > 0 && m * t <= sum < (m + 1) * t
    ensures 2 * sum >= s * t ==> 2 * m + 1 >= s
    ensures 2 * sum <= s * t ==> 2 * m <= s
  {
    Distribute(m, 1, t);
    if 2 * m + 1 < s { MulMono(2 * m + 2, s, t); Distribute(2 * m, 2, t); Associate(2, m, t); }
    if 2 * m > s { MulMono(s + 1, 2 * m, t); Distribute(s, 1, t); Associate(2, m, t); }
  }

  /** With at most 65536 ticks and quantities up to 2^46 the weighted sum always fits. */
  lemma MicroPriceFits(bid: Level, ask: Level)
    requires Quotable(bid, ask) && bid.price < 0x1_0000 && ask.price < 0x1_0000
    requires bid.qty <= 0x4000_0000_0000 && ask.qty <= 0x4000_0000_0000
    ensures InI64(bid.qty + ask.qty) && InI64(Weighted(bid, ask))
  {
    ProductBound(bid.price, ask.qty);
    ProductBound(ask.price, bid.qty);
  }

  lemma ProductBound(p: int, q: int)
    requires 0 <= p < 0x1_0000 && 0 <= q <= 0x4000_0000_0000
    ensures 0 <= p * q <= 0xFFFF * 0x4000_0000_0000
  {
    MulMono(p, 0xFFFF, q);
    ProductSign(p, q);
  }
}
