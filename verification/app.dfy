/**
 * The gift-draw engine of the app screen: restoring or dealing a deck,
 * drawing the next gift in two steps (the click, then the callback that runs
 * after the spin animation), and the counters shown on screen.
 *
 * The engine's state is an immutable record: the deck, the cursor into it,
 * the collected log, the "spinning" flag that guards a draw in progress, and
 * the three browser-storage records. A gift list is stored as itself (its
 * JSON text is taken to be an exact encoding); the cursor is stored as
 * decimal text and parsed back.
 */
module App {
  import opened Wrappers
  import opened Catalog
  import opened JsNumber
  import opened FisherYates
  import opened History

  /** The three storage records, under the keys `st_gacha_deck_v1`,
      `st_gacha_index_v1` and `st_gacha_collected_v1`. A present gift list is
      non-empty JSON text, so presence is what the source's truthiness test sees. */
  datatype Storage = Storage(deck: Option<seq<Gift>>, index: Option<string>, collected: Option<seq<Gift>>)

  datatype Engine = Engine(deck: seq<Gift>, index: Num, history: seq<Gift>, spinning: bool, store: Storage)

  /** What the click produced: nothing (a draw was already in progress), an
      undefined entry (the cursor was NaN or negative), or the gift at `at`. */
  datatype Pick = Skipped | Undefined | Drawn(gift: Gift, at: nat)

  datatype Begun = Begun(engine: Engine, pick: Pick)

  /** A whole draw: ignored while spinning, stuck on an undefined entry, or done. */
  datatype Outcome = Ignored | Stuck(stuck: Engine) | Done(engine: Engine, gift: Gift)

  /** The component's state when it mounts, before the deck is initialised. */
  function Mount(store: Storage): (e: Engine)
    ensures e.deck == [] && e.index == Int(0) && e.history == [] && !e.spinning && e.store == store
    ensures Exhausted(e)
  {
    Engine([], Int(0), [], false, store)
  }

  /** The cursor has reached the end of the deck (a NaN cursor never has). */
  predicate Exhausted(e: Engine)
  {
    e.index.Int? && e.index.v >= |e.deck|
  }

  /** `initDeck(forceNew)`: adopt the stored deck, cursor and (if present) log
      unless `forceNew` is set or the deck or cursor record is missing;
      otherwise deal a fresh shuffle of the catalog, store it with cursor
      "0", and, only when `forceNew` is set, clear the log and its record. */
  function Init(e: Engine, forceNew: bool, o: Oracle): (r: Engine)
    requires ValidOracle(o)
    ensures r.spinning == e.spinning
    ensures !forceNew && e.store.deck.Some? && e.store.index.Some? ==>
              && r.deck == e.store.deck.value
              && r.index == ParseInt(e.store.index.value)
              && r.history == (if e.store.collected.Some? then e.store.collected.value else e.history)
              && r.store == e.store
    ensures forceNew || e.store.deck.None? || e.store.index.None? ==>
              && multiset(r.deck) == multiset(GIFTS)
              && r.index == Int(0)
              && r.store.deck == Some(r.deck)
              && r.store.index == Some(NatToString(0))
    ensures !forceNew && (e.store.deck.None? || e.store.index.None?) ==> r.history == e.history
    ensures forceNew ==> r.history == [] && r.store.collected.None?
    ensures !forceNew ==> r.store.collected == e.store.collected
  {
    var st := e.store;
    if !forceNew && st.deck.Some? && st.index.Some? then
      e.(deck := st.deck.value,
         index := ParseInt(st.index.value),
         history := if st.collected.Some? then st.collected.value else e.history)
    else
      var dealt := Shuffle(GIFTS, o);
      var st' := st.(deck := Some(dealt), index := Some("0"));
      assert "0" == NatToString(0);
      if forceNew then
        e.(deck := dealt, index := Int(0), history := [], store := st'.(collected := None))
      else
        e.(deck := dealt, index := Int(0), store := st')
  }

  /** The exhaustion check of the click: a used-up deck is replaced by a
      fresh shuffle of the catalog, which is stored at once; otherwise
      nothing changes. */
  function Refill(e: Engine, o: Oracle): (r: Engine)
    requires ValidOracle(o)
    ensures Exhausted(e) ==>
              && multiset(r.deck) == multiset(GIFTS) && |r.deck| == |GIFTS|
              && r.store == e.store.(deck := Some(r.deck))
    ensures !Exhausted(e) ==> r.deck == e.deck && r.store == e.store
    ensures r.index == e.index && r.history == e.history && r.spinning == e.spinning
  {
    if Exhausted(e) then
      var deck := Shuffle(GIFTS, o);
      e.(deck := deck, store := e.store.(deck := Some(deck)))
    else e
  }

  /** The click handler up to the timer: ignored while spinning; otherwise
      set the flag, refill an exhausted deck and restart at position 0; then
      read the entry at the cursor. The in-memory cursor itself is not moved
      yet. */
  function Begin(e: Engine, o: Oracle): (b: Begun)
    requires ValidOracle(o)
    ensures e.spinning ==> b == Begun(e, Skipped)
    ensures !e.spinning ==>
              && b.engine.spinning && b.pick != Skipped
              && b.engine.index == e.index && b.engine.history == e.history
    ensures !e.spinning && Exhausted(e) ==>
              && multiset(b.engine.deck) == multiset(GIFTS)
              && b.engine.store == e.store.(deck := Some(b.engine.deck))
              && |GIFTS| > 0 && b.pick == Drawn(b.engine.deck[0], 0)
    ensures !e.spinning && !Exhausted(e) ==> b.engine.deck == e.deck && b.engine.store == e.store
    ensures b.pick.Drawn? ==> b.pick.at < |b.engine.deck| && b.pick.gift == b.engine.deck[b.pick.at]
    ensures !e.spinning && !Exhausted(e) && b.pick.Drawn? ==> e.index == Int(b.pick.at)
    ensures b.pick == Undefined <==> !e.spinning && (e.index.NaN? || e.index.v < 0)
  {
    if e.spinning then Begun(e, Skipped)
    else
      var next := Refill(e, o).(spinning := true);
      var at := if Exhausted(e) then Int(0) else e.index;
      CatalogSize();
      if at.Int? && 0 <= at.v < |next.deck| then Begun(next, Drawn(next.deck[at.v], at.v))
      else Begun(next, Undefined)
  }

  /** The timer callback for a draw of `g` at position `at`: the cursor moves
      to `at + 1` and is stored as text, the gift is recorded in the log and
      the log is stored, and the spinning flag is cleared. */
  function Complete(e: Engine, g: Gift, at: nat): (r: Engine)
    ensures !r.spinning && r.deck == e.deck && r.index == Int(at + 1)
    ensures r.store.deck == e.store.deck && r.store.index == Some(NatToString(at + 1))
    ensures r.history == RecordHistory(e.history, g) && r.store.collected == Some(r.history)
    ensures |e.history| <= HISTORY_CAP ==> IsCollected(r.history, g)
  {
    var newIndex := at + 1;
    var newHistory := RecordHistory(e.history, g);
    e.(index := Int(newIndex), history := newHistory, spinning := false,
       store := e.store.(index := Some(NatToString(newIndex)), collected := Some(newHistory)))
  }

  /** A click followed by its timer callback. */
  function Draw(e: Engine, o: Oracle): (d: Outcome)
    requires ValidOracle(o)
    ensures e.spinning <==> d == Ignored
    ensures d.Stuck? <==> !e.spinning && (e.index.NaN? || e.index.v < 0)
    ensures d.Done? ==> d.engine.index.Int? && 1 <= d.engine.index.v <= |d.engine.deck|
  {
    var b := Begin(e, o);
    match b.pick
    case Skipped => Ignored
    case Undefined => Stuck(b.engine)
    case Drawn(g, at) => Done(Complete(b.engine, g, at), g)
  }

  /** The state the app keeps between draws when it started from storage it
      wrote itself: the deck is a permutation of the catalog, the cursor lies
      in `[0, |deck|]`, the log is well formed, and the stored deck and cursor
      read back as the in-memory ones (the stored log may lag behind an empty
      in-memory log, because a plain start does not clear that record). */
  predicate Wellformed(e: Engine)
  {
    && !e.spinning
    && multiset(e.deck) == multiset(GIFTS)
    && e.index.Int? && 0 <= e.index.v <= |e.deck|
    && HistoryOk(e.history)
    && e.store.deck == Some(e.deck)
    && e.store.index == Some(NatToString(e.index.v))
    && (e.history == [] || e.store.collected == Some(e.history))
    && (e.store.collected.None? || HistoryOk(e.store.collected.value))
  }

  /** Storage contents the app itself can have written. The app does not
      check this when it restores; it is the condition under which restoring
      gives a well-formed state. */
  predicate PersistedOk(st: Storage)
  {
    && st.deck.Some? && multiset(st.deck.value) == multiset(GIFTS)
    && st.index.Some? && ParseInt(st.index.value).Int?
    && 0 <= ParseInt(st.index.value).v <= |st.deck.value|
    && st.index.value == NatToString(ParseInt(st.index.value).v)
    && (st.collected.None? || HistoryOk(st.collected.value))
  }

  lemma DeckLength(deck: seq<Gift>)
    requires multiset(deck) == multiset(GIFTS)
    ensures |deck| == |GIFTS| == 7
  {
    CatalogSize();
    assert |multiset(deck)| == |deck|;
  }

  /** Initialising at mount with the reset flag set, or with the deck or
      cursor record missing (and any stale log record a well-formed log),
      deals a fresh deck and gives a well-formed state. */
  lemma InitFreshWellformed(st: Storage, forceNew: bool, o: Oracle)
    requires ValidOracle(o)
    requires forceNew || ((st.deck.None? || st.index.None?) && (st.collected.None? || HistoryOk(st.collected.value)))
    ensures Wellformed(Init(Mount(st), forceNew, o))
  {
    DeckLength(Init(Mount(st), forceNew, o).deck);
  }

  /** Initialising at mount from storage the app itself wrote restores a
      well-formed state. */
  lemma InitRestoredWellformed(st: Storage, o: Oracle)
    requires ValidOracle(o) && PersistedOk(st)
    ensures Wellformed(Init(Mount(st), false, o))
  {
    RestoredWellformed(st);
  }

  /** An idle engine holding exactly what well-formed storage records is
      well formed. */
  lemma RestoredWellformed(st: Storage)
    requires PersistedOk(st)
    ensures Wellformed(Engine(st.deck.value, ParseInt(st.index.value),
                              if st.collected.Some? then st.collected.value else [], false, st))
  {
    var r := Engine(st.deck.value, ParseInt(st.index.value),
                    if st.collected.Some? then st.collected.value else [], false, st);
    assert r.index.Int? && 0 <= r.index.v <= |r.deck|;
    assert r.store.index == Some(NatToString(r.index.v));
    assert HistoryOk(r.history);
  }

  /** A plain start that finds no deck or no cursor record deals a fresh
      deck but leaves the log record alone, so the log is empty in memory;
      a reload then takes the restore branch and reads the old log back. */
  lemma StaleLogReturns(st: Storage, o: Oracle, o2: Oracle)
    requires ValidOracle(o) && ValidOracle(o2)
    requires (st.deck.None? || st.index.None?) && st.collected.Some?
    ensures Init(Mount(st), false, o).history == []
    ensures Init(Mount(Init(Mount(st), false, o).store), false, o2).history == st.collected.value
  {
  }

  /** A reload from what a well-formed state stored gives back the same deck
      and cursor, leaves the storage alone, and keeps a non-empty log. */
  lemma ReloadRestores(e: Engine, o: Oracle)
    requires Wellformed(e) && ValidOracle(o)
    ensures var r := Init(Mount(e.store), false, o);
            && Wellformed(r)
            && r.deck == e.deck && r.index == e.index && r.store == e.store
            && (e.history != [] ==> r.history == e.history)
  {
    ParseIntNatToString(e.index.v);
  }

  /** A draw can complete: no draw is in progress and the cursor is a
      non-negative integer. */
  predicate Ready(e: Engine)
  {
    !e.spinning && e.index.Int? && e.index.v >= 0
  }

  /** A whole draw from a ready state: it completes, handing out the entry at
      the cursor, or on an exhausted deck the first entry of a fresh
      permutation of the catalog; the cursor moves one past the drawn entry,
      the log records the gift, and all three storage records are written
      (the deck record only when a fresh deck was dealt). */
  lemma DrawStep(e: Engine, o: Oracle)
    requires Ready(e) && ValidOracle(o)
    ensures Draw(e, o).Done?
    ensures var d := Draw(e, o);
            && Ready(d.engine)
            && (!Exhausted(e) ==> d.engine.deck == e.deck && d.gift == e.deck[e.index.v]
                                  && d.engine.index == Int(e.index.v + 1))
            && (Exhausted(e) ==> multiset(d.engine.deck) == multiset(GIFTS) && |d.engine.deck| == |GIFTS|
                                 && d.gift == d.engine.deck[0] && d.engine.index == Int(1))
            && d.engine.history == RecordHistory(e.history, d.gift)
            && d.engine.store == Storage(if Exhausted(e) then Some(d.engine.deck) else e.store.deck,
                                         Some(NatToString(d.engine.index.v)), Some(d.engine.history))
  {
    if Exhausted(e) {
      DrawFresh(e, o);
    } else {
      DrawFromDeck(e, o);
    }
  }

  /** `DrawStep` on a deck that is not used up. */
  lemma DrawFromDeck(e: Engine, o: Oracle)
    requires Ready(e) && ValidOracle(o) && !Exhausted(e)
    ensures Draw(e, o).Done?
    ensures var d := Draw(e, o);
            && d.engine.deck == e.deck && d.gift == e.deck[e.index.v] && d.engine.index == Int(e.index.v + 1)
            && !d.engine.spinning && d.engine.history == RecordHistory(e.history, d.gift)
            && d.engine.store == Storage(e.store.deck, Some(NatToString(e.index.v + 1)), Some(d.engine.history))
  {
    var b := Begin(e, o);
    assert e.index == Int(b.pick.at) && b.engine.deck == e.deck;
  }

  /** `DrawStep` on a used-up deck. */
  lemma DrawFresh(e: Engine, o: Oracle)
    requires Ready(e) && ValidOracle(o) && Exhausted(e)
    ensures Draw(e, o).Done?
    ensures var d := Draw(e, o);
            && multiset(d.engine.deck) == multiset(GIFTS) && |d.engine.deck| == |GIFTS|
            && d.gift == d.engine.deck[0] && d.engine.index == Int(1)
            && !d.engine.spinning && d.engine.history == RecordHistory(e.history, d.gift)
            && d.engine.store == Storage(Some(d.engine.deck), Some(NatToString(1)), Some(d.engine.history))
  {
    var b := Begin(e, o);
    assert b.pick == Drawn(b.engine.deck[0], 0);
  }

  /** A draw from a well-formed state draws a catalog gift and leaves a
      well-formed state. */
  lemma DrawPreservesWellformed(e: Engine, o: Oracle)
    requires Wellformed(e) && ValidOracle(o)
    ensures Draw(e, o).Done?
    ensures Wellformed(Draw(e, o).engine) && Draw(e, o).gift in GIFTS
  {
    DrawStep(e, o);
    var d := Draw(e, o);
    DeckLength(d.engine.deck);
    assert d.gift in multiset(d.engine.deck);
    RecordKeepsEveryId(e.history, d.gift);
  }

  /** A reload while the spin is still running: the deck record already holds
      the deck the click dealt, but the cursor record still holds the cursor
      from before the click, so the drawn gift is not counted; a reload after
      an exhausting click finds the new deck exhausted again. */
  lemma ReloadDuringDraw(e: Engine, o: Oracle, o2: Oracle)
    requires Wellformed(e) && ValidOracle(o) && ValidOracle(o2)
    ensures var b := Begin(e, o);
            var r := Init(Mount(b.engine.store), false, o2);
            && r.deck == b.engine.deck && r.index == e.index
            && (Exhausted(e) ==> Exhausted(r) && multiset(r.deck) == multiset(GIFTS))
  {
    ParseIntNatToString(e.index.v);
    DeckLength(e.deck);
    DeckLength(Begin(e, o).engine.deck);
  }

  /** The line under the draw button: "N GIFTS LEFT IN SET" while the cursor
      is below the catalog size, "SET COMPLETE - RESHUFFLING!" otherwise
      (including a NaN cursor). */
  datatype Counter = GiftsLeft(n: int) | SetComplete

  function LeftInSet(index: Num): (c: Counter)
    ensures c.GiftsLeft? <==> index.Int? && index.v < |GIFTS|
    ensures c.GiftsLeft? ==> c.n + index.v == |GIFTS|
  {
    if index.Int? && index.v < |GIFTS| then GiftsLeft(|GIFTS| - index.v) else SetComplete
  }

  /** The result screen offers "Start New Set" instead of "Spin Again" once
      the cursor reaches the catalog size. */
  predicate OffersNewSet(index: Num)
    ensures OffersNewSet(index) ==> LeftInSet(index) == SetComplete
    ensures index.Int? && !OffersNewSet(index) ==> LeftInSet(index).GiftsLeft?
  {
    index.Int? && index.v >= |GIFTS|
  }

  /** A cursor within a deck of catalog size. */
  predicate CursorInDeck(e: Engine)
  {
    Ready(e) && |e.deck| == |GIFTS| && e.index.v <= |e.deck|
  }

  /** The counter and the result screen's button agree on every integer
      cursor: the complete message shows exactly when the button offers
      "Start New Set". A cursor in range shows between 1 and 7 gifts left, a
      negative one more than 7. A NaN cursor, which only unreadable storage
      yields, shows the complete message next to "Spin Again". */
  lemma CounterMatchesButton(index: Num)
    ensures index.Int? ==> (LeftInSet(index) == SetComplete <==> OffersNewSet(index))
    ensures index.Int? && index.v >= 0 && LeftInSet(index).GiftsLeft? ==> 1 <= LeftInSet(index).n <= |GIFTS|
    ensures index.Int? && index.v < 0 ==> LeftInSet(index).GiftsLeft? && LeftInSet(index).n > |GIFTS|
    ensures index.NaN? ==> LeftInSet(index) == SetComplete && !OffersNewSet(index)
  {
  }

  /** Each draw counts the counter down by one, wrapping from complete to six
      left. */
  lemma CounterAfterDraw(e: Engine, o: Oracle)
    requires CursorInDeck(e) && ValidOracle(o)
    ensures var after := LeftInSet(Draw(e, o).engine.index);
            match LeftInSet(e.index)
            case GiftsLeft(n) => after == (if n == 1 then SetComplete else GiftsLeft(n - 1))
            case SetComplete => after == GiftsLeft(|GIFTS| - 1)
  {
    DrawStep(e, o);
    CountDown(e, Draw(e, o).engine.index);
  }

  lemma CountDown(e: Engine, next: Num)
    requires CursorInDeck(e)
    requires next == if Exhausted(e) then Int(1) else Int(e.index.v + 1)
    ensures match LeftInSet(e.index)
            case GiftsLeft(n) => LeftInSet(next) == (if n == 1 then SetComplete else GiftsLeft(n - 1))
            case SetComplete => LeftInSet(next) == GiftsLeft(|GIFTS| - 1)
  {
  }

  /** The counter after a draw from any well-formed state: one fewer gift
      left, the complete message after the last one, and six left after a
      draw from a used-up set. */
  lemma WellformedCountsDown(e: Engine, o: Oracle)
    requires Wellformed(e) && ValidOracle(o)
    ensures var after := LeftInSet(Draw(e, o).engine.index);
            match LeftInSet(e.index)
            case GiftsLeft(n) => after == (if n == 1 then SetComplete else GiftsLeft(n - 1))
            case SetComplete => after == GiftsLeft(|GIFTS| - 1)
  {
    WellformedCursor(e);
    CounterAfterDraw(e, o);
  }

  /** A well-formed state has its cursor within a deck of catalog size. */
  lemma WellformedCursor(e: Engine)
    requires Wellformed(e)
    ensures CursorInDeck(e)
  {
    DeckLength(e.deck);
  }
}
