# Gift-draw engine of a Christmas gift-gacha app

This project models the part of the app that decides which gift a player
gets. The engine keeps four things:

- a deck, which is a shuffled copy of the seven-gift catalog;
- a cursor into the deck;
- the "collected" log;
- a flag that is set while the spin animation runs.

It mirrors the deck, the cursor and the log in three browser-storage records.

These are the engine's operations:

- **Shuffle.** A Fisher–Yates shuffle deals a deck.
- **Initialise (`initDeck`).** It restores the deck, cursor and log from
  storage, or deals a fresh deck.
- **Draw (`handleDraw`).** A draw has two steps:
  - the click: it guards against a draw in progress, reshuffles an
    exhausted deck, stores the new deck at once, and reads the entry at the
    cursor;
  - the timer callback: it advances the cursor, records the gift in the log,
    stores both, and clears the flag.
- **Display values.** The "N GIFTS LEFT IN SET" line and the collection
  count and tiles.

## Modelling choices

- **Modules.**
  - `Catalog`: the catalog and the screen enumeration.
  - `JsNumber`: the cursor's `toString`/`parseInt` text form.
  - `FisherYates`: the shuffle.
  - `History`: the collected log and the tile count.
  - `App`: the engine state, `initDeck`, the two halves of `handleDraw`, and
    the counter.
  - `Runs`: traces of consecutive draws.
  - `Trace` and `Wrappers` hold generic helpers.
- **State.** The state is an immutable record, `App.Engine`, and every
  operation is a function from state to state.
- **Storage.** Each of the three records is an `Option`.
  - A gift list is stored as itself, i.e. its JSON encoding is taken to be
    exact.
  - The cursor is stored as decimal text. It is read back with an
    ECMAScript-faithful `parseInt(_, 10)`: leading white space, an optional
    sign, then the longest digit prefix, with NaN when there are no digits.
  - So a cursor is `Int(k)` or `NaN`.
- **Values, not arrays.** The shuffle copies its input before swapping
  (App.tsx:116), so the catalog is never changed. Dafny sequences are
  values, so `FisherYates.ShuffleGifts` cannot change its argument either.
- **Randomness.** The random source is an oracle `o: nat -> nat` with
  `o(i) <= i`. This is all that the float-to-index conversion at
  App.tsx:119-126 guarantees. Each shuffle takes its own oracle.
- **Invalid cursor.** A click with a NaN or negative cursor reads an
  undefined entry (App.tsx:210). The model stops there (`Outcome.Stuck`).
  In the source the timer callback still runs, with two outcomes:
  - With a non-empty log, the lookup by id (App.tsx:220) fails on
    `draw.id`.
  - With an empty log, the lookup never looks at `draw`, so the callback
    completes:
    - it stores the cursor as `"NaN"`, or as the negative cursor plus one
      (App.tsx:215-217);
    - it stores the log `[undefined]` as `"[null]"` (App.tsx:219-224);
    - it switches to the result screen, but the result page renders only
      with a selected gift (App.tsx:350), so neither it, its "Spin Again"
      button (App.tsx:411-417) nor the draw screen appears.

    The player cannot draw again without a reload. A reload restores the
    stored cursor and the log `[null]` (App.tsx:137-140), and the next draw
    then fails on `g.id` of that log entry.
- **Restoring.** The code does not validate what it restores. The model
  follows the code, so `PersistedOk` is only the condition under which a
  restore gives a well-formed state; nothing checks it.
- **Persistence timing.** The click stores the deck immediately, but the
  cursor and log are stored only when the timer fires (App.tsx:207 against
  App.tsx:217 and 223). The model follows this. `App.ReloadDuringDraw`
  shows the consequence: a reload during the spin keeps the new deck with
  the old cursor.
- **The log on a plain start.** A fresh deal without `forceNew` leaves the
  stored log record in place and does not load it, so the log in memory
  stays empty (App.tsx:141-150). The fresh deal has now written the deck
  and cursor records. A reload before the next draw therefore takes the
  restore branch and reads the old log back (App.tsx:137-140).
  `App.StaleLogReturns` states this.

## Model

| member | source | states |
|---|---|---|
| Catalog.StateFromName | types.ts:2-8 | a screen found by its string value carries exactly that string value |
| Catalog.AppStateNames | types.ts:2-8 | there are exactly five screens, their string values are pairwise distinct, and each value reads back as its screen |
| Catalog.CatalogSize | types.ts:19-76 | the catalog has seven gifts |
| Catalog.CatalogDistinct | types.ts:19-76 | no two catalog gifts share an id |
| Catalog.CatalogIds | types.ts:19-76 | the catalog ids are exactly red, blue, green, purple, pink, yellow and white |
| Catalog.CatalogIdCount | types.ts:19-76 | the catalog has seven distinct ids |
| Catalog.CatalogSingleCopies | types.ts:19-76 | every catalog gift occurs in the catalog exactly once, so a permutation of the catalog is a permutation of its ids |
| Catalog.CatalogColors | types.ts:19-76 | every `hex` field is `#` followed by six hexadecimal digits |
| JsNumber.ParseInt | App.tsx:139 | `parseInt` yields an integer exactly when, after white space and an optional sign, a digit follows; text that starts with a digit parses to a non-negative integer |
| JsNumber.NatToString | App.tsx:217 | `toString` of a non-negative integer is a non-empty digit string with no leading zero |
| JsNumber.ParseIntNatToString | App.tsx:139 | the cursor round trip: parsing the text `toString` writes gives back the same integer |
| JsNumber.NatToStringDigitsValue | App.tsx:139 | the converse: canonical decimal text is exactly what `toString` writes for its value |
| FisherYates.Swap | App.tsx:127 | the swap exchanges the two entries and leaves every other entry alone |
| FisherYates.SwapPermutes | App.tsx:127 | a swap permutes the sequence |
| FisherYates.StepsPermutes | App.tsx:117-128 | the loop from position `i` down to 1 permutes the sequence |
| FisherYates.Shuffle | App.tsx:115-130 | the shuffled copy has the input's length and multiset |
| FisherYates.ShuffleReaches | App.tsx:115-130 | every permutation of the input is the shuffle's result for some oracle that picks each partner position at or below the position being filled |
| FisherYates.StepsReach | App.tsx:117-128 | the swaps from position `i` down to 1 can produce any arrangement that keeps everything above `i` and holds the same entries at or below `i` |
| FisherYates.StepsAgree | App.tsx:117-128 | the swaps from position `i` down depend only on the choices at positions 1 to `i` |
| FisherYates.ShuffleGifts | App.tsx:115-130 | the imperative loop, with every index in bounds, computes the shuffled copy, which is a permutation of the input |
| History.RecordHistory | App.tsx:219-224 | a logged id leaves the log as it was; a new gift goes in front; the result has at most 7 entries; distinct ids stay distinct; it only holds old entries and the new gift; with at most 7 entries before, the new gift is logged afterwards |
| History.RecordHistoryIdempotent | App.tsx:219-224 | recording the same gift twice logs it once |
| History.RecordKeepsEveryId | App.tsx:219-224 | on a log of catalog gifts the cap never drops an id: the ids afterwards are the old ids plus the new one, the log grows exactly when the id was new, and it stays well formed |
| History.CountCollected | App.tsx:385-386 | the number of tiles shown as collected is at most the catalog size; it is 0 exactly when no tile is collected and the catalog size exactly when every tile is |
| History.CountCollectedIsIdOverlap | App.tsx:385-386 | the number of tiles shown as collected is the number of catalog ids present in the log |
| History.CollectionCountMatchesTiles | App.tsx:383-386 | the "Collection: N/7" count equals the number of tiles shown as collected |
| App.Mount | App.tsx:98-108 | at mount the deck is empty and the cursor is 0, so the deck counts as exhausted; no draw is in progress and the log is empty |
| App.Init | App.tsx:132-152 | with the reset flag clear and both deck and cursor records present, it adopts the stored deck, the parsed cursor and any stored log, and writes nothing; otherwise it deals a permutation of the catalog, stores it with cursor "0", and clears the log and its record only under the reset flag, leaving the in-memory log alone otherwise |
| App.InitFreshWellformed | App.tsx:141-150 | a fresh deal at mount gives a well-formed state |
| App.InitRestoredWellformed | App.tsx:137-140 | restoring storage the app wrote gives a well-formed state |
| App.RestoredWellformed | App.tsx:137-140 | the idle engine built from storage the app wrote (its deck, its parsed cursor, its log or an empty one) is well formed |
| App.StaleLogReturns | App.tsx:132-150 | a plain fresh deal keeps the stored log but starts with an empty log in memory; a reload then reads the stored log back |
| App.ReloadRestores | App.tsx:132-140 | reloading from a well-formed state's storage gives back the same deck, cursor and storage, and keeps a non-empty log |
| App.Refill | App.tsx:203-208 | a used-up deck is replaced by a permutation of the catalog, which is stored at once; a deck that is not used up and its storage stay as they are; the cursor, the log and the flag never change here |
| App.Begin | App.tsx:194-210 | while spinning, nothing changes; otherwise the flag is set; an exhausted deck is replaced by a stored permutation of the catalog and the pick is its first entry; otherwise the pick is the entry at the cursor; a pick is always an in-bounds entry of the current deck; the pick is undefined exactly when the cursor is NaN or negative |
| App.Complete | App.tsx:212-229 | the cursor becomes the drawn position plus one and is stored as its decimal text; the log becomes the recorded log and is stored; the deck record is untouched; the flag is cleared; a log within the cap holds the gift afterwards |
| App.Draw | App.tsx:194-233 | a draw is ignored exactly while spinning, is stuck exactly on a NaN or negative cursor, and otherwise leaves the cursor between 1 and the deck length |
| App.DrawStep | App.tsx:194-229 | from a ready state a draw completes: it hands out the entry at the cursor and moves the cursor by one, or on an exhausted deck it hands out the first entry of a fresh permutation of the catalog and the cursor becomes 1; it records the gift and writes all three records, the deck record only when it dealt |
| App.DrawFromDeck | App.tsx:194-229 | a draw from a deck that is not used up hands out the entry at the cursor, keeps the deck and its record, stores the cursor plus one as text and stores the recorded log |
| App.DrawFresh | App.tsx:194-229 | a draw from a used-up deck deals a permutation of the catalog, hands out its first entry, stores the new deck, the cursor text "1" and the recorded log |
| App.DrawPreservesWellformed | App.tsx:194-229 | a draw from a well-formed state draws a catalog gift and leaves a well-formed state |
| App.ReloadDuringDraw | App.tsx:203-217 | a reload during the spin restores the click's deck with the cursor from before the click; after an exhausting click the reloaded deck is exhausted again |
| App.LeftInSet | App.tsx:342 | the counter shows gifts left exactly when the cursor is an integer below 7, and then the gifts left and the cursor add up to 7; otherwise, including a NaN cursor, it shows the complete message |
| App.OffersNewSet | App.tsx:416 | the button offers "Start New Set" only when the counter shows the complete message; on an integer cursor, "Spin Again" goes with a count of gifts left |
| App.CounterMatchesButton | App.tsx:342 | on an integer cursor the counter shows the complete message exactly when the result screen's button (App.tsx:416) offers "Start New Set"; a cursor in range shows 1 to 7 gifts left, a negative one more than 7; a NaN cursor shows the complete message while the button still offers "Spin Again" |
| App.CounterAfterDraw | App.tsx:342 | each draw counts the counter down by one, and from "complete" it goes to six left |
| App.WellformedCountsDown | App.tsx:342 | the same countdown for every well-formed state: each draw takes one off the gifts left, the last one gives the complete message, and a draw from a used-up set leaves six |
| Runs.Simulate | App.tsx:194-233 | repeated clicks from a ready state, each finishing before the next, form a trace of completed draws |
| Runs.Session | App.tsx:132-233 | from empty storage, a reset, or storage the app wrote, every state of a session of initialisation followed by any number of completed clicks is well formed, and every click hands out a catalog gift |
| Runs.RunWellformed | App.tsx:194-233 | every state of a trace that starts well formed is well formed |
| Runs.RunWithinDeck | App.tsx:200-217 | within one deck, consecutive draws hand out the deck in order from the cursor |
| Runs.FullCycle | App.tsx:200-217 | from the start of a set, seven draws hand out every catalog gift exactly once and end on an exhausted deck |
| Runs.TwoCycles | App.tsx:200-217 | fourteen draws from the start of a set hand out every catalog gift exactly twice |

## Left out

- The float random source is not modelled. `crypto.getRandomValues`,
  `Math.random` and the `Math.floor(r * (i + 1))` conversion
  (App.tsx:119-126) are replaced by the oracle described above.
- FisherYates.Shuffle: states that the result is a permutation, not that the
  permutations are uniformly distributed. Uniformity is a probabilistic
  property of the random source. That every permutation is reachable is
  proved separately, as `FisherYates.ShuffleReaches`.
- `JSON.parse` of a corrupted record is not modelled; the source has no
  error handling there. A present gift-list record is its list.
- App.Draw: stops at the undefined entry a NaN or negative cursor yields.
  What the source does next is not modelled. With a non-empty log the
  callback fails on `draw.id`. With an empty log it completes, stores
  `"NaN"` or the cursor plus one and the log `"[null]"`, and leaves no
  screen to draw from (App.tsx:350). After a reload, the next draw fails on
  `g.id`.
- Runs.TwoCycles: the fourteen draws start at the beginning of a set.
  Fourteen draws starting in the middle of a deck span parts of three decks,
  so they need not hand out each gift exactly twice.
- JsNumber.NatToString: writes every non-negative integer in plain decimal.
  From 10^21 up, JavaScript writes exponent form (`"1e+21"`). Cursors here
  never exceed 8.
- JsNumber.ParseInt: integers are unbounded. The loss of precision above
  2^53 is not modelled.
- The 2500 ms timer, React's batching of state updates, the confetti, sound,
  scrolling, clipboard and screen transitions are not modelled. The
  timer's delay is modelled only as the split between `App.Begin` and
  `App.Complete`; a reload in between is `App.ReloadDuringDraw`.
- The reset flag of `initDeck` is a parameter of `App.Init` only. No button
  calls `initDeck(true)`: the "Start New Set" button (App.tsx:411-416) only
  returns to the draw screen, and the next click reshuffles.
- The gacha-machine component and the rendering scenes are not part of this
  model; the engine does not use them.
- The draw handler calls the sound manager's `playSfx` twice: `'spin'` on
  the click (App.tsx:198) and `'reveal'` in the timer callback
  (App.tsx:230). Neither call changes engine state, so both are left out.
- App.Init: reading and writing storage is assumed to succeed. The source
  has no error handling around it (App.tsx:133-135, 145-149). A throwing
  read or write aborts `initDeck` at mount.
- App.Begin: writing the new deck is assumed to succeed. A throwing write
  at App.tsx:207 aborts the click after the flag was set (App.tsx:196) and
  before the timer is scheduled. The draw button then stays disabled
  (App.tsx:333) for the rest of the session.
- App.Complete: writing the cursor and the log is assumed to succeed. A
  throwing write at App.tsx:217 or App.tsx:223 aborts the callback before
  the flag is cleared (App.tsx:228). The draw button then stays disabled
  (App.tsx:333) for the rest of the session.
- A screen transition to the result screen (App.tsx:227) is not part of the
  engine state; the screen enumeration is modelled only in `Catalog`.
