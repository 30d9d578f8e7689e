/**
 * Sequences of draws: a player clicking the draw button again and again,
 * each spin finishing before the next click. The lemmas here follow the deck
 * and the cursor through such a trace: a deck is handed out in order, and
 * each full set of draws hands out every catalog gift exactly once.
 */
module Runs {
  import opened Catalog
  import opened JsNumber
  import opened FisherYates
  import opened History
  import opened App
  import opened Trace

  ghost predicate ValidOracles(os: seq<Oracle>)
  {
    forall k :: 0 <= k < |os| ==> ValidOracle(os[k])
  }

  /** A click on `e` with random source `o` completes, drawing `g` and
      leaving `e'`. */
  ghost predicate DrawsTo(e: Engine, o: Oracle, e': Engine, g: Gift)
  {
    ValidOracle(o) && Draw(e, o) == Done(e', g)
  }

  /** A trace of consecutive completed draws, one random source per click. */
  ghost predicate IsRun(states: seq<Engine>, os: seq<Oracle>, picks: seq<Gift>)
  {
    Chain(DrawsTo, states, os, picks)
  }

  datatype Run = Run(states: seq<Engine>, picks: seq<Gift>)

  /** Clicks the draw button once per random source, each click completing
      before the next; from a ready state every click completes. */
  function Simulate(e: Engine, os: seq<Oracle>): (r: Run)
    requires Ready(e) && ValidOracles(os)
    ensures IsRun(r.states, os, r.picks) && r.states[0] == e
    decreases |os|
  {
    if os == [] then Run([e], [])
    else
      OraclesSplit(os);
      var (next, g) := Click(e, os[0]);
      var rest := Simulate(next, os[1..]);
      RunCons(e, os, g, rest.states, rest.picks);
      Run([e] + rest.states, [g] + rest.picks)
  }

  lemma OraclesSplit(os: seq<Oracle>)
    requires ValidOracles(os) && os != []
    ensures ValidOracle(os[0]) && ValidOracles(os[1..])
  {
    assert forall k :: 0 <= k < |os| - 1 ==> os[1..][k] == os[k + 1];
  }

  /** A click followed by a trace from the state it leaves is a trace. */
  lemma RunCons(e: Engine, os: seq<Oracle>, g: Gift, states: seq<Engine>, picks: seq<Gift>)
    requires os != [] && IsRun(states, os[1..], picks) && DrawsTo(e, os[0], states[0], g)
    ensures IsRun([e] + states, os, [g] + picks)
  {
    ChainCons(DrawsTo, e, os, g, states, picks);
  }

  /** One click on a ready state: the state it leaves, which is ready again,
      and the gift it hands out. */
  function Click(e: Engine, o: Oracle): (r: (Engine, Gift))
    requires Ready(e) && ValidOracle(o)
    ensures DrawsTo(e, o, r.0, r.1) && Ready(r.0)
  {
    ReadyStep(e, o);
    var d := Draw(e, o);
    (d.engine, d.gift)
  }

  /** A click on a ready state completes and leaves a ready state. */
  lemma ReadyStep(e: Engine, o: Oracle)
    requires Ready(e) && ValidOracle(o)
    ensures Draw(e, o).Done? && Ready(Draw(e, o).engine)
    ensures DrawsTo(e, o, Draw(e, o).engine, Draw(e, o).gift)
  {
    DrawStep(e, o);
  }

  /** A click of a trace from a well-formed state leads to a well-formed state. */
  lemma RunStepWellformed(states: seq<Engine>, os: seq<Oracle>, picks: seq<Gift>, k: nat)
    requires IsRun(states, os, picks) && k < |os| && Wellformed(states[k])
    ensures Wellformed(states[k + 1]) && picks[k] in GIFTS
  {
    ChainAt(DrawsTo, states, os, picks, k);
    DrawPreservesWellformed(states[k], os[k]);
  }

  /** Every click of a trace keeps the state well formed. */
  lemma RunKeeps(states: seq<Engine>, os: seq<Oracle>, picks: seq<Gift>)
    requires IsRun(states, os, picks)
    ensures Preserves(Wellformed, states)
  {
    forall k | 0 <= k < |states| - 1
      ensures Wellformed(states[k]) ==> Wellformed(states[k + 1])
    {
      if Wellformed(states[k]) {
        RunStepWellformed(states, os, picks, k);
      }
    }
  }

  /** Every state of a trace from a well-formed state is well formed. */
  lemma RunWellformed(states: seq<Engine>, os: seq<Oracle>, picks: seq<Gift>, m: nat)
    requires IsRun(states, os, picks) && m <= |os| && Wellformed(states[0])
    ensures Wellformed(states[m])
  {
    RunKeeps(states, os, picks);
    Preserved(Wellformed, states, m);
  }

  /** A session: the component mounts on storage `st`, initialises, and the
      player clicks once per random source. From empty storage, a reset, or
      storage the app itself wrote, every state of the session is well formed
      and every click hands out a catalog gift. */
  lemma Session(st: Storage, forceNew: bool, o: Oracle, os: seq<Oracle>)
    requires ValidOracle(o) && ValidOracles(os)
    requires || forceNew
             || ((st.deck.None? || st.index.None?) && (st.collected.None? || HistoryOk(st.collected.value)))
             || PersistedOk(st)
    ensures var e := Init(Mount(st), forceNew, o);
            && Ready(e)
            && var r := Simulate(e, os);
               && (forall k :: 0 <= k < |r.states| ==> Wellformed(r.states[k]))
               && (forall k :: 0 <= k < |r.picks| ==> r.picks[k] in GIFTS)
  {
    InitWellformed(st, forceNew, o);
    var r := Simulate(Init(Mount(st), forceNew, o), os);
    RunAllWellformed(r.states, os, r.picks);
  }

  /** Initialising at mount from empty storage, with a reset, or from storage
      the app wrote gives a well-formed state. */
  lemma InitWellformed(st: Storage, forceNew: bool, o: Oracle)
    requires ValidOracle(o)
    requires || forceNew
             || ((st.deck.None? || st.index.None?) && (st.collected.None? || HistoryOk(st.collected.value)))
             || PersistedOk(st)
    ensures Wellformed(Init(Mount(st), forceNew, o))
  {
    if forceNew || st.deck.None? || st.index.None? {
      InitFreshWellformed(st, forceNew, o);
    } else {
      InitRestoredWellformed(st, o);
    }
  }

  /** Every state of a trace from a well-formed state is well formed, and
      every click of it hands out a catalog gift. */
  lemma RunAllWellformed(states: seq<Engine>, os: seq<Oracle>, picks: seq<Gift>)
    requires IsRun(states, os, picks) && Wellformed(states[0])
    ensures forall k :: 0 <= k < |states| ==> Wellformed(states[k])
    ensures forall k :: 0 <= k < |picks| ==> picks[k] in GIFTS
  {
    RunKeeps(states, os, picks);
    forall k | 0 <= k < |states|
      ensures Wellformed(states[k])
    {
      Preserved(Wellformed, states, k);
    }
    forall k | 0 <= k < |picks|
      ensures picks[k] in GIFTS
    {
      Preserved(Wellformed, states, k);
      RunStepWellformed(states, os, picks, k);
    }
  }

  /** Step `k` on a deck that is not used up hands out the entry at the
      cursor and moves the cursor one step. */
  ghost predicate NextAt(states: seq<Engine>, picks: seq<Gift>, k: nat)
  {
    && k < |picks| && k + 1 < |states|
    && (Ready(states[k]) && !Exhausted(states[k]) ==>
          && Ready(states[k + 1]) && states[k + 1].deck == states[k].deck
          && picks[k] == states[k].deck[states[k].index.v]
          && states[k + 1].index == Int(states[k].index.v + 1))
  }

  /** Step `k` on a used-up deck deals a fresh permutation of the catalog and
      hands out its first entry. */
  ghost predicate DealAt(states: seq<Engine>, picks: seq<Gift>, k: nat)
  {
    && k < |picks| && k + 1 < |states|
    && (Ready(states[k]) && Exhausted(states[k]) ==>
          && Ready(states[k + 1]) && multiset(states[k + 1].deck) == multiset(GIFTS)
          && |states[k + 1].deck| == |GIFTS| && picks[k] == states[k + 1].deck[0]
          && states[k + 1].index == Int(1))
  }

  ghost predicate Advances(states: seq<Engine>, picks: seq<Gift>)
  {
    |states| == |picks| + 1 && forall k: nat :: k < |picks| ==> NextAt(states, picks, k)
  }

  ghost predicate Deals(states: seq<Engine>, picks: seq<Gift>)
  {
    |states| == |picks| + 1 && forall k: nat :: k < |picks| ==> DealAt(states, picks, k)
  }

  /** Every click of a trace on a deck that is not used up hands out the
      entry at the cursor and moves the cursor one step. */
  lemma RunAdvances(states: seq<Engine>, os: seq<Oracle>, picks: seq<Gift>)
    requires IsRun(states, os, picks)
    ensures Advances(states, picks)
  {
    forall k: nat | k < |picks|
      ensures NextAt(states, picks, k)
    {
      ChainAt(DrawsTo, states, os, picks, k);
      if Ready(states[k]) {
        DrawStep(states[k], os[k]);
      }
    }
  }

  /** Every click of a trace on a used-up deck deals a fresh permutation of
      the catalog and hands out its first entry. */
  lemma RunDeals(states: seq<Engine>, os: seq<Oracle>, picks: seq<Gift>)
    requires IsRun(states, os, picks)
    ensures Deals(states, picks)
  {
    forall k: nat | k < |picks|
      ensures DealAt(states, picks, k)
    {
      ChainAt(DrawsTo, states, os, picks, k);
      if Ready(states[k]) {
        DrawStep(states[k], os[k]);
      }
    }
  }

  /** Within one deck, the steps from position `from` on hand out the deck in
      order, each moving the cursor one step. */
  lemma {:induction false} WithinDeck(states: seq<Engine>, picks: seq<Gift>, from: nat, m: nat)
    requires Advances(states, picks) && from <= m <= |picks|
    requires Ready(states[from])
    requires states[from].index.v + (m - from) <= |states[from].deck|
    ensures Ready(states[m]) && states[m].deck == states[from].deck
    ensures states[m].index == Int(states[from].index.v + (m - from))
    ensures forall j :: from <= j < m ==> picks[j] == states[from].deck[states[from].index.v + (j - from)]
    decreases m
  {
    if m > from {
      WithinDeck(states, picks, from, m - 1);
      assert NextAt(states, picks, m - 1);
    }
  }

  /** Within one deck, the draws of a trace from position `from` on hand out
      the deck in order, each moving the cursor one step. */
  lemma RunWithinDeck(states: seq<Engine>, os: seq<Oracle>, picks: seq<Gift>, from: nat, m: nat)
    requires IsRun(states, os, picks) && from <= m <= |os|
    requires Ready(states[from])
    requires states[from].index.v + (m - from) <= |states[from].deck|
    ensures Ready(states[m]) && states[m].deck == states[from].deck
    ensures states[m].index == Int(states[from].index.v + (m - from))
    ensures picks[from..m] == states[from].deck[states[from].index.v..states[from].index.v + (m - from)]
  {
    RunAdvances(states, os, picks);
    WithinDeck(states, picks, from, m);
  }

  /** Entries `from` onwards of `p` spell out `d`. */
  lemma Window<T>(p: seq<T>, from: nat, d: seq<T>)
    requires from + |d| <= |p|
    requires forall j :: from <= j < from + |d| ==> p[j] == d[j - from]
    ensures p[from..from + |d|] == d
  {
  }

  /** Drawing through a deck from cursor 0 hands out exactly the deck. */
  lemma DeckCycle(states: seq<Engine>, picks: seq<Gift>, from: nat)
    requires Advances(states, picks) && from <= |picks| && Ready(states[from])
    requires states[from].index == Int(0) && from + |states[from].deck| <= |picks|
    ensures picks[from..from + |states[from].deck|] == states[from].deck
    ensures Ready(states[from + |states[from].deck|]) && Exhausted(states[from + |states[from].deck|])
  {
    var deck := states[from].deck;
    WithinDeck(states, picks, from, from + |deck|);
    Window(picks, from, deck);
  }

  /** Drawing from an exhausted deck hands out the fresh deck from its first
      entry on. */
  lemma ReshuffleCycle(states: seq<Engine>, picks: seq<Gift>, from: nat)
    requires Advances(states, picks) && from < |picks|
    requires Ready(states[from + 1]) && states[from + 1].index == Int(1)
    requires |states[from + 1].deck| > 0 && picks[from] == states[from + 1].deck[0]
    requires from + |states[from + 1].deck| <= |picks|
    ensures picks[from..from + |states[from + 1].deck|] == states[from + 1].deck
    ensures Ready(states[from + |states[from + 1].deck|]) && Exhausted(states[from + |states[from + 1].deck|])
  {
    var deck := states[from + 1].deck;
    WithinDeck(states, picks, from + 1, from + |deck|);
    Window(picks, from, deck);
  }

  /** The states at which a new set of draws begins: a fresh deal with the
      cursor at 0, or an exhausted deck that the next click reshuffles. */
  predicate CycleStart(e: Engine)
  {
    Ready(e) && ((e.index == Int(0) && multiset(e.deck) == multiset(GIFTS)) || Exhausted(e))
  }

  /** From a cycle start, as many steps as the catalog has gifts hand out a
      permutation of the catalog and end on an exhausted deck. */
  lemma Cycle(states: seq<Engine>, picks: seq<Gift>, from: nat)
    requires Advances(states, picks) && Deals(states, picks)
    requires from + |GIFTS| <= |picks| && CycleStart(states[from])
    ensures multiset(picks[from..from + |GIFTS|]) == multiset(GIFTS)
    ensures CycleStart(states[from + |GIFTS|]) && Exhausted(states[from + |GIFTS|])
  {
    if Exhausted(states[from]) {
      assert DealAt(states, picks, from);
      ReshuffleCycle(states, picks, from);
    } else {
      DeckLength(states[from].deck);
      DeckCycle(states, picks, from);
    }
  }

  /** A full cycle: from a cycle start, as many draws as the catalog has gifts
      hand out every catalog gift exactly once and leave an exhausted state. */
  lemma FullCycle(states: seq<Engine>, os: seq<Oracle>, picks: seq<Gift>, from: nat)
    requires IsRun(states, os, picks) && from + |GIFTS| <= |os|
    requires CycleStart(states[from])
    ensures multiset(picks[from..from + |GIFTS|]) == multiset(GIFTS)
    ensures CycleStart(states[from + |GIFTS|]) && Exhausted(states[from + |GIFTS|])
  {
    RunAdvances(states, os, picks);
    RunDeals(states, os, picks);
    Cycle(states, picks, from);
  }

  lemma TwoHalves<T>(p: seq<T>, n: nat, m: multiset<T>)
    requires |p| == 2 * n && multiset(p[0..n]) == m && multiset(p[n..2 * n]) == m
    ensures multiset(p) == m + m
  {
    assert p == p[0..n] + p[n..2 * n];
  }

  /** Two full cycles from a cycle start draw every catalog gift exactly twice. */
  lemma TwoCycles(states: seq<Engine>, os: seq<Oracle>, picks: seq<Gift>)
    requires IsRun(states, os, picks) && |os| == 2 * |GIFTS|
    requires CycleStart(states[0])
    ensures forall g :: g in GIFTS ==> multiset(picks)[g] == 2
  {
    var n := |GIFTS|;
    RunAdvances(states, os, picks);
    RunDeals(states, os, picks);
    Cycle(states, picks, 0);
    Cycle(states, picks, n);
    TwoHalves(picks, n, multiset(GIFTS));
    CatalogSingleCopies();
  }
}
