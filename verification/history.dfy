/**
 * The "collected" log: the gifts drawn so far, newest first, one entry per
 * id, at most seven entries; and the two display values derived from it.
 */
module History {
  import opened Catalog

  /** The length the log is cut to after every draw. */
  const HISTORY_CAP: nat := 7

  /** Some entry of `history` has the id of `g` (the lookup `find`/`some` by id). */
  predicate IsCollected(history: seq<Gift>, g: Gift)
  {
    exists k :: 0 <= k < |history| && history[k].id == g.id
  }

  function Min(a: nat, b: nat): nat
  {
    if a <= b then a else b
  }

  /** Records a drawn gift: a gift whose id is already logged leaves the log
      as it is, otherwise the gift goes in front; then the log is cut to the cap. */
  function RecordHistory(prev: seq<Gift>, draw: Gift): (r: seq<Gift>)
    ensures |r| <= HISTORY_CAP
    ensures |r| == Min(if IsCollected(prev, draw) then |prev| else |prev| + 1, HISTORY_CAP)
    ensures IsCollected(prev, draw) ==> r == prev[..|r|]
    ensures !IsCollected(prev, draw) ==> r[0] == draw && r[1..] == prev[..|r| - 1]
    ensures |prev| <= HISTORY_CAP ==> IsCollected(r, draw)
    ensures DistinctIds(prev) ==> DistinctIds(r)
    ensures forall g :: g in r ==> g in prev || g == draw
  {
    var newHist := if IsCollected(prev, draw) then prev else [draw] + prev;
    assert ([draw] + prev)[1..] == prev;
    newHist[..Min(|newHist|, HISTORY_CAP)]
  }

  /** A log the app can have written: within the cap, one entry per id, and
      only catalog gifts. */
  predicate HistoryOk(h: seq<Gift>)
  {
    && |h| <= HISTORY_CAP
    && DistinctIds(h)
    && forall g :: g in h ==> g in GIFTS
  }

  /** Recording is idempotent: drawing the same gift twice in a row logs it once. */
  lemma RecordHistoryIdempotent(h: seq<Gift>, g: Gift)
    requires |h| <= HISTORY_CAP
    ensures RecordHistory(RecordHistory(h, g), g) == RecordHistory(h, g)
  {
  }

  lemma CollectedIsIdMember(h: seq<Gift>, g: Gift)
    ensures IsCollected(h, g) <==> g.id in IdSet(h)
  {
    IdSetMembership(h, g.id);
  }

  /** A log whose entries all come from `c` only holds ids of `c`. */
  lemma {:induction false} LogIdsWithin(h: seq<Gift>, c: seq<Gift>)
    requires forall g :: g in h ==> g in c
    ensures IdSet(h) <= IdSet(c)
  {
    MemberIds(c);
    forall x | x in IdSet(h)
      ensures x in IdSet(c)
    {
      IdSetMembership(h, x);
      var k :| 0 <= k < |h| && h[k].id == x;
      assert h[k] in h;
    }
  }

  lemma {:induction false} SubsetCard<X>(a: set<X>, b: set<X>)
    requires a <= b
    ensures |a| <= |b|
    decreases |b|
  {
    if a != {} {
      var x :| x in a;
      SubsetCard(a - {x}, b - {x});
    }
  }

  /** Pigeonhole: a log of distinct ids taken from `ids` that lacks one of
      them is shorter than `ids`. */
  lemma RoomForNewId(h: seq<Gift>, ids: set<string>, x: string)
    requires DistinctIds(h) && IdSet(h) <= ids
    requires x in ids && x !in IdSet(h)
    ensures |h| < |ids|
  {
    DistinctIdCount(h);
    SubsetCard(IdSet(h), ids - {x});
  }

  /** On a log of catalog gifts the cap never discards anything: after a
      catalog draw the log holds exactly the ids it held plus the new one, and
      it grows by one exactly when the id was new. */
  lemma RecordKeepsEveryId(h: seq<Gift>, g: Gift)
    requires HistoryOk(h) && g in GIFTS
    ensures IdSet(RecordHistory(h, g)) == IdSet(h) + {g.id}
    ensures |RecordHistory(h, g)| == if IsCollected(h, g) then |h| else |h| + 1
    ensures HistoryOk(RecordHistory(h, g))
  {
    CatalogIdCount();
    MemberIds(GIFTS);
    LogIdsWithin(h, GIFTS);
    RecordWithinCatalog(h, g, IdSet(GIFTS));
  }

  lemma RecordWithinCatalog(h: seq<Gift>, g: Gift, ids: set<string>)
    requires |h| <= HISTORY_CAP && DistinctIds(h) && |ids| <= HISTORY_CAP
    requires IdSet(h) <= ids && g.id in ids
    ensures IdSet(RecordHistory(h, g)) == IdSet(h) + {g.id}
    ensures |RecordHistory(h, g)| == if IsCollected(h, g) then |h| else |h| + 1
  {
    var r := RecordHistory(h, g);
    CollectedIsIdMember(h, g);
    if IsCollected(h, g) {
      assert r == h;
    } else {
      RoomForNewId(h, ids, g.id);
      assert r == [g] + h;
    }
  }

  /** The number of catalog tiles shown as collected: none exactly when no
      tile is, all exactly when every tile is. */
  function CountCollected(catalog: seq<Gift>, history: seq<Gift>): (n: nat)
    ensures n <= |catalog|
    ensures n == 0 <==> forall k :: 0 <= k < |catalog| ==> !IsCollected(history, catalog[k])
    ensures n == |catalog| <==> forall k :: 0 <= k < |catalog| ==> IsCollected(history, catalog[k])
  {
    if catalog == [] then 0
    else (if IsCollected(history, catalog[0]) then 1 else 0) + CountCollected(catalog[1..], history)
  }

  lemma {:induction false} CountCollectedIsIdOverlap(catalog: seq<Gift>, history: seq<Gift>)
    requires DistinctIds(catalog)
    ensures CountCollected(catalog, history) == |IdSet(catalog) * IdSet(history)|
  {
    if catalog != [] {
      var rest := catalog[1..];
      assert DistinctIds(rest) by {
        forall a, b | 0 <= a < b < |rest|
          ensures rest[a].id != rest[b].id
        {
          assert rest[a] == catalog[a + 1] && rest[b] == catalog[b + 1];
        }
      }
      CountCollectedIsIdOverlap(rest, history);
      CollectedIsIdMember(history, catalog[0]);
      IdSetMembership(rest, catalog[0].id);
      forall k | 0 <= k < |rest|
        ensures rest[k].id != catalog[0].id
      {
        assert rest[k] == catalog[k + 1];
      }
      OverlapCons(catalog[0].id, IdSet(rest), IdSet(history));
      assert IdSet(catalog) == {catalog[0].id} + IdSet(rest);
    }
  }

  lemma OverlapCons(x: string, r: set<string>, b: set<string>)
    requires x !in r
    ensures |({x} + r) * b| == (if x in b then 1 else 0) + |r * b|
  {
    assert ({x} + r) * b == ({x} * b) + (r * b);
    assert ({x} * b) !! (r * b);
    if x in b {
      assert {x} * b == {x};
    } else {
      assert {x} * b == {};
    }
  }

  /** The "Collection: N/7" counter equals the number of catalog tiles shown
      as collected. */
  lemma CollectionCountMatchesTiles(h: seq<Gift>)
    requires HistoryOk(h)
    ensures CountCollected(GIFTS, h) == |h|
  {
    CatalogDistinct();
    LogIdsWithin(h, GIFTS);
    CountOverCatalog(GIFTS, h);
  }

  lemma CountOverCatalog(catalog: seq<Gift>, h: seq<Gift>)
    requires DistinctIds(catalog) && DistinctIds(h) && IdSet(h) <= IdSet(catalog)
    ensures CountCollected(catalog, h) == |h|
  {
    CountCollectedIsIdOverlap(catalog, h);
    assert IdSet(catalog) * IdSet(h) == IdSet(h);
    DistinctIdCount(h);
  }
}
