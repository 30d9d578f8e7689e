/**
 * The fixed gift catalog and the screen enumeration of the gift-draw app.
 * Gifts are compared by their `id`; the catalog lists seven gifts whose ids
 * are pairwise distinct, so a permutation of the catalog is a permutation of
 * its ids.
 */
module Catalog {
  import opened Wrappers

  /** The screens the app moves between; each is stored as its own name. */
  datatype AppState = Intro | WorkshopPan | Dialogue | Gacha | Result

  /** The string value each screen carries in the source enumeration. */
  function StateName(s: AppState): string
  {
    match s
    case Intro => "INTRO"
    case WorkshopPan => "WORKSHOP_PAN"
    case Dialogue => "DIALOGUE"
    case Gacha => "GACHA"
    case Result => "RESULT"
  }

  /** Looks a screen up by its string value. The app never does this (a
      string enumeration has no reverse lookup); it is the inverse through
      which `AppStateNames` states that the five names are distinct. */
  function StateFromName(name: string): (r: Option<AppState>)
    ensures r.Some? ==> StateName(r.value) == name
  {
    if name == "INTRO" then Some(Intro)
    else if name == "WORKSHOP_PAN" then Some(WorkshopPan)
    else if name == "DIALOGUE" then Some(Dialogue)
    else if name == "GACHA" then Some(Gacha)
    else if name == "RESULT" then Some(Result)
    else None
  }

  /** Every screen is one of five, the five names are distinct, and each
      name reads back as its screen. */
  lemma AppStateNames(s: AppState, t: AppState)
    ensures s in {Intro, WorkshopPan, Dialogue, Gacha, Result}
    ensures StateName(s) == StateName(t) ==> s == t
    ensures StateFromName(StateName(s)) == Some(s)
  {
  }

  /** One catalog entry. */
  datatype Gift = Gift(id: string, name: string, color: string, hex: string, emoji: string, description: string)

  const GIFTS: seq<Gift> := [
    Gift("red", "Reindeer’s Red Fake Nose", "Red", "#ff4d4d", "🔴",
         "A fake nose the reindeer accidentally dropped while delivering gifts."),
    Gift("blue", "Santa’s Signed Hat", "Blue", "#4d94ff", "🎅🏼",
         "A hat personally signed by Santa himself."),
    Gift("green", "Elf’s Staff ID", "Green", "#4dff88", "🪪",
         "An official access pass that allows entry into Santa’s secret workshop areas."),
    Gift("purple", "Grandma Claus’ Secret Pie Slice", "Purple", "#b366ff", "🥧",
         "A secretly saved pie slice made by Grandma Claus."),
    Gift("pink", "North Pole Daily News", "Pink", "#ff80bf", "📰",
         "The daily newspaper from the North Pole, featuring workshop headlines."),
    Gift("yellow", "Squirrel’s Mini Festive Tree", "Yellow", "#ffff4d", "🎄",
         "A tiny decorated Christmas tree carried by a festive squirrel."),
    Gift("white", "Polar Bear’s Red Scarf", "White", "#ffffff", "🧣",
         "A warm red scarf belonging to a polar bear.")
  ]

  predicate IsHexDigit(c: char)
  {
    ('0' <= c <= '9') || ('a' <= c <= 'f') || ('A' <= c <= 'F')
  }

  /** A CSS colour of the form `#rrggbb`. */
  predicate IsHexColor(s: string)
  {
    |s| == 7 && s[0] == '#' && forall k :: 1 <= k < 7 ==> IsHexDigit(s[k])
  }

  /** No two entries share an id. */
  predicate DistinctIds(s: seq<Gift>)
  {
    forall a, b :: 0 <= a < b < |s| ==> s[a].id != s[b].id
  }

  /** The set of ids occurring in a gift sequence. */
  function IdSet(s: seq<Gift>): set<string>
  {
    if s == [] then {} else {s[0].id} + IdSet(s[1..])
  }

  lemma {:induction false} IdSetMembership(s: seq<Gift>, x: string)
    ensures x in IdSet(s) <==> exists k :: 0 <= k < |s| && s[k].id == x
  {
    if s != [] {
      IdSetMembership(s[1..], x);
      if x in IdSet(s[1..]) {
        var k :| 0 <= k < |s[1..]| && s[1..][k].id == x;
        assert s[k + 1].id == x;
      }
      if exists k :: 0 <= k < |s| && s[k].id == x {
        var k :| 0 <= k < |s| && s[k].id == x;
        if k > 0 {
          assert s[1..][k - 1].id == x;
        }
      }
    }
  }

  /** With distinct ids, a sequence has exactly as many ids as entries. */
  lemma {:induction false} DistinctIdCount(s: seq<Gift>)
    requires DistinctIds(s)
    ensures |IdSet(s)| == |s|
  {
    if s != [] {
      DistinctIdCount(s[1..]);
      IdSetMembership(s[1..], s[0].id);
      forall k | 0 <= k < |s[1..]|
        ensures s[1..][k].id != s[0].id
      {
        assert s[1..][k] == s[k + 1];
      }
    }
  }

  /** The catalog has seven gifts. */
  lemma CatalogSize()
    ensures |GIFTS| == 7
  {
  }

  /** No two catalog gifts share an id. */
  lemma CatalogDistinct()
    ensures DistinctIds(GIFTS)
  {
    assert "blue"[0] != "pink"[0] && "green"[0] != "white"[0] && "purple"[0] != "yellow"[0];
  }

  /** The catalog ids are red, blue, green, purple, pink, yellow and white. */
  lemma CatalogIds()
    ensures IdSet(GIFTS) == {"red", "blue", "green", "purple", "pink", "yellow", "white"}
  {
    assert IdSet(GIFTS[6..]) == {"white"};
    assert IdSet(GIFTS[5..]) == {"yellow", "white"};
    assert IdSet(GIFTS[4..]) == {"pink", "yellow", "white"};
    assert IdSet(GIFTS[3..]) == {"purple", "pink", "yellow", "white"};
    assert IdSet(GIFTS[2..]) == {"green", "purple", "pink", "yellow", "white"};
    assert IdSet(GIFTS[1..]) == {"blue", "green", "purple", "pink", "yellow", "white"};
  }

  lemma {:induction false} SingleCopies(s: seq<Gift>, g: Gift)
    requires DistinctIds(s) && g in s
    ensures multiset(s)[g] == 1
  {
    assert s == [s[0]] + s[1..];
    if s[0] == g {
      forall k | 0 <= k < |s[1..]|
        ensures s[1..][k] != g
      {
        assert s[1..][k] == s[k + 1];
      }
    } else {
      assert DistinctIds(s[1..]) by {
        forall a, b | 0 <= a < b < |s[1..]|
          ensures s[1..][a].id != s[1..][b].id
        {
          assert s[1..][a] == s[a + 1] && s[1..][b] == s[b + 1];
        }
      }
      SingleCopies(s[1..], g);
    }
  }

  /** Each catalog gift occurs in the catalog exactly once. */
  lemma CatalogSingleCopies()
    ensures forall g :: g in GIFTS ==> multiset(GIFTS)[g] == 1
  {
    CatalogDistinct();
    forall g | g in GIFTS
      ensures multiset(GIFTS)[g] == 1
    {
      SingleCopies(GIFTS, g);
    }
  }

  /** Every catalog colour is `#` followed by six hex digits. */
  lemma CatalogColors()
    ensures forall k :: 0 <= k < |GIFTS| ==> IsHexColor(GIFTS[k].hex)
  {
  }

  /** The catalog holds seven distinct ids. */
  lemma CatalogIdCount()
    ensures |IdSet(GIFTS)| == 7
  {
    CatalogSize();
    CatalogDistinct();
    DistinctIdCount(GIFTS);
  }

  /** Every entry's id is among the ids of the sequence. */
  lemma MemberIds(s: seq<Gift>)
    ensures forall g :: g in s ==> g.id in IdSet(s)
  {
    forall g | g in s
      ensures g.id in IdSet(s)
    {
      IdSetMembership(s, g.id);
    }
  }
}
