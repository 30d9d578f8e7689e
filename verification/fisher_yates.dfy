/**
 * The Fisher–Yates shuffle the app uses to deal a fresh deck. The random
 * source is abstracted as an oracle: at step `i` it yields an index in
 * `[0, i]`, which is all the source's float-to-index conversion guarantees.
 */
module FisherYates {

  /** The random choice made at each step: `o(i)` is the partner position of `i`. */
  type Oracle = nat -> nat

  /** The oracle never picks a position above the one being filled. */
  ghost predicate ValidOracle(o: Oracle)
  {
    forall i: nat :: o(i) <= i
  }

  /** Exchanges the entries at `i` and `j`, as the destructuring assignment does. */
  function Swap<T>(s: seq<T>, i: nat, j: nat): (r: seq<T>)
    requires i < |s| && j < |s|
    ensures |r| == |s| && r[i] == s[j] && r[j] == s[i]
    ensures forall k :: 0 <= k < |s| && k != i && k != j ==> r[k] == s[k]
  {
    s[i := s[j]][j := s[i]]
  }

  lemma SwapPermutes<T>(s: seq<T>, i: nat, j: nat)
    requires i < |s| && j < |s|
    ensures multiset(Swap(s, i, j)) == multiset(s)
  {
    var t := s[i := s[j]];
    assert multiset(t) == multiset(s) - multiset{s[i]} + multiset{s[j]};
  }

  /** The loop from position `i` down to 1: each step swaps `i` with `o(i)`. */
  function Steps<T>(s: seq<T>, i: nat, o: Oracle): (r: seq<T>)
    requires i < |s| && ValidOracle(o)
    ensures |r| == |s|
    decreases i
  {
    if i == 0 then s else Steps(Swap(s, i, o(i)), i - 1, o)
  }

  lemma {:induction false} StepsPermutes<T>(s: seq<T>, i: nat, o: Oracle)
    requires i < |s| && ValidOracle(o)
    ensures multiset(Steps(s, i, o)) == multiset(s)
    decreases i
  {
    if i > 0 {
      SwapPermutes(s, i, o(i));
      StepsPermutes(Swap(s, i, o(i)), i - 1, o);
    }
  }

  /** The shuffled copy: the loop runs from the last position down to 1;
      a sequence of length 0 or 1 comes back as it is. The result is a
      permutation of the input. */
  function Shuffle<T>(a: seq<T>, o: Oracle): (r: seq<T>)
    requires ValidOracle(o)
    ensures |r| == |a|
    ensures multiset(r) == multiset(a)
  {
    if a == [] then a
    else
      StepsPermutes(a, |a| - 1, o);
      Steps(a, |a| - 1, o)
  }

  /** Every permutation of the input is the result of some valid oracle:
      no arrangement is out of the shuffle's reach. */
  lemma ShuffleReaches<T>(a: seq<T>, p: seq<T>)
    requires multiset(p) == multiset(a)
    ensures exists o :: ValidOracle(o) && Shuffle(a, o) == p
  {
    if a == [] {
      var o: Oracle := k => 0;
      assert ValidOracle(o) && Shuffle(a, o) == p;
    } else {
      var n := |a| - 1;
      assert |p| == |multiset(p)| == |a|;
      assert a[..n + 1] == a && p[..n + 1] == p;
      var o := StepsReach(a, n, p);
      assert ValidOracle(o) && Shuffle(a, o) == p;
    }
  }

  /** The steps from `i` down to 1 can turn `s` into any `p` that agrees with
      `s` above `i` and holds the same entries at or below `i`; the oracle is
      built from the top: step `i` fetches `p[i]` from wherever it lies in
      the prefix, and later steps never touch position `i` again. */
  lemma {:induction false} StepsReach<T>(s: seq<T>, i: nat, p: seq<T>) returns (o: Oracle)
    requires i < |s| == |p|
    requires multiset(s[..i + 1]) == multiset(p[..i + 1]) && s[i + 1..] == p[i + 1..]
    ensures ValidOracle(o) && Steps(s, i, o) == p
    decreases i
  {
    if i == 0 {
      o := ReachAtZero(s, p);
    } else {
      assert p[i] in multiset(p[..i + 1]);
      var j := Locate(s, i, p[i]);
      FetchToTop(s, i, j, p);
      var t := Swap(s, i, j);
      var o' := StepsReach(t, i - 1, p);
      OverrideStep(s, i, j, o');
      o := Override(o', i, j);
    }
  }

  /** With nothing left to swap, `s` must already be `p`. */
  lemma ReachAtZero<T>(s: seq<T>, p: seq<T>) returns (o: Oracle)
    requires 0 < |s| == |p| && multiset(s[..1]) == multiset(p[..1]) && s[1..] == p[1..]
    ensures ValidOracle(o) && Steps(s, 0, o) == p
  {
    SameHead(s, p);
    o := k => 0;
  }

  /** The oracle `o` with its choice at position `i` replaced by `j`. */
  function Override(o: Oracle, i: nat, j: nat): Oracle
  {
    k => if k == i then j else o(k)
  }

  /** Choosing `j` at step `i` and following `o` below it: the first step
      swaps `i` with `j`, and the rest is the run of `o` from `i - 1`. */
  lemma OverrideStep<T>(s: seq<T>, i: nat, j: nat, o: Oracle)
    requires 0 < i < |s| && j <= i && ValidOracle(o)
    ensures ValidOracle(Override(o, i, j))
    ensures Steps(s, i, Override(o, i, j)) == Steps(Swap(s, i, j), i - 1, o)
  {
    StepsAgree(Swap(s, i, j), i - 1, Override(o, i, j), o);
  }

  /** Sequences that agree after their first entry and hold the same first
      entry (as a one-element multiset) are equal. */
  lemma SameHead<T>(s: seq<T>, p: seq<T>)
    requires 0 < |s| == |p| && multiset(s[..1]) == multiset(p[..1]) && s[1..] == p[1..]
    ensures s == p
  {
    assert s[..1] == [s[0]] && p[..1] == [p[0]];
    assert s[0] in multiset(p[..1]);
    assert s == [s[0]] + s[1..] && p == [p[0]] + p[1..];
  }

  /** A position at or below `i` where `x` lies, given that it lies in that prefix. */
  lemma Locate<T>(s: seq<T>, i: nat, x: T) returns (j: nat)
    requires i < |s| && x in multiset(s[..i + 1])
    ensures j <= i && s[j] == x
  {
    assert x in s[..i + 1];
    j :| 0 <= j <= i && s[j] == x;
  }

  /** Fetching `p[i]` into position `i` leaves a prefix that holds the same
      entries as `p[..i]` and a suffix equal to `p[i..]`. */
  lemma FetchToTop<T>(s: seq<T>, i: nat, j: nat, p: seq<T>)
    requires j <= i < |s| == |p| && s[j] == p[i]
    requires multiset(s[..i + 1]) == multiset(p[..i + 1]) && s[i + 1..] == p[i + 1..]
    ensures multiset(Swap(s, i, j)[..i]) == multiset(p[..i]) && Swap(s, i, j)[i..] == p[i..]
  {
    var t := Swap(s, i, j);
    assert t[..i + 1] == Swap(s[..i + 1], i, j);
    SwapPermutes(s[..i + 1], i, j);
    DropLast(t, p, i);
    assert t[i..] == [p[i]] + s[i + 1..] && p[i..] == [p[i]] + p[i + 1..];
  }

  /** Two prefixes with the same entries and the same last entry hold the
      same entries without it. */
  lemma DropLast<T>(u: seq<T>, v: seq<T>, i: nat)
    requires i < |u| && i < |v| && u[i] == v[i] && multiset(u[..i + 1]) == multiset(v[..i + 1])
    ensures multiset(u[..i]) == multiset(v[..i])
  {
    assert u[..i + 1] == u[..i] + [u[i]] && v[..i + 1] == v[..i] + [v[i]];
    var a, b := multiset(u[..i]), multiset(v[..i]);
    forall y ensures a[y] == b[y] {
      assert (a + multiset{u[i]})[y] == (b + multiset{u[i]})[y];
    }
  }

  /** The steps from `i` down read the oracle only at positions 1 to `i`. */
  lemma {:induction false} StepsAgree<T>(s: seq<T>, i: nat, o1: Oracle, o2: Oracle)
    requires i < |s| && ValidOracle(o1) && ValidOracle(o2)
    requires forall k :: 1 <= k <= i ==> o1(k) == o2(k)
    ensures Steps(s, i, o1) == Steps(s, i, o2)
    decreases i
  {
    if i > 0 {
      StepsAgree(Swap(s, i, o1(i)), i - 1, o1, o2);
    }
  }

  /** The loop as the source writes it, on a copy of the input (the caller's
      sequence is a value and is never changed). */
  method ShuffleGifts<T>(a: seq<T>, o: Oracle) returns (shuffled: seq<T>)
    requires ValidOracle(o)
    ensures shuffled == Shuffle(a, o)
    ensures |shuffled| == |a| && multiset(shuffled) == multiset(a)
  {
    shuffled := a;
    var i := |a| - 1;
    while i > 0
      invariant -1 <= i < |a|
      invariant i < 0 ==> a == []
      invariant |shuffled| == |a|
      invariant i >= 0 ==> Steps(shuffled, i, o) == Shuffle(a, o)
    {
      var j := o(i);
      ghost var before := shuffled;
      shuffled := Swap(shuffled, i, j);
      i := i - 1;
      assert Steps(before, i + 1, o) == Steps(shuffled, i, o);
    }
  }
}
