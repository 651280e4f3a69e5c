/** Counting and ranking as `collections.Counter` does it for the dashboard:
    the keys of a Counter in the order they were first met, each key's
    number of occurrences, and `most_common(n)`, which lists keys by
    decreasing count and keeps first-met order among equal counts (it is a
    stable sort of the keys by count). */
module Ranking {

  /** How often `x` occurs in `xs`. */
  function Count(xs: seq<string>, x: string): nat
  {
    multiset(xs)[x]
  }

  /** The distinct values of `xs`: `set(xs)`. */
  function Distinct(xs: seq<string>): set<string>
  {
    set x | x in xs
  }

  /** No value occurs twice. */
  predicate NoDuplicates(xs: seq<string>)
  {
    forall i, j :: 0 <= i < j < |xs| ==> xs[i] != xs[j]
  }

  /** The position where `x` first occurs in `xs` (`|xs|` when it does not). */
  function FirstIndex(xs: seq<string>, x: string): nat
  {
    if xs == [] then 0
    else
      var init := xs[..|xs| - 1];
      if x in init then FirstIndex(init, x)
      else if xs[|xs| - 1] == x then |xs| - 1
      else |xs|
  }

  /** The first occurrence of a value is where it is, and nowhere before. */
  lemma {:induction false} FirstIndexSpec(xs: seq<string>, x: string)
    requires x in xs
    ensures FirstIndex(xs, x) < |xs| && xs[FirstIndex(xs, x)] == x
    ensures forall j :: 0 <= j < FirstIndex(xs, x) ==> xs[j] != x
    decreases |xs|
  {
    var init := xs[..|xs| - 1];
    if x in init {
      FirstIndexSpec(init, x);
    } else {
      assert xs == init + [xs[|xs| - 1]];
    }
  }

  /** The keys of `Counter(xs)`, in the order they were first met. */
  function Keys(xs: seq<string>): seq<string>
  {
    if xs == [] then []
    else
      var init := xs[..|xs| - 1];
      if xs[|xs| - 1] in init then Keys(init) else Keys(init) + [xs[|xs| - 1]]
  }

  /** The keys are the distinct values of `xs`, each once, ordered by first occurrence. */
  lemma {:induction false} KeysSpec(xs: seq<string>)
    ensures forall x :: x in Keys(xs) <==> x in xs
    ensures NoDuplicates(Keys(xs))
    ensures forall i, j :: 0 <= i < j < |Keys(xs)| ==> FirstIndex(xs, Keys(xs)[i]) < FirstIndex(xs, Keys(xs)[j])
    decreases |xs|
  {
    if xs != [] {
      var init := xs[..|xs| - 1];
      var last := xs[|xs| - 1];
      assert xs == init + [last];
      KeysSpec(init);
      var k0 := Keys(init);
      forall i | 0 <= i < |k0|
        ensures FirstIndex(xs, k0[i]) == FirstIndex(init, k0[i]) < |init|
      {
        FirstIndexSpec(init, k0[i]);
      }
    }
  }

  /** A sequence without duplicates has as many distinct values as elements. */
  lemma {:induction false} DistinctOfNoDuplicates(xs: seq<string>)
    requires NoDuplicates(xs)
    ensures |Distinct(xs)| == |xs|
    decreases |xs|
  {
    if xs != [] {
      var init := xs[..|xs| - 1];
      var last := xs[|xs| - 1];
      assert xs == init + [last];
      DistinctOfNoDuplicates(init);
      assert Distinct(xs) == Distinct(init) + {last};
      assert last !in Distinct(init);
    }
  }

  /** There are exactly as many keys as distinct values, and never more than values. */
  lemma KeysCount(xs: seq<string>)
    ensures |Keys(xs)| == |Distinct(xs)| <= |xs|
  {
    KeysSpec(xs);
    DistinctOfNoDuplicates(Keys(xs));
    assert Distinct(Keys(xs)) == Distinct(xs);
    KeysShorter(xs);
  }

  lemma {:induction false} KeysShorter(xs: seq<string>)
    ensures |Keys(xs)| <= |xs|
    decreases |xs|
  {
    if xs != [] {
      KeysShorter(xs[..|xs| - 1]);
    }
  }

  /** One row of `most_common`: a key and its count. */
  datatype Tally = Tally(item: string, count: nat)

  /** The pairs of `Counter(xs).items()`, in key order. */
  function Tallies(xs: seq<string>): seq<Tally>
  {
    var keys := Keys(xs);
    seq(|keys|, i requires 0 <= i < |keys| => Tally(keys[i], Count(xs, keys[i])))
  }

  /** The order `most_common` produces: a higher count first, and among equal
      counts the key met first in `xs`. */
  predicate Before(xs: seq<string>, a: Tally, b: Tally)
  {
    a.count > b.count || (a.count == b.count && FirstIndex(xs, a.item) < FirstIndex(xs, b.item))
  }

  /** The tally is a true count of a value of `xs`. */
  predicate Counted(xs: seq<string>, t: Tally)
  {
    t.item in xs && t.count == Count(xs, t.item)
  }

  /** Every tally is a true count, and no key is listed twice. */
  predicate WellCounted(xs: seq<string>, ts: seq<Tally>)
  {
    && (forall i :: 0 <= i < |ts| ==> Counted(xs, ts[i]))
    && (forall i, j :: 0 <= i < j < |ts| ==> ts[i].item != ts[j].item)
  }

  /** Ordered by `Before`, every earlier pair before every later one. */
  predicate Ranked(xs: seq<string>, ts: seq<Tally>)
  {
    forall i, j :: 0 <= i < j < |ts| ==> Before(xs, ts[i], ts[j])
  }

  /** Two true counts of different keys are ordered one way or the other. */
  lemma BeforeTotal(xs: seq<string>, a: Tally, b: Tally)
    requires Counted(xs, a) && Counted(xs, b) && a.item != b.item
    ensures Before(xs, a, b) || Before(xs, b, a)
  {
    FirstIndexSpec(xs, a.item);
    FirstIndexSpec(xs, b.item);
  }

  /** Put `t` into a ranked list at its place. */
  function Insert(xs: seq<string>, t: Tally, ts: seq<Tally>): seq<Tally>
  {
    if ts == [] then [t]
    else if Before(xs, t, ts[0]) then [t] + ts
    else [ts[0]] + Insert(xs, t, ts[1..])
  }

  /** A tally placed before every tally of a ranked list keeps it ranked. */
  lemma RankedCons(xs: seq<string>, h: Tally, ts: seq<Tally>)
    requires Ranked(xs, ts)
    requires forall k :: 0 <= k < |ts| ==> Before(xs, h, ts[k])
    ensures Ranked(xs, [h] + ts)
  {
    var r := [h] + ts;
    forall i, j | 0 <= i < j < |r|
      ensures Before(xs, r[i], r[j])
    {
      assert r[j] == ts[j - 1];
      if i > 0 {
        assert r[i] == ts[i - 1];
      }
    }
  }

  /** A true count of a new key keeps a list well counted. */
  lemma WellCountedCons(xs: seq<string>, h: Tally, ts: seq<Tally>)
    requires WellCounted(xs, ts) && Counted(xs, h)
    requires forall k :: 0 <= k < |ts| ==> ts[k].item != h.item
    ensures WellCounted(xs, [h] + ts)
  {
    var r := [h] + ts;
    forall i | 0 < i < |r|
      ensures Counted(xs, r[i]) && r[i].item != h.item
    {
      assert r[i] == ts[i - 1];
    }
    forall i, j | 0 < i < j < |r|
      ensures r[i].item != r[j].item
    {
      assert r[i] == ts[i - 1] && r[j] == ts[j - 1];
    }
  }

  lemma {:induction false} InsertSpec(xs: seq<string>, t: Tally, ts: seq<Tally>)
    requires WellCounted(xs, ts) && Ranked(xs, ts) && Counted(xs, t)
    requires forall i :: 0 <= i < |ts| ==> ts[i].item != t.item
    ensures multiset(Insert(xs, t, ts)) == multiset(ts) + multiset{t}
    ensures WellCounted(xs, Insert(xs, t, ts)) && Ranked(xs, Insert(xs, t, ts))
    decreases |ts|, 1
  {
    if ts == [] {
      assert Insert(xs, t, ts) == [t];
    } else if Before(xs, t, ts[0]) {
      forall k | 0 <= k < |ts|
        ensures Before(xs, t, ts[k])
      {
        if k > 0 {
          assert Before(xs, ts[0], ts[k]);
        }
      }
      RankedCons(xs, t, ts);
      WellCountedCons(xs, t, ts);
    } else {
      InsertBehind(xs, t, ts);
    }
  }

  /** Inserting behind the head of the list: the head stays first. */
  lemma {:induction false} InsertBehind(xs: seq<string>, t: Tally, ts: seq<Tally>)
    requires WellCounted(xs, ts) && Ranked(xs, ts) && Counted(xs, t)
    requires forall i :: 0 <= i < |ts| ==> ts[i].item != t.item
    requires ts != [] && !Before(xs, t, ts[0])
    ensures multiset(Insert(xs, t, ts)) == multiset(ts) + multiset{t}
    ensures WellCounted(xs, Insert(xs, t, ts)) && Ranked(xs, Insert(xs, t, ts))
    decreases |ts|, 0
  {
    BeforeTotal(xs, t, ts[0]);
    var rest := ts[1..];
    assert ts == [ts[0]] + rest;
    assert WellCounted(xs, rest) && Ranked(xs, rest);
    InsertSpec(xs, t, rest);
    var ins := Insert(xs, t, rest);
    forall k | 0 <= k < |ins|
      ensures Before(xs, ts[0], ins[k]) && ins[k].item != ts[0].item
    {
      assert ins[k] in multiset(ins);
      if ins[k] != t {
        assert ins[k] in multiset(rest);
        var m :| 0 <= m < |rest| && rest[m] == ins[k];
        assert ts[m + 1] == ins[k];
      }
    }
    RankedCons(xs, ts[0], ins);
    WellCountedCons(xs, ts[0], ins);
  }

  /** Insertion sort by `Before`. */
  function Sort(xs: seq<string>, ts: seq<Tally>): seq<Tally>
  {
    if ts == [] then [] else Insert(xs, ts[0], Sort(xs, ts[1..]))
  }

  lemma {:induction false} SortSpec(xs: seq<string>, ts: seq<Tally>)
    requires WellCounted(xs, ts)
    ensures multiset(Sort(xs, ts)) == multiset(ts)
    ensures WellCounted(xs, Sort(xs, ts)) && Ranked(xs, Sort(xs, ts))
    decreases |ts|
  {
    if ts != [] {
      var rest := ts[1..];
      assert ts == [ts[0]] + rest;
      SortSpec(xs, rest);
      var sorted := Sort(xs, rest);
      forall i | 0 <= i < |sorted|
        ensures sorted[i].item != ts[0].item
      {
        assert sorted[i] in multiset(rest);
        var m :| 0 <= m < |rest| && rest[m] == sorted[i];
        assert ts[m + 1] == sorted[i];
      }
      InsertSpec(xs, ts[0], sorted);
    }
  }

  /** The pairs of the Counter are true counts of distinct keys, and every
      value of `xs` has one. */
  lemma TalliesSpec(xs: seq<string>)
    ensures WellCounted(xs, Tallies(xs))
    ensures forall x :: x in xs ==> Tally(x, Count(xs, x)) in Tallies(xs)
    ensures |Tallies(xs)| == |Distinct(xs)|
  {
    KeysSpec(xs);
    KeysCount(xs);
    var keys, ts := Keys(xs), Tallies(xs);
    forall x | x in xs
      ensures Tally(x, Count(xs, x)) in ts
    {
      var i :| 0 <= i < |keys| && keys[i] == x;
      assert ts[i] == Tally(x, Count(xs, x));
    }
  }

  /** All keys of `Counter(xs)`, ranked. */
  function RankAll(xs: seq<string>): seq<Tally>
  {
    Sort(xs, Tallies(xs))
  }

  /** The whole ranking lists every distinct value once, with its true count. */
  lemma RankAllSpec(xs: seq<string>)
    ensures |RankAll(xs)| == |Distinct(xs)|
    ensures WellCounted(xs, RankAll(xs)) && Ranked(xs, RankAll(xs))
    ensures forall x :: x in xs ==> Tally(x, Count(xs, x)) in RankAll(xs)
  {
    var all := RankAll(xs);
    TalliesSpec(xs);
    SortSpec(xs, Tallies(xs));
    assert |multiset(all)| == |multiset(Tallies(xs))|;
    forall x | x in xs
      ensures Tally(x, Count(xs, x)) in all
    {
      assert Tally(x, Count(xs, x)) in multiset(Tallies(xs));
    }
  }

  /** `Counter(xs).most_common(n)`. */
  function MostCommon(xs: seq<string>, n: nat): seq<Tally>
  {
    var all := RankAll(xs);
    all[..if n < |all| then n else |all|]
  }

  /** The keys a ranking lists. */
  function Items(ts: seq<Tally>): seq<string>
  {
    seq(|ts|, i requires 0 <= i < |ts| => ts[i].item)
  }

  lemma ListedItem(ts: seq<Tally>, p: int)
    requires 0 <= p < |ts|
    ensures ts[p].item in Items(ts)
  {
    assert Items(ts)[p] == ts[p].item;
  }

  /** `most_common(n)` lists min(n, number of distinct values) pairs; each
      pairs a value of `xs` with its true count and no value is listed twice;
      counts never increase down the list; equal counts keep the order in
      which the values were first met; and no value left out occurs more
      often than any value listed. */
  lemma MostCommonSpec(xs: seq<string>, n: nat)
    ensures var top := MostCommon(xs, n);
      && |top| == (if n < |Distinct(xs)| then n else |Distinct(xs)|)
      && WellCounted(xs, top)
      && (forall i, j :: 0 <= i < j < |top| ==> top[i].count >= top[j].count)
      && (forall i, j :: 0 <= i < j < |top| && top[i].count == top[j].count ==>
            FirstIndex(xs, top[i].item) < FirstIndex(xs, top[j].item))
      && (forall x, i :: x in xs && x !in Items(top) && 0 <= i < |top| ==> Count(xs, x) <= top[i].count)
  {
    var all := RankAll(xs);
    RankAllSpec(xs);
    var top := MostCommon(xs, n);
    assert forall i :: 0 <= i < |top| ==> top[i] == all[i];
    forall x, i | x in xs && x !in Items(top) && 0 <= i < |top|
      ensures Count(xs, x) <= top[i].count
    {
      var p :| 0 <= p < |all| && all[p] == Tally(x, Count(xs, x));
      if p < |top| {
        ListedItem(top, p);
        assert false;
      }
      assert Before(xs, all[i], all[p]);
    }
  }
}
