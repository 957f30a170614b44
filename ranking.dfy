/**
 * Ranking of scored workers: the list is sorted by match score, highest
 * first, and workers with equal scores by hourly rate, cheapest first.
 * The sort is stable, so workers equal on both keep their fetched order.
 */
module Ranking {
  import opened MatchScoring

  /** The comparator handed to the sort: negative when a goes before b. */
  function Compare(a: ScoredWorker, b: ScoredWorker): (r: int)
    ensures r < 0 <==> Before(a, b)
    ensures r > 0 <==> Before(b, a)
    ensures r == 0 <==> KeyOf(a) == KeyOf(b)
  {
    if b.matchScore != a.matchScore then b.matchScore - a.matchScore
    else a.hourlyRate - b.hourlyRate
  }

  /** The two values the comparator looks at. */
  datatype SortKey = SortKey(matchScore: int, hourlyRate: int)

  function KeyOf(a: ScoredWorker): SortKey
  {
    SortKey(a.matchScore, a.hourlyRate)
  }

  /** a strictly goes before b: a higher match score, or the same score and a lower rate; the comparator is negative exactly then. */
  predicate Before(a: ScoredWorker, b: ScoredWorker)
  {
    a.matchScore > b.matchScore || (a.matchScore == b.matchScore && a.hourlyRate < b.hourlyRate)
  }

  /**
   * The comparator is consistent, as a sort needs it to be: antisymmetric,
   * and the order it induces is irreflexive and transitive, with ties
   * exactly between rows of equal keys.
   */
  lemma CompareIsConsistent(a: ScoredWorker, b: ScoredWorker, c: ScoredWorker)
    ensures Compare(a, b) == -Compare(b, a)
    ensures !Before(a, a)
    ensures Before(a, b) && Before(b, c) ==> Before(a, c)
    ensures !Before(a, b) && !Before(b, a) <==> KeyOf(a) == KeyOf(b)
  {
  }

  function Last<T>(s: seq<T>): T
    requires s != []
  {
    s[|s| - 1]
  }

  function Init<T>(s: seq<T>): seq<T>
    requires s != []
  {
    s[..|s| - 1]
  }

  /** No entry goes strictly before an entry that precedes it. */
  ghost predicate Sorted(s: seq<ScoredWorker>)
  {
    forall i, j :: 0 <= i < j < |s| ==> !Before(s[j], s[i])
  }

  /**
   * x inserted into s behind every entry it does not strictly go before,
   * scanning from the back, as one step of insertion sort does.
   */
  function Insert(s: seq<ScoredWorker>, x: ScoredWorker): (r: seq<ScoredWorker>)
    ensures |r| == |s| + 1
  {
    if s == [] then [x]
    else if Before(x, Last(s)) then Insert(Init(s), x) + [Last(s)]
    else s + [x]
  }

  /** The list in ranked order, as a stable sort with Compare leaves it. */
  function SortByMatch(s: seq<ScoredWorker>): (r: seq<ScoredWorker>)
    ensures |r| == |s|
  {
    if s == [] then []
    else Insert(SortByMatch(Init(s)), Last(s))
  }

  /** Insertion adds x and keeps every other entry. */
  lemma {:induction false} InsertPermutes(s: seq<ScoredWorker>, x: ScoredWorker)
    ensures multiset(Insert(s, x)) == multiset(s) + multiset{x}
    decreases |s|
  {
    if s != [] && Before(x, Last(s)) {
      InsertPermutes(Init(s), x);
      assert s == Init(s) + [Last(s)];
    }
  }

  /** The ranked list is a permutation of its input. */
  lemma {:induction false} SortByMatchPermutes(s: seq<ScoredWorker>)
    ensures multiset(SortByMatch(s)) == multiset(s)
    decreases |s|
  {
    if s != [] {
      SortByMatchPermutes(Init(s));
      InsertPermutes(SortByMatch(Init(s)), Last(s));
      assert s == Init(s) + [Last(s)];
    }
  }

  /** Inserting into a sorted list keeps it sorted. */
  lemma {:induction false} InsertSorted(s: seq<ScoredWorker>, x: ScoredWorker)
    requires Sorted(s)
    ensures Sorted(Insert(s, x))
    decreases |s|
  {
    if s != [] && Before(x, Last(s)) {
      var init, last := Init(s), Last(s);
      assert Sorted(init);
      InsertSorted(init, x);
      InsertPermutes(init, x);
      var r := Insert(init, x);
      forall i | 0 <= i < |r|
        ensures !Before(last, r[i])
      {
        assert r[i] in multiset(r);
        assert r[i] == x || r[i] in multiset(init);
        if r[i] != x {
          var k :| 0 <= k < |init| && init[k] == r[i];
          assert s[k] == init[k];
        }
      }
    }
  }

  /** The ranked list is sorted. */
  lemma {:induction false} SortByMatchSorted(s: seq<ScoredWorker>)
    ensures Sorted(SortByMatch(s))
    decreases |s|
  {
    if s != [] {
      SortByMatchSorted(Init(s));
      InsertSorted(SortByMatch(Init(s)), Last(s));
    }
  }

  /** The entries of s whose sort key is k, in the order of s. */
  function WithKey(s: seq<ScoredWorker>, k: SortKey): (r: seq<ScoredWorker>)
    ensures |r| <= |s|
  {
    if s == [] then []
    else WithKey(Init(s), k) + (if KeyOf(Last(s)) == k then [Last(s)] else [])
  }

  /** WithKey keeps exactly the entries with key k. */
  lemma {:induction false} WithKeyMember(s: seq<ScoredWorker>, k: SortKey, x: ScoredWorker)
    ensures x in WithKey(s, k) <==> x in s && KeyOf(x) == k
    decreases |s|
  {
    if s != [] {
      WithKeyMember(Init(s), k, x);
      assert s == Init(s) + [Last(s)];
    }
  }

  lemma WithKeySingleton(x: ScoredWorker, k: SortKey)
    ensures WithKey([x], k) == if KeyOf(x) == k then [x] else []
  {
    assert Init([x]) == [];
  }

  lemma {:induction false} WithKeyAppend(a: seq<ScoredWorker>, b: seq<ScoredWorker>, k: SortKey)
    ensures WithKey(a + b, k) == WithKey(a, k) + WithKey(b, k)
    decreases |b|
  {
    if b != [] {
      assert Init(a + b) == a + Init(b);
      assert Last(a + b) == Last(b);
      WithKeyAppend(a, Init(b), k);
    } else {
      assert a + b == a;
    }
  }

  /** Insertion puts x behind every entry with its own key. */
  lemma {:induction false} InsertWithKey(s: seq<ScoredWorker>, x: ScoredWorker, k: SortKey)
    ensures WithKey(Insert(s, x), k) == WithKey(s, k) + WithKey([x], k)
    decreases |s|
  {
    WithKeySingleton(x, k);
    if s == [] {
    } else if Before(x, Last(s)) {
      var init, last := Init(s), Last(s);
      WithKeySingleton(last, k);
      // x and last have different keys, so at most one of them is kept
      assert KeyOf(x) != KeyOf(last);
      calc {
        WithKey(Insert(s, x), k);
        WithKey(Insert(init, x) + [last], k);
        { WithKeyAppend(Insert(init, x), [last], k); }
        WithKey(Insert(init, x), k) + WithKey([last], k);
        { InsertWithKey(init, x, k); }
        WithKey(init, k) + WithKey([x], k) + WithKey([last], k);
        WithKey(init, k) + WithKey([last], k) + WithKey([x], k);
        { WithKeyAppend(init, [last], k); assert s == init + [last]; }
        WithKey(s, k) + WithKey([x], k);
      }
    } else {
      WithKeyAppend(s, [x], k);
    }
  }

  /** Stability: for every key, the entries with that key keep their input order. */
  lemma {:induction false} SortByMatchStable(s: seq<ScoredWorker>, k: SortKey)
    ensures WithKey(SortByMatch(s), k) == WithKey(s, k)
    decreases |s|
  {
    if s != [] {
      var init, last := Init(s), Last(s);
      assert init + [last] == s;
      calc {
        WithKey(SortByMatch(s), k);
        WithKey(Insert(SortByMatch(init), last), k);
        { InsertWithKey(SortByMatch(init), last, k); }
        WithKey(SortByMatch(init), k) + WithKey([last], k);
        { SortByMatchStable(init, k); }
        WithKey(init, k) + WithKey([last], k);
        { WithKeyAppend(init, [last], k); }
        WithKey(s, k);
      }
    }
  }

  /**
   * The ranking contract: same entries, sorted by match score (descending),
   * equal scores by hourly rate (ascending), full ties in input order.
   */
  lemma SortByMatchCorrect(s: seq<ScoredWorker>)
    ensures |SortByMatch(s)| == |s|
    ensures multiset(SortByMatch(s)) == multiset(s)
    ensures Sorted(SortByMatch(s))
    ensures forall i :: 0 <= i < |s| - 1 ==>
              && SortByMatch(s)[i].matchScore >= SortByMatch(s)[i + 1].matchScore
              && (SortByMatch(s)[i].matchScore == SortByMatch(s)[i + 1].matchScore ==>
                    SortByMatch(s)[i].hourlyRate <= SortByMatch(s)[i + 1].hourlyRate)
    ensures forall k :: WithKey(SortByMatch(s), k) == WithKey(s, k)
  {
    SortByMatchPermutes(s);
    SortByMatchSorted(s);
    forall k ensures WithKey(SortByMatch(s), k) == WithKey(s, k) {
      SortByMatchStable(s, k);
    }
  }

  /** The last entry of a sorted list goes strictly before none of the others. */
  lemma LastIsGreatest(r: seq<ScoredWorker>, e: ScoredWorker)
    requires Sorted(r) && r != [] && e in r
    ensures !Before(Last(r), e)
  {
    var i :| 0 <= i < |r| && r[i] == e;
    if i < |r| - 1 {
      assert !Before(r[|r| - 1], r[i]);
    }
  }

  /** A list with an entry of key k has entries of key k. */
  lemma NonEmptyWithKey(r: seq<ScoredWorker>, e: ScoredWorker)
    requires e in r
    ensures WithKey(r, KeyOf(e)) != []
  {
    WithKeyMember(r, KeyOf(e), e);
  }

  /** An entry of r1 is in every list with the same entries of its key. */
  lemma InOtherList(r1: seq<ScoredWorker>, r2: seq<ScoredWorker>, e: ScoredWorker)
    requires e in r1
    requires WithKey(r1, KeyOf(e)) == WithKey(r2, KeyOf(e))
    ensures e in r2
  {
    WithKeyMember(r1, KeyOf(e), e);
    WithKeyMember(r2, KeyOf(e), e);
  }

  /** The last entry of a list is the last one of its key. */
  lemma LastOfKey(r: seq<ScoredWorker>)
    requires r != []
    ensures WithKey(r, KeyOf(Last(r))) != [] && Last(WithKey(r, KeyOf(Last(r)))) == Last(r)
  {
  }

  /** Two sorted lists with the same per-key order end in the same entry. */
  lemma LastsAgree(r1: seq<ScoredWorker>, r2: seq<ScoredWorker>)
    requires Sorted(r1) && Sorted(r2) && r1 != [] && r2 != []
    requires forall k :: WithKey(r1, k) == WithKey(r2, k)
    ensures Last(r1) == Last(r2)
  {
    var x, y := Last(r1), Last(r2);
    // each last entry also occurs in the other list, where it cannot go after the last one
    InOtherList(r1, r2, x);
    InOtherList(r2, r1, y);
    LastIsGreatest(r2, x);
    LastIsGreatest(r1, y);
    assert KeyOf(x) == KeyOf(y);
    LastOfKey(r1);
    LastOfKey(r2);
    assert WithKey(r1, KeyOf(x)) == WithKey(r2, KeyOf(x));
  }

  /** Dropping the same last entry from both lists keeps their per-key order equal. */
  lemma InitsAgree(r1: seq<ScoredWorker>, r2: seq<ScoredWorker>, k: SortKey)
    requires r1 != [] && r2 != [] && Last(r1) == Last(r2)
    requires WithKey(r1, k) == WithKey(r2, k)
    ensures WithKey(Init(r1), k) == WithKey(Init(r2), k)
  {
    var x := Last(r1);
    assert r1 == Init(r1) + [x] && r2 == Init(r2) + [x];
    WithKeyAppend(Init(r1), [x], k);
    WithKeyAppend(Init(r2), [x], k);
    var n := |WithKey(r1, k)| - |WithKey([x], k)|;
    assert WithKey(Init(r1), k) == WithKey(r1, k)[..n];
    assert WithKey(Init(r2), k) == WithKey(r2, k)[..n];
  }

  /**
   * Sorted order and the per-key order fix the list: every stable sort by
   * Compare gives the result SortByMatch gives.
   */
  lemma {:induction false} SortedStableUnique(r1: seq<ScoredWorker>, r2: seq<ScoredWorker>)
    requires Sorted(r1) && Sorted(r2)
    requires forall k :: WithKey(r1, k) == WithKey(r2, k)
    ensures r1 == r2
    decreases |r1|
  {
    if r1 == [] && r2 != [] {
      NonEmptyWithKey(r2, Last(r2));
    } else if r1 != [] && r2 == [] {
      NonEmptyWithKey(r1, Last(r1));
    } else if r1 != [] {
      LastsAgree(r1, r2);
      forall k ensures WithKey(Init(r1), k) == WithKey(Init(r2), k) {
        InitsAgree(r1, r2, k);
      }
      SortedStableUnique(Init(r1), Init(r2));
      assert r1 == Init(r1) + [Last(r1)] && r2 == Init(r2) + [Last(r2)];
    }
  }

  /** Any sorted list with the per-key order of s is the ranked list of s. */
  lemma StableSortIsSortByMatch(s: seq<ScoredWorker>, r: seq<ScoredWorker>)
    requires Sorted(r)
    requires forall k :: WithKey(r, k) == WithKey(s, k)
    ensures r == SortByMatch(s)
  {
    SortByMatchCorrect(s);
    SortedStableUnique(r, SortByMatch(s));
  }

  /** The entries of p with x spliced in at position j. */
  lemma SpliceAt<T>(p: seq<T>, j: nat, x: T, k: nat)
    requires j <= |p| && k <= |p|
    ensures (p[..j] + [x] + p[j..])[k] == if k < j then p[k] else if k == j then x else p[k - 1]
  {
  }

  /** Insertion moves x past an entry it goes strictly before. */
  lemma InsertPassesBack(p: seq<ScoredWorker>, j: nat, x: ScoredWorker)
    requires 0 < j <= |p| && Before(x, p[j - 1])
    ensures Insert(p[..j], x) + p[j..] == Insert(p[..j - 1], x) + p[j - 1..]
  {
    assert Init(p[..j]) == p[..j - 1] && Last(p[..j]) == p[j - 1];
    assert p[j - 1..] == [p[j - 1]] + p[j..];
  }

  /** Insertion stops behind an entry x does not go strictly before. */
  lemma InsertStopsAt(p: seq<ScoredWorker>, j: nat, x: ScoredWorker)
    requires j <= |p| && (j == 0 || !Before(x, p[j - 1]))
    ensures Insert(p[..j], x) == p[..j] + [x]
  {
  }

  /** A list holding p with x spliced in where insertion stops is the insertion of x. */
  lemma SplicedIsInsert(r: seq<ScoredWorker>, p: seq<ScoredWorker>, j: nat, x: ScoredWorker)
    requires j <= |p| && |r| == |p| + 1
    requires forall k :: 0 <= k < j ==> r[k] == p[k]
    requires r[j] == x
    requires forall k :: j < k <= |p| ==> r[k] == p[k - 1]
    requires j == 0 || !Before(x, p[j - 1])
    requires Insert(p, x) == Insert(p[..j], x) + p[j..]
    ensures r == Insert(p, x)
  {
    InsertStopsAt(p, j, x);
    forall k | 0 <= k < |r| ensures r[k] == (p[..j] + [x] + p[j..])[k] {
      SpliceAt(p, j, x, k);
    }
  }

  /** Inserting x into p, when x goes before every element from index j on. */
  lemma {:induction false} InsertPastSuffix(p: seq<ScoredWorker>, j: nat, x: ScoredWorker)
    requires j <= |p|
    requires forall k :: j <= k < |p| ==> Before(x, p[k])
    ensures Insert(p, x) == Insert(p[..j], x) + p[j..]
    decreases |p| - j
  {
    if j == |p| {
      assert p[..j] == p && p[j..] == [];
    } else {
      InsertPastSuffix(p, j + 1, x);
      InsertPassesBack(p, j + 1, x);
    }
  }

  /**
   * Move a[j..i] one place up while x goes before a[j - 1]. On return a[j]
   * is the free slot: every moved element goes after x, and a[j - 1] does not.
   */
  method ShiftUp(a: array<ScoredWorker>, i: nat, x: ScoredWorker) returns (j: nat)
    requires i < a.Length
    modifies a
    ensures j <= i
    ensures forall k :: 0 <= k < j ==> a[k] == old(a[k])
    ensures forall k :: j < k <= i ==> a[k] == old(a[k - 1])
    ensures forall k :: i < k < a.Length ==> a[k] == old(a[k])
    ensures forall k :: j <= k < i ==> Before(x, old(a[k]))
    ensures j == 0 || !Before(x, old(a[j - 1]))
  {
    j := i;
    while j > 0 && Before(x, a[j - 1])
      invariant 0 <= j <= i
      invariant forall k :: 0 <= k < j ==> a[k] == old(a[k])
      invariant forall k :: j < k <= i ==> a[k] == old(a[k - 1])
      invariant forall k :: i < k < a.Length ==> a[k] == old(a[k])
      invariant forall k :: j <= k < i ==> Before(x, old(a[k]))
    {
      a[j] := a[j - 1];
      j := j - 1;
    }
  }

  /** One insertion-sort step: a[i] moves back into the prefix a[..i]. */
  method InsertBack(a: array<ScoredWorker>, i: nat)
    requires i < a.Length
    modifies a
    ensures a[..i + 1] == Insert(old(a[..i]), old(a[i]))
    ensures a[i + 1..] == old(a[i + 1..])
  {
    ghost var prefix := a[..i];
    var x := a[i];
    var j := ShiftUp(a, i, x);
    a[j] := x;
    InsertPastSuffix(prefix, j, x);
    assert a[..i + 1] == Insert(prefix, x) by {
      ghost var r := a[..i + 1];
      assert forall k :: 0 <= k < j ==> r[k] == prefix[k];
      assert forall k :: j < k <= i ==> r[k] == prefix[k - 1];
      SplicedIsInsert(r, prefix, j, x);
    }
    assert a[i + 1..] == old(a[i + 1..]);
  }

  /** Sorting a list with one more row at the back inserts that row into the sorted rest. */
  lemma SortByMatchSnoc(p: seq<ScoredWorker>, x: ScoredWorker)
    ensures SortByMatch(p + [x]) == Insert(SortByMatch(p), x)
  {
    assert Init(p + [x]) == p && Last(p + [x]) == x;
  }

  /** The source's in-place sort of the scored list, as an insertion sort. */
  method SortInPlace(a: array<ScoredWorker>)
    modifies a
    ensures a[..] == SortByMatch(old(a[..]))
  {
    ghost var s := a[..];
    var i := 0;
    while i < a.Length
      invariant 0 <= i <= a.Length
      invariant a[..i] == SortByMatch(s[..i])
      invariant a[i..] == s[i..]
    {
      assert a[i] == s[i] && a[i + 1..] == s[i + 1..];
      InsertBack(a, i);
      assert a[i + 1..] == s[i + 1..];
      assert a[..i + 1] == SortByMatch(s[..i + 1]) by {
        assert s[..i + 1] == s[..i] + [s[i]];
        SortByMatchSnoc(s[..i], s[i]);
      }
      i := i + 1;
    }
    assert a[..] == a[..a.Length] && s == s[..a.Length];
  }

  /**
   * Scoring followed by ranking, as the worker list does after each fetch:
   * every fetched worker appears once, scored, in ranked order.
   */
  method RankWorkers(data: seq<Worker>, wage: int) returns (ranked: seq<ScoredWorker>)
    ensures ranked == SortByMatch(ScoreAll(data, wage))
    ensures |ranked| == |data|
    ensures multiset(ranked) == multiset(ScoreAll(data, wage))
    ensures Sorted(ranked)
    ensures forall i :: 0 <= i < |ranked| ==> WellScored(ranked[i], wage) && 0 <= ranked[i].matchScore <= 170
  {
    var scored := ScoreAll(data, wage);
    var a := new ScoredWorker[|scored|](i requires 0 <= i < |scored| => scored[i]);
    assert a[..] == scored;
    SortInPlace(a);
    ranked := a[..];
    SortByMatchCorrect(scored);
    forall i | 0 <= i < |ranked|
      ensures WellScored(ranked[i], wage) && 0 <= ranked[i].matchScore <= 170
    {
      assert ranked[i] in multiset(scored);
    }
  }
}
