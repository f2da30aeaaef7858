// Counting for the id allocator of rehash: which ids the search for free ids hands out when the ids in
// a set are already taken.

module RehashIds {

  function Below(n: nat): (s: set<nat>)
    ensures |s| == n && forall x: nat :: x in s <==> x < n
  {
    if n == 0 then {} else Below(n - 1) + {n - 1}
  }

  /** The ids from 0 up to some bound, without a gap. */
  ghost predicate InitialSegment(s: set<nat>)
  {
    exists k: nat :: s == Below(k)
  }

  lemma InitialSegmentSize(s: set<nat>)
    ensures InitialSegment(s) <==> s == Below(|s|)
  {
    if k: nat :| s == Below(k) {
      assert |s| == k;
    }
  }

  /** The least id from m on that is not taken. */
  function NextFree(taken: set<nat>, m: nat): (r: nat)
    ensures r >= m && r !in taken && forall x :: m <= x < r ==> x in taken
    decreases |set x | x in taken && x >= m|
  {
    if m in taken then
      assert (set x | x in taken && x >= m) == (set x | x in taken && x >= m + 1) + {m};
      NextFree(taken, m + 1)
    else m
  }

  /** The id handed out by search number j; each search starts where the one before it stopped. */
  function NthFree(taken: set<nat>, j: nat): (r: nat)
    ensures r !in taken
  {
    NextFree(taken, if j == 0 then 0 else NthFree(taken, j - 1) + 1)
  }

  /** The ids of the first m searches. */
  function NewIds(taken: set<nat>, m: nat): set<nat>
  {
    if m == 0 then {} else NewIds(taken, m - 1) + {NthFree(taken, m - 1)}
  }

  function Used(taken: set<nat>, m: nat): set<nat>
  {
    taken + NewIds(taken, m)
  }

  lemma {:induction false} NewIdsHave(taken: set<nat>, m: nat, j: nat)
    requires j < m
    ensures NthFree(taken, j) in NewIds(taken, m)
  {
    if j < m - 1 { NewIdsHave(taken, m - 1, j); }
  }

  lemma {:induction false} NewIdsFrom(taken: set<nat>, m: nat, x: nat) returns (j: nat)
    requires x in NewIds(taken, m)
    ensures j < m && NthFree(taken, j) == x
  {
    if x in NewIds(taken, m - 1) {
      j := NewIdsFrom(taken, m - 1, x);
    } else {
      j := m - 1;
    }
  }

  lemma {:induction false} NthFreeIncreases(taken: set<nat>, i: nat, j: nat)
    requires i < j
    ensures NthFree(taken, i) < NthFree(taken, j)
    decreases j
  {
    if i < j - 1 { NthFreeIncreases(taken, i, j - 1); }
  }

  /** Everything below the id of search j was taken at the start or handed out before. */
  lemma {:induction false} BelowNthFree(taken: set<nat>, j: nat)
    ensures forall x: nat :: x < NthFree(taken, j) ==> x in Used(taken, j)
  {
    if j > 0 {
      BelowNthFree(taken, j - 1);
      forall x: nat | x < NthFree(taken, j) ensures x in Used(taken, j) {
        if x < NthFree(taken, j - 1) {
          assert x in Used(taken, j - 1);
        }
      }
    }
  }

  lemma NthFreeIsNew(taken: set<nat>, m: nat)
    ensures NthFree(taken, m) !in NewIds(taken, m)
  {
    var x := NthFree(taken, m);
    if x in NewIds(taken, m) {
      var j := NewIdsFrom(taken, m, x);
      NthFreeIncreases(taken, j, m);
    }
  }

  lemma {:induction false} NewIdsCount(taken: set<nat>, m: nat)
    ensures |NewIds(taken, m)| == m && forall x :: x in NewIds(taken, m) ==> x !in taken
  {
    if m > 0 {
      NewIdsCount(taken, m - 1);
      NthFreeIsNew(taken, m - 1);
      assert NthFree(taken, m - 1) !in taken;
      hide NthFree;
    }
  }

  lemma UsedCount(taken: set<nat>, m: nat)
    ensures |Used(taken, m)| == |taken| + m
  {
    NewIdsCount(taken, m);
    assert taken !! NewIds(taken, m);
  }

  lemma SubsetCount(a: set<nat>, b: set<nat>)
    requires a <= b
    ensures |a| <= |b| && (|a| == |b| ==> a == b)
  {
    assert b == a + (b - a);
  }

  /** Pigeonhole: a search never goes past the number of ids in use. */
  lemma NthFreeBound(taken: set<nat>, j: nat)
    ensures NthFree(taken, j) <= |taken| + j
  {
    BelowNthFree(taken, j);
    UsedCount(taken, j);
    SubsetCount(Below(NthFree(taken, j)), Used(taken, j));
  }

  /** If the searches are at least as many as the gaps below a bound, no gap is left. */
  lemma NoGap(taken: set<nat>, m: nat, bound: nat)
    requires forall x :: x in taken ==> x < bound
    requires m + |taken| >= bound
    ensures Used(taken, m) == Below(|taken| + m)
  {
    forall x | x in NewIds(taken, m) ensures x < |taken| + m {
      var j := NewIdsFrom(taken, m, x);
      NthFreeBound(taken, j);
    }
    assert Used(taken, m) <= Below(|taken| + m);
    UsedCount(taken, m);
    SubsetCount(Used(taken, m), Below(|taken| + m));
  }

  /** The ids in use are an initial segment exactly when the searches fill every gap below the largest taken id. */
  lemma InitialSegmentIff(taken: set<nat>, m: nat, top: nat)
    requires top in taken && forall x :: x in taken ==> x <= top
    ensures InitialSegment(Used(taken, m)) <==> m + |taken| >= top + 1
  {
    if m + |taken| >= top + 1 {
      NoGap(taken, m, top + 1);
    }
    if k: nat :| Used(taken, m) == Below(k) {
      UsedCount(taken, m);
      assert top in Used(taken, m);
    }
  }

  // ---- how many ids below a bound are free ----

  function FreeBelow(taken: set<nat>, h: nat): nat
  {
    if h == 0 then 0 else FreeBelow(taken, h - 1) + if h - 1 in taken then 0 else 1
  }

  lemma {:induction false} FreeBelowMonotone(taken: set<nat>, g: nat, h: nat)
    requires g <= h
    ensures FreeBelow(taken, g) <= FreeBelow(taken, h)
    ensures g < h && g !in taken ==> FreeBelow(taken, g) < FreeBelow(taken, h)
    ensures (forall x: nat :: g <= x < h ==> x in taken) ==> FreeBelow(taken, g) == FreeBelow(taken, h)
    decreases h
  {
    if g < h { FreeBelowMonotone(taken, g, h - 1); }
  }

  /** Search number j hands out the id that has exactly j free ids below it. */
  lemma {:induction false} FreeBelowNthFree(taken: set<nat>, j: nat)
    ensures FreeBelow(taken, NthFree(taken, j)) == j
    decreases j
  {
    var from := if j == 0 then 0 else NthFree(taken, j - 1) + 1;
    if j > 0 { FreeBelowNthFree(taken, j - 1); }
    assert FreeBelow(taken, from) == j;
    FreeBelowMonotone(taken, from, NthFree(taken, j));
  }

  lemma NthFreeAt(taken: set<nat>, x: nat)
    requires x !in taken
    ensures NthFree(taken, FreeBelow(taken, x)) == x
  {
    var y := NthFree(taken, FreeBelow(taken, x));
    FreeBelowNthFree(taken, FreeBelow(taken, x));
    if y < x { FreeBelowMonotone(taken, y, x); } else { FreeBelowMonotone(taken, x, y); }
  }

  lemma NthFreeBelowIff(taken: set<nat>, j: nat, h: nat)
    ensures NthFree(taken, j) < h <==> j < FreeBelow(taken, h)
  {
    var y := NthFree(taken, j);
    FreeBelowNthFree(taken, j);
    if y < h { FreeBelowMonotone(taken, y, h); } else { FreeBelowMonotone(taken, h, y); }
  }

  lemma BelowStep(taken: set<nat>, k: nat)
    ensures Below(k + 1) - taken == if k in taken then Below(k) - taken else (Below(k) - taken) + {k}
  {}

  /** Below a bound the ids that are not taken are free. */
  lemma {:induction false} FreeBelowCount(taken: set<nat>, h: nat)
    ensures FreeBelow(taken, h) == |Below(h) - taken|
  {
    if h > 0 {
      var k := h - 1;
      FreeBelowCount(taken, k);
      BelowStep(taken, k);
      var front := Below(k) - taken;
      assert k !in front;
      hide Below;
    }
  }

  /** Of the taken ids below a bound only the kept ones count. */
  lemma FreeAround(taken: set<nat>, kept: set<nat>, h: nat)
    requires kept <= taken && forall x :: x in taken ==> (x in kept <==> x < h)
    ensures FreeBelow(taken, h) + |kept| == h
  {
    FreeBelowCount(taken, h);
    assert kept <= Below(h) && Below(h) - taken == Below(h) - kept;
  }
}
