// What rehash plans for one bucket: which link ids are kept and which are handed out.
//
// Only the first bytes of the id mask are cleared for a bucket. Bits beyond them may be set from
// anything that was there before, and the search for a free id skips them as if they were taken: they
// are the dirty ids of a plan.

module RehashPlan {
  import opened RehashTable
  import opened RehashIds

  predicate IsKept(e: Entry, n: nat) {
    e.oldId < n
  }

  predicate IsNew(e: Entry, n: nat) {
    e.oldId >= n && e.needSymlink
  }

  /** A link that is not needed and not kept. */
  predicate IsDropped(e: Entry, n: nat) {
    e.oldId >= n && !e.needSymlink
  }

  function KeptIds(entries: seq<Entry>, n: nat): (s: set<nat>)
    ensures forall x :: x in s ==> x < n
  {
    if entries == [] then {}
    else
      var k := |entries| - 1;
      KeptIds(entries[..k], n) + if IsKept(entries[k], n) then {entries[k].oldId} else {}
  }

  function CountNew(entries: seq<Entry>, n: nat): nat
  {
    if entries == [] then 0
    else CountNew(entries[..|entries| - 1], n) + if IsNew(entries[|entries| - 1], n) then 1 else 0
  }

  /** The bits that memset clears for a bucket. */
  function ClearedBits(n: nat): nat
  {
    (n + 7) / 8 * 8
  }

  /** Ids whose bits may be set although nobody set them for this bucket. */
  ghost predicate DirtyOk(dirty: set<nat>, n: nat)
  {
    forall d :: d in dirty ==> ClearedBits(n) <= d < MAX_COLLISIONS
  }

  // ---- counting ----

  ghost predicate DistinctKept(entries: seq<Entry>, n: nat)
  {
    forall i, j :: 0 <= i < j < |entries| && IsKept(entries[i], n) && IsKept(entries[j], n) ==>
      entries[i].oldId != entries[j].oldId
  }

  /** No link that nobody needs is kept. */
  ghost predicate NoStale(entries: seq<Entry>, n: nat)
  {
    forall i :: 0 <= i < |entries| && IsKept(entries[i], n) ==> entries[i].needSymlink
  }

  function CountStale(entries: seq<Entry>, n: nat): nat
  {
    if entries == [] then 0
    else
      var e := entries[|entries| - 1];
      CountStale(entries[..|entries| - 1], n) + if IsKept(e, n) && !e.needSymlink then 1 else 0
  }

  /** The number of ids that are in use at the end. */
  function CountInUse(entries: seq<Entry>, n: nat): nat
  {
    |KeptIds(entries, n)| + CountNew(entries, n)
  }

  lemma {:induction false} KeptFrom(entries: seq<Entry>, n: nat, x: nat) returns (i: nat)
    requires x in KeptIds(entries, n)
    ensures i < |entries| && IsKept(entries[i], n) && entries[i].oldId == x
  {
    var k := |entries| - 1;
    if x in KeptIds(entries[..k], n) { i := KeptFrom(entries[..k], n, x); } else { i := k; }
  }

  lemma {:induction false} KeptHas(entries: seq<Entry>, n: nat, i: nat)
    requires i < |entries| && IsKept(entries[i], n)
    ensures entries[i].oldId in KeptIds(entries, n)
  {
    if i < |entries| - 1 { KeptHas(entries[..|entries| - 1], n, i); }
  }

  /** The ids in use are the needed entries and the stale kept ones, less one for every id kept twice. */
  lemma {:induction false} CountUsed(entries: seq<Entry>, n: nat)
    ensures CountInUse(entries, n) <= CountNeeded(entries) + CountStale(entries, n)
    ensures CountInUse(entries, n) == CountNeeded(entries) + CountStale(entries, n) <==> DistinctKept(entries, n)
  {
    if entries != [] {
      var k := |entries| - 1;
      var front := entries[..k];
      CountUsed(front, n);
      DistinctStep(entries, n);
      hide DistinctKept;
    }
  }

  lemma DistinctStep(entries: seq<Entry>, n: nat)
    requires entries != []
    ensures var k := |entries| - 1;
      DistinctKept(entries, n) <==>
        DistinctKept(entries[..k], n) && (IsKept(entries[k], n) ==> entries[k].oldId !in KeptIds(entries[..k], n))
  {
    var k := |entries| - 1;
    var front := entries[..k];
    if IsKept(entries[k], n) && entries[k].oldId in KeptIds(front, n) {
      var i := KeptFrom(front, n, entries[k].oldId);
      assert front[i] == entries[i];
    }
    if DistinctKept(front, n) && !DistinctKept(entries, n) {
      var i, j :| 0 <= i < j < |entries| && IsKept(entries[i], n) && IsKept(entries[j], n) &&
        entries[i].oldId == entries[j].oldId;
      assert front[i] == entries[i];
      KeptHas(front, n, i);
    }
  }

  lemma {:induction false} NoStaleCount(entries: seq<Entry>, n: nat)
    ensures NoStale(entries, n) <==> CountStale(entries, n) == 0
  {
    if entries != [] {
      var k := |entries| - 1;
      NoStaleCount(entries[..k], n);
      assert forall i :: 0 <= i < k ==> entries[..k][i] == entries[i];
    }
  }

  // ---- the plan ----

  datatype Plan = Plan(entries: seq<Entry>, n: nat, dirty: set<nat>)

  /** The ids that the search skips from the start. */
  function Taken(p: Plan): set<nat>
  {
    KeptIds(p.entries, p.n) + p.dirty
  }

  /** How many entries before this one get a new id. */
  function Rank(p: Plan, i: nat): nat
    requires i <= |p.entries|
  {
    CountNew(p.entries[..i], p.n)
  }

  /** The id of an entry: its own, or the next free one in list order. */
  function FinalId(p: Plan, i: nat): nat
    requires i < |p.entries|
  {
    if IsKept(p.entries[i], p.n) then p.entries[i].oldId else NthFree(Taken(p), Rank(p, i))
  }

  /** The ids that are in use at the end: the kept ones and those handed out. */
  function UsedIds(p: Plan): set<nat>
  {
    KeptIds(p.entries, p.n) + NewIds(Taken(p), CountNew(p.entries, p.n))
  }

  lemma RankStep(p: Plan, i: nat)
    requires i < |p.entries|
    ensures Rank(p, i + 1) == Rank(p, i) + if IsNew(p.entries[i], p.n) then 1 else 0
  {
    assert p.entries[..i + 1][..i] == p.entries[..i];
  }

  lemma {:induction false} RankMonotone(p: Plan, i: nat, j: nat)
    requires i <= j <= |p.entries|
    ensures Rank(p, i) <= Rank(p, j)
    decreases j - i
  {
    if i < j {
      RankStep(p, j - 1);
      RankMonotone(p, i, j - 1);
    }
  }

  lemma RankAll(p: Plan)
    ensures Rank(p, |p.entries|) == CountNew(p.entries, p.n)
    ensures Rank(p, 0) == 0
  {
    assert p.entries[..|p.entries|] == p.entries;
  }

  /** An entry with a new id has a smaller rank than any place after it. */
  lemma RankBefore(p: Plan, i: nat, j: nat)
    requires i < |p.entries| && j <= |p.entries| && IsNew(p.entries[i], p.n)
    ensures Rank(p, i) < Rank(p, j) <==> i < j
  {
    RankStep(p, i);
    if i < j { RankMonotone(p, i + 1, j); } else { RankMonotone(p, j, i); }
  }

  /** The entry that search number m serves. */
  lemma {:induction false} NewFrom(p: Plan, m: nat, k: nat) returns (i: nat)
    requires k <= |p.entries| && m < Rank(p, k)
    ensures i < k && IsNew(p.entries[i], p.n) && Rank(p, i) == m
    decreases k
  {
    RankStep(p, k - 1);
    if m < Rank(p, k - 1) { i := NewFrom(p, m, k - 1); } else { i := k - 1; }
  }

  /** The rank of an entry is the number of free ids below its new id. */
  lemma NewIdFacts(p: Plan, i: nat)
    requires i < |p.entries| && IsNew(p.entries[i], p.n)
    ensures FinalId(p, i) !in Taken(p) && FreeBelow(Taken(p), FinalId(p, i)) == Rank(p, i) < CountNew(p.entries, p.n)
  {
    FreeBelowNthFree(Taken(p), Rank(p, i));
    RankBefore(p, i, |p.entries|);
    RankAll(p);
  }

  lemma FinalIdsDiffer(p: Plan, i: nat, j: nat)
    requires i < j < |p.entries| && DistinctKept(p.entries, p.n)
    requires !IsDropped(p.entries[i], p.n) && !IsDropped(p.entries[j], p.n)
    ensures FinalId(p, i) != FinalId(p, j)
  {
    if IsKept(p.entries[i], p.n) { KeptHas(p.entries, p.n, i); } else { NewIdFacts(p, i); }
    if IsKept(p.entries[j], p.n) { KeptHas(p.entries, p.n, j); } else { NewIdFacts(p, j); }
    if IsNew(p.entries[i], p.n) && IsNew(p.entries[j], p.n) { RankBefore(p, i, j); }
  }

  lemma FinalIdUsed(p: Plan, i: nat)
    requires i < |p.entries| && !IsDropped(p.entries[i], p.n)
    ensures FinalId(p, i) in UsedIds(p)
  {
    if IsKept(p.entries[i], p.n) {
      KeptHas(p.entries, p.n, i);
    } else {
      NewIdFacts(p, i);
      NewIdsHave(Taken(p), CountNew(p.entries, p.n), Rank(p, i));
    }
  }

  lemma UsedIdFrom(p: Plan, x: nat) returns (i: nat)
    requires x in UsedIds(p)
    ensures i < |p.entries| && !IsDropped(p.entries[i], p.n) && FinalId(p, i) == x
  {
    if x in KeptIds(p.entries, p.n) {
      i := KeptFrom(p.entries, p.n, x);
    } else {
      var m := NewIdsFrom(Taken(p), CountNew(p.entries, p.n), x);
      RankAll(p);
      i := NewFrom(p, m, |p.entries|);
    }
  }

  // ---- which ids are in use ----

  lemma UsedIdsCount(p: Plan)
    ensures |UsedIds(p)| == CountInUse(p.entries, p.n)
    ensures forall d :: d in p.dirty && d !in KeptIds(p.entries, p.n) ==> d !in UsedIds(p)
  {
    var m := CountNew(p.entries, p.n);
    NewIdsCount(Taken(p), m);
    assert KeptIds(p.entries, p.n) !! NewIds(Taken(p), m);
  }

  lemma DirtyAboveKept(p: Plan, h: nat)
    requires DirtyOk(p.dirty, p.n) && p.n <= h && forall d :: d in p.dirty ==> d >= h
    ensures FreeBelow(Taken(p), h) + |KeptIds(p.entries, p.n)| == h
  {
    FreeAround(Taken(p), KeptIds(p.entries, p.n), h);
  }

  /**
   * For any mask the ids in use are an initial segment if and only if no dirty bit lies below their
   * number, and that number is num_needed plus the stale links that are kept.
   */
  lemma IdsInUse(p: Plan)
    requires p.n == CountNeeded(p.entries) && DistinctKept(p.entries, p.n) && DirtyOk(p.dirty, p.n)
    ensures CountInUse(p.entries, p.n) == p.n + CountStale(p.entries, p.n)
    ensures InitialSegment(UsedIds(p)) <==> forall d :: d in p.dirty ==> d >= CountInUse(p.entries, p.n)
    ensures InitialSegment(UsedIds(p)) <==> UsedIds(p) == Below(CountInUse(p.entries, p.n))
  {
    var m, all := CountNew(p.entries, p.n), CountInUse(p.entries, p.n);
    CountUsed(p.entries, p.n);
    UsedIdsCount(p);
    InitialSegmentSize(UsedIds(p));
    hide CountNew, CountNeeded, CountStale, DistinctKept, InitialSegment;
    if forall d :: d in p.dirty ==> d >= all {
      DirtyAboveKept(p, all);
      forall x | x in UsedIds(p) ensures x < all {
        if x !in KeptIds(p.entries, p.n) {
          var j := NewIdsFrom(Taken(p), m, x);
          NthFreeBelowIff(Taken(p), j, all);
        }
      }
      SubsetCount(UsedIds(p), Below(all));
    }
  }

  /** They are exactly the ids below num_needed if and only if besides no stale link is kept. */
  lemma OnlyNeededIds(p: Plan)
    requires p.n == CountNeeded(p.entries) && DistinctKept(p.entries, p.n) && DirtyOk(p.dirty, p.n)
    ensures UsedIds(p) == Below(p.n) <==> NoStale(p.entries, p.n)
  {
    IdsInUse(p);
    NoStaleCount(p.entries, p.n);
    InitialSegmentSize(UsedIds(p));
    UsedIdsCount(p);
    assert |Below(p.n)| == p.n;
    hide UsedIds, CountInUse, CountNeeded, CountStale, DistinctKept, NoStale;
  }

  // ---- which bits of the mask are touched ----

  /** The clearing and all searches stay inside the mask of 256 bits. */
  ghost predicate Inside(p: Plan)
  {
    p.n <= MAX_COLLISIONS && CountNew(p.entries, p.n) <= FreeBelow(Taken(p), MAX_COLLISIONS)
  }

  /** That is so if and only if the last id handed out is inside. */
  lemma InsideLastId(p: Plan)
    ensures Inside(p) <==>
      (p.n <= MAX_COLLISIONS &&
       (CountNew(p.entries, p.n) == 0 || NthFree(Taken(p), CountNew(p.entries, p.n) - 1) < MAX_COLLISIONS))
  {
    if CountNew(p.entries, p.n) > 0 { NthFreeBelowIff(Taken(p), CountNew(p.entries, p.n) - 1, MAX_COLLISIONS); }
  }

  /** The ids in use fit the bits that are cleared for the bucket. */
  predicate Fits(entries: seq<Entry>, n: nat)
  {
    n <= MAX_COLLISIONS && CountInUse(entries, n) <= ClearedBits(n)
  }

  lemma FitsInside(p: Plan)
    requires Fits(p.entries, p.n) && DirtyOk(p.dirty, p.n)
    ensures Inside(p) && forall d :: d in p.dirty ==> d >= CountInUse(p.entries, p.n)
  {
    var c := ClearedBits(p.n);
    assert p.n <= c <= MAX_COLLISIONS;
    DirtyAboveKept(p, c);
    FreeBelowMonotone(Taken(p), c, MAX_COLLISIONS);
  }

  /** In a bucket that fits, every id handed out, and so every bit tested on the way, is among the cleared ones. */
  lemma FitsCleared(p: Plan, i: nat)
    requires Fits(p.entries, p.n) && DirtyOk(p.dirty, p.n) && i < |p.entries| && IsNew(p.entries[i], p.n)
    ensures FinalId(p, i) < ClearedBits(p.n)
  {
    NewIdFacts(p, i);
    DirtyAboveKept(p, ClearedBits(p.n));
    NthFreeBelowIff(Taken(p), Rank(p, i), ClearedBits(p.n));
  }

  ghost predicate SegmentInside(p: Plan)
  {
    Inside(p) && InitialSegment(UsedIds(p))
  }

  /**
   * Every initial mask leads to an initial segment, without an access outside the mask, if and only if the
   * needed entries and the stale kept ones fit the cleared bits.
   */
  lemma EveryMaskIff(entries: seq<Entry>, n: nat)
    requires n == CountNeeded(entries) && DistinctKept(entries, n)
    ensures (forall dirty: set<nat> :: DirtyOk(dirty, n) ==> SegmentInside(Plan(entries, n, dirty))) <==>
            n <= MAX_COLLISIONS && n + CountStale(entries, n) <= ClearedBits(n)
  {
    CountUsed(entries, n);
    hide UsedIds, Inside, CountNeeded, DistinctKept, CountStale, CountInUse, DirtyOk, InitialSegment;
    if Fits(entries, n) {
      forall dirty: set<nat> | DirtyOk(dirty, n) ensures SegmentInside(Plan(entries, n, dirty)) {
        FitsInside(Plan(entries, n, dirty));
        IdsInUse(Plan(entries, n, dirty));
      }
    } else {
      var dirty := BadMask(entries, n);
      IdsInUse(Plan(entries, n, dirty));
    }
  }

  /** The mask that breaks a bucket that does not fit: one dirty bit, right after the cleared ones. */
  lemma BadMask(entries: seq<Entry>, n: nat) returns (dirty: set<nat>)
    requires !Fits(entries, n)
    ensures DirtyOk(dirty, n) && forall d :: d in dirty ==> d == ClearedBits(n)
    ensures !Inside(Plan(entries, n, dirty)) || exists d :: d in dirty && d < CountInUse(entries, n)
  {
    var c := ClearedBits(n);
    dirty := if c < MAX_COLLISIONS then {c} else {};
    if n <= MAX_COLLISIONS && c == MAX_COLLISIONS {
      DirtyAboveKept(Plan(entries, n, {}), c);
    }
  }

  /** No mask leads outside exactly when nothing is handed out or the ids in use fit the cleared bits. */
  lemma InsideForEveryMaskIff(entries: seq<Entry>, n: nat)
    ensures (forall dirty: set<nat> :: DirtyOk(dirty, n) ==> Inside(Plan(entries, n, dirty))) <==>
            n <= MAX_COLLISIONS && (CountNew(entries, n) == 0 || Fits(entries, n))
  {
    if n > MAX_COLLISIONS {
      assert DirtyOk({}, n) && !Inside(Plan(entries, n, {}));
    } else if CountNew(entries, n) > 0 {
      FullMask(entries, n);
      hide Inside, DirtyOk, Fits;
      forall dirty: set<nat> | DirtyOk(dirty, n) && Fits(entries, n) ensures Inside(Plan(entries, n, dirty)) {
        FitsInside(Plan(entries, n, dirty));
      }
    }
  }

  lemma TakenFrom(taken: set<nat>, g: nat, h: nat)
    requires g <= h && Below(h) - Below(g) <= taken
    ensures FreeBelow(taken, g) == FreeBelow(taken, h)
  {
    assert forall x: nat :: g <= x < h ==> x in Below(h) - Below(g);
    FreeBelowMonotone(taken, g, h);
  }

  /** With all bits beyond the cleared ones set, only the cleared ones are left to hand out. */
  lemma FullMask(entries: seq<Entry>, n: nat)
    requires n <= MAX_COLLISIONS
    ensures var full := Below(MAX_COLLISIONS) - Below(ClearedBits(n));
      DirtyOk(full, n) && (Inside(Plan(entries, n, full)) <==> Fits(entries, n))
  {
    hide Below, FreeBelow, KeptIds, CountNew;
    var c := ClearedBits(n);
    var full := Below(MAX_COLLISIONS) - Below(c);
    assert n <= c <= MAX_COLLISIONS;
    var p := Plan(entries, n, full);
    DirtyAboveKept(p, c);
    TakenFrom(Taken(p), c, MAX_COLLISIONS);
  }

  // ---- the bijection ----

  function NeededIds(p: Plan): set<nat>
  {
    set i | 0 <= i < |p.entries| && p.entries[i].needSymlink :: FinalId(p, i)
  }

  /** Without stale links the final ids are a bijection from the needed entries onto the ids below num_needed. */
  lemma NeededIdsBijection(p: Plan)
    requires p.n == CountNeeded(p.entries) && DistinctKept(p.entries, p.n) && DirtyOk(p.dirty, p.n)
    requires NoStale(p.entries, p.n)
    ensures NeededIds(p) == Below(p.n)
    ensures forall i: nat, j: nat :: i < j < |p.entries| && p.entries[i].needSymlink && p.entries[j].needSymlink ==>
      FinalId(p, i) != FinalId(p, j)
  {
    OnlyNeededIds(p);
    hide FinalId, UsedIds, Below;
    forall i: nat | i < |p.entries| && p.entries[i].needSymlink ensures FinalId(p, i) in Below(p.n) {
      FinalIdUsed(p, i);
    }
    forall i: nat, j: nat | i < j < |p.entries| && p.entries[i].needSymlink && p.entries[j].needSymlink
      ensures FinalId(p, i) != FinalId(p, j)
    {
      FinalIdsDiffer(p, i, j);
    }
    forall x | x in Below(p.n) ensures x in NeededIds(p) {
      var i := UsedIdFrom(p, x);
    }
  }
}
