// When every needed file of a bucket is reached: with a mask that is clean as far as it matters, in every
// list order, and with every mask.

module RehashOrder {
  import opened RehashTable
  import opened RehashIds
  import opened RehashPlan
  import opened RehashLinks

  /** No dirty bit lies among the ids that the bucket will use. */
  ghost predicate Clean(p: Plan)
  {
    forall d :: d in p.dirty ==> d >= CountInUse(p.entries, p.n)
  }

  lemma InUseAboveNeeded(p: Plan, links: map<nat, string>)
    requires Scanned(p, links)
    ensures CountInUse(p.entries, p.n) >= p.n
  {
    RecordedDistinct(p.entries, p.n, links);
    CountUsed(p.entries, p.n);
  }

  /** With a clean mask an id has r free ids below it exactly if it is not below the kept ids plus r. */
  lemma FreeBelowClean(p: Plan, links: map<nat, string>, x: nat, r: nat)
    requires Scanned(p, links) && Clean(p) && p.n <= x && r <= CountNew(p.entries, p.n)
    ensures FreeBelow(Taken(p), x) >= r <==> |KeptIds(p.entries, p.n)| + r <= x
  {
    var all := CountInUse(p.entries, p.n);
    InUseAboveNeeded(p, links);
    hide Scanned, KeptIds, CountNew;
    if x <= all {
      DirtyAboveKept(p, x);
    } else {
      DirtyAboveKept(p, all);
      FreeBelowMonotone(Taken(p), all, x);
    }
  }

  /** The dropped link is not removed from under an entry that was given its id. */
  predicate DropHarmless(p: Plan, q: nat)
    requires q < |p.entries|
  {
    IsDropped(p.entries[q], p.n) ==> |KeptIds(p.entries, p.n)| + Rank(p, q) <= p.entries[q].oldId
  }

  lemma DropHarmlessIff(p: Plan, links: map<nat, string>, q: nat)
    requires Scanned(p, links) && Clean(p) && q < |p.entries| && IsDropped(p.entries[q], p.n)
    ensures DropHarmless(p, q) <==> !HandedBefore(p, q, p.entries[q].oldId)
  {
    var x := p.entries[q].oldId;
    RankMonotone(p, q, |p.entries|);
    RankAll(p);
    FreeBelowClean(p, links, x, Rank(p, q));
    hide Rank, KeptIds;
  }

  /** With a clean mask no hole among the skipped ids makes an entry late. */
  lemma TakenHoleIsLast(p: Plan, links: map<nat, string>, remove: bool, i: nat, x: nat)
    requires Scanned(p, links) && Clean(p) && x in Taken(p) && Hole(p, links, remove, x) && i < |p.entries|
    ensures !Late(p, i, x)
  {
    if IsNew(p.entries[i], p.n) {
      if x in KeptIds(p.entries, p.n) {
        var e := KeptFrom(p.entries, p.n, x);
        assert false;
      }
      NewIdFacts(p, i);
      InUseAboveNeeded(p, links);
      FreeBelowClean(p, links, x, CountNew(p.entries, p.n));
    }
  }

  /** A hole among the ids handed out leaves the entry that got it without a link. */
  lemma HandedHole(p: Plan, links: map<nat, string>, q: nat)
    requires Scanned(p, links) && Clean(p) && q < |p.entries|
    requires IsDropped(p.entries[q], p.n) && HandedBefore(p, q, p.entries[q].oldId)
    ensures !AllReached(p.entries, FinalLinks(p, links, true))
  {
    var x := p.entries[q].oldId;
    assert Drops(p, q, x);
    assert Hole(p, links, true, x);
    HoleIsCovered(p, links, true, x);
    var i := HandedTo(p, x);
    NewIdFacts(p, i);
    FreeBelowClean(p, links, x, CountNew(p.entries, p.n));
    assert Late(p, i, x) && !Spare(p, links, true, i, x);
    hide FinalLinks, AllReached, Hole, Spare, Scanned;
    ReachedIff(p, links, true);
  }

  /**
   * With a clean mask: links that are never removed leave every file reached, and otherwise every file is
   * reached if and only if each dropped id is at least the number of kept ids plus the number of
   * entries before it that need a new one.
   */
  lemma ReachedCleanIff(p: Plan, links: map<nat, string>)
    requires Scanned(p, links) && Clean(p)
    ensures AllReached(p.entries, FinalLinks(p, links, false))
    ensures AllReached(p.entries, FinalLinks(p, links, true)) <==>
      forall q: nat :: q < |p.entries| ==> DropHarmless(p, q)
  {
    hide FinalLinks, AllReached, Scanned, Clean, DropHarmless, Spare, Late, Taken, HandedBefore;
    forall i: nat, x: nat | i < |p.entries| && Hole(p, links, false, x) ensures !Late(p, i, x) {
      TakenHoleIsLast(p, links, false, i, x);
    }
    ReachedIff(p, links, false);
    if forall q: nat :: q < |p.entries| ==> DropHarmless(p, q) {
      forall i: nat, x: nat | i < |p.entries| && Hole(p, links, true, x) ensures !Late(p, i, x) {
        if x !in Taken(p) {
          var q: nat :| q < |p.entries| && Drops(p, q, x) && HandedBefore(p, q, x);
          DropHarmlessIff(p, links, q);
          assert false;
        }
        TakenHoleIsLast(p, links, true, i, x);
      }
      ReachedIff(p, links, true);
    } else {
      var q: nat :| q < |p.entries| && !DropHarmless(p, q);
      NotHarmless(p, q);
      DropHarmlessIff(p, links, q);
      HandedHole(p, links, q);
    }
  }

  lemma NotHarmless(p: Plan, q: nat)
    requires q < |p.entries| && !DropHarmless(p, q)
    ensures IsDropped(p.entries[q], p.n)
  {}

  // ---- every order ----

  lemma {:induction false} CountNewAppend(a: seq<Entry>, b: seq<Entry>, n: nat)
    ensures CountNew(a + b, n) == CountNew(a, n) + CountNew(b, n)
    ensures CountNeeded(a + b) == CountNeeded(a) + CountNeeded(b)
  {
    if b == [] {
      assert a + b == a;
    } else {
      CountNewAppend(a, b[..|b| - 1], n);
      assert (a + b)[..|a + b| - 1] == a + b[..|b| - 1];
    }
  }

  function Without(s: seq<Entry>, k: nat): seq<Entry>
    requires k < |s|
  {
    s[..k] + s[k + 1..]
  }

  lemma WithoutCounts(s: seq<Entry>, k: nat, n: nat)
    requires k < |s|
    ensures multiset(Without(s, k)) == multiset(s) - multiset{s[k]}
    ensures CountNew(s, n) == CountNew(Without(s, k), n) + CountNew([s[k]], n)
    ensures CountNeeded(s) == CountNeeded(Without(s, k)) + CountNeeded([s[k]])
  {
    var a, b, c := s[..k], [s[k]], s[k + 1..];
    assert s == a + b + c;
    hide CountNew, CountNeeded;
    CountNewAppend(a + b, c, n);
    CountNewAppend(a, b, n);
    CountNewAppend(a, c, n);
  }

  lemma {:induction false} SameCounts(a: seq<Entry>, b: seq<Entry>, n: nat)
    requires multiset(a) == multiset(b)
    ensures CountNew(a, n) == CountNew(b, n) && CountNeeded(a) == CountNeeded(b)
    decreases |a|
  {
    if a == [] {
      assert |multiset(b)| == 0;
    } else {
      var e := a[0];
      assert e in multiset(b);
      var k :| 0 <= k < |b| && b[k] == e;
      WithoutCounts(a, 0, n);
      WithoutCounts(b, k, n);
      hide CountNew, CountNeeded, Without;
      SameCounts(Without(a, 0), Without(b, k), n);
    }
  }

  lemma {:induction false} OnceEach(s: seq<Entry>, e: Entry)
    requires UniqueNames(s)
    ensures multiset(s)[e] <= 1
  {
    if s != [] {
      var k := |s| - 1;
      OnceEach(s[..k], e);
      assert s == s[..k] + [s[k]];
      if s[k] == e { assert forall i :: 0 <= i < k ==> s[..k][i].filename != e.filename; }
    }
  }

  lemma TwiceAtLeast(s: seq<Entry>, i: nat, j: nat)
    requires i < j < |s| && s[i] == s[j]
    ensures multiset(s)[s[i]] >= 2
  {
    assert s == s[..j] + s[j..];
    assert s[..j][i] == s[i] && s[j..][0] == s[j];
  }

  lemma SameNames(a: seq<Entry>, b: seq<Entry>)
    requires multiset(a) == multiset(b) && UniqueNames(a)
    ensures UniqueNames(b)
  {
    forall i, j | 0 <= i < j < |b| ensures b[i].filename != b[j].filename {
      assert b[i] in multiset(a) && b[j] in multiset(a);
      if b[i] == b[j] {
        TwiceAtLeast(b, i, j);
        OnceEach(a, b[i]);
      }
    }
  }

  lemma SameKept(a: seq<Entry>, b: seq<Entry>, n: nat)
    requires multiset(a) == multiset(b)
    ensures KeptIds(a, n) == KeptIds(b, n)
  {
    forall x ensures x in KeptIds(a, n) <==> x in KeptIds(b, n) {
      if x in KeptIds(a, n) { KeptAlso(a, b, n, x); }
      if x in KeptIds(b, n) { KeptAlso(b, a, n, x); }
    }
  }

  lemma KeptAlso(a: seq<Entry>, b: seq<Entry>, n: nat, x: nat)
    requires multiset(a) == multiset(b) && x in KeptIds(a, n)
    ensures x in KeptIds(b, n)
  {
    var i := KeptFrom(a, n, x);
    assert a[i] in multiset(b);
    var j :| 0 <= j < |b| && b[j] == a[i];
    KeptHas(b, n, j);
  }

  /** What is known of a bucket does not depend on the order of its entries. */
  lemma ScannedInAnyOrder(p: Plan, links: map<nat, string>, other: seq<Entry>)
    requires Scanned(p, links) && multiset(other) == multiset(p.entries)
    ensures Scanned(Plan(other, p.n, p.dirty), links)
    ensures KeptIds(other, p.n) == KeptIds(p.entries, p.n) && CountNew(other, p.n) == CountNew(p.entries, p.n)
  {
    SameCounts(other, p.entries, p.n);
    SameNames(p.entries, other);
    SameKept(other, p.entries, p.n);
    hide KeptIds, CountNew, CountNeeded;
    forall i | 0 <= i < |other| && IsKept(other[i], p.n)
      ensures other[i].oldId in links && links[other[i].oldId] == other[i].filename
    {
      assert other[i] in multiset(p.entries);
    }
  }

  /** The entries with entry q moved to the end. */
  lemma MovedLast(p: Plan, q: nat) returns (other: seq<Entry>)
    requires q < |p.entries| && IsDropped(p.entries[q], p.n)
    ensures multiset(other) == multiset(p.entries) && other != [] && other[|other| - 1] == p.entries[q]
    ensures Rank(Plan(other, p.n, p.dirty), |other| - 1) == CountNew(p.entries, p.n)
  {
    var front, e := Without(p.entries, q), p.entries[q];
    other := front + [e];
    WithoutCounts(p.entries, q, p.n);
    assert other[..|other| - 1] == front;
    assert CountNew([e], p.n) == 0 by { assert [e][..0] == []; }
  }

  /** Every list order leads the probe to every needed file. */
  ghost predicate ReachedInAnyOrder(p: Plan, links: map<nat, string>)
  {
    forall other: seq<Entry> :: multiset(other) == multiset(p.entries) ==>
      AllReached(other, FinalLinks(Plan(other, p.n, p.dirty), links, true))
  }

  /**
   * With a clean mask: every list order leads the probe to every needed file if and only if no dropped id is
   * below the number of ids in use.
   */
  lemma EveryOrderIff(p: Plan, links: map<nat, string>)
    requires Scanned(p, links) && Clean(p)
    ensures ReachedInAnyOrder(p, links) <==>
      forall q: nat :: q < |p.entries| && IsDropped(p.entries[q], p.n) ==>
        p.entries[q].oldId >= CountInUse(p.entries, p.n)
  {
    hide FinalLinks, AllReached, Scanned, KeptIds, CountNew, Rank, IsDropped;
    if forall q: nat :: q < |p.entries| && IsDropped(p.entries[q], p.n) ==>
         p.entries[q].oldId >= CountInUse(p.entries, p.n) {
      forall other: seq<Entry> | multiset(other) == multiset(p.entries)
        ensures AllReached(other, FinalLinks(Plan(other, p.n, p.dirty), links, true))
      {
        var r := Plan(other, p.n, p.dirty);
        ScannedInAnyOrder(p, links, other);
        forall q: nat | q < |other| ensures DropHarmless(r, q) {
          assert other[q] in multiset(p.entries);
          RankMonotone(r, q, |other|);
          RankAll(r);
        }
        ReachedCleanIff(r, links);
      }
    } else {
      var q: nat :| q < |p.entries| && IsDropped(p.entries[q], p.n) &&
        p.entries[q].oldId < CountInUse(p.entries, p.n);
      var other := MovedLast(p, q);
      var r := Plan(other, p.n, p.dirty);
      ScannedInAnyOrder(p, links, other);
      assert !DropHarmless(r, |other| - 1);
      ReachedCleanIff(r, links);
    }
  }

  // ---- dirty bits ----

  /**
   * A dirty bit among the ids in use, with nothing on disk under its number and no dirty bit below it: some
   * needed file is not reached, whatever the order and the rest of the mask.
   */
  lemma DirtyBitFails(p: Plan, links: map<nat, string>, remove: bool, d: nat)
    requires Scanned(p, links) && d in p.dirty && d < CountInUse(p.entries, p.n)
    requires forall y :: y in p.dirty ==> y >= d
    requires d !in links || (remove && DroppedIn(p, 0, |p.entries|, d))
    ensures !AllReached(p.entries, FinalLinks(p, links, remove))
  {
    DirtyAboveKept(p, d);
    RankAll(p);
    var i := NewFrom(p, CountNew(p.entries, p.n) - 1, |p.entries|);
    assert Late(p, i, d);
    assert Hole(p, links, remove, d) && !Spare(p, links, remove, i, d);
    hide FinalLinks, AllReached, Hole, Spare, Scanned, Late;
    ReachedIff(p, links, remove);
  }

  /** Every order and every mask, without an access outside the mask, lead the probe to every needed file. */
  ghost predicate AlwaysReached(entries: seq<Entry>, n: nat, links: map<nat, string>)
  {
    forall dirty: set<nat> :: DirtyOk(dirty, n) ==>
      Inside(Plan(entries, n, dirty)) && ReachedInAnyOrder(Plan(entries, n, dirty), links)
  }

  /**
   * When nothing is on disk right after the cleared bits: that is so if and only if the ids in use fit the
   * cleared bits and no dropped id is below their number.
   */
  lemma AlwaysReachedIff(entries: seq<Entry>, n: nat, links: map<nat, string>)
    requires Scanned(Plan(entries, n, {}), links) && ClearedBits(n) !in links
    ensures AlwaysReached(entries, n, links) <==>
      Fits(entries, n) && forall q: nat :: q < |entries| && IsDropped(entries[q], n) ==>
        entries[q].oldId >= CountInUse(entries, n)
  {
    hide Fits, ReachedInAnyOrder, Inside, Recorded, UniqueNames, CountNeeded, CountInUse, IsDropped;
    if Fits(entries, n) {
      forall dirty: set<nat> | DirtyOk(dirty, n)
        ensures Inside(Plan(entries, n, dirty))
        ensures ReachedInAnyOrder(Plan(entries, n, dirty), links) <==>
          forall q: nat :: q < |entries| && IsDropped(entries[q], n) ==> entries[q].oldId >= CountInUse(entries, n)
      {
        FitsInside(Plan(entries, n, dirty));
        EveryOrderIff(Plan(entries, n, dirty), links);
      }
      assert DirtyOk({}, n);
    } else {
      NotFitting(entries, n, links);
    }
  }

  lemma NotFitting(entries: seq<Entry>, n: nat, links: map<nat, string>)
    requires Scanned(Plan(entries, n, {}), links) && ClearedBits(n) !in links && !Fits(entries, n)
    ensures !AlwaysReached(entries, n, links)
  {
    var dirty := BadMask(entries, n);
    hide FinalLinks, AllReached, Recorded, UniqueNames, CountNeeded, CountInUse, Fits, Inside;
    var p := Plan(entries, n, dirty);
    if Inside(p) {
      var d: nat :| d in dirty && d < CountInUse(entries, n);
      assert forall y :: y in dirty ==> y == ClearedBits(n);
      DirtyBitFails(p, links, true, d);
      assert multiset(entries) == multiset(p.entries) && p == Plan(entries, p.n, p.dirty);
    }
  }
}
