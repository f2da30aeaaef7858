// What rehash does to the links of one bucket, and what a linear probe finds afterwards. The links of a
// bucket are a map from id to target.

module RehashLinks {
  import opened RehashTable
  import opened RehashIds
  import opened RehashPlan

  /** The links after the first k entries have been worked on. */
  function LinksAfter(p: Plan, links: map<nat, string>, k: nat, removeLinks: bool): map<nat, string>
    requires k <= |p.entries|
  {
    if k == 0 then links
    else
      var before, e := LinksAfter(p, links, k - 1, removeLinks), p.entries[k - 1];
      if IsKept(e, p.n) then before
      else if e.needSymlink then before[FinalId(p, k - 1) := e.filename]
      else if removeLinks then before - {e.oldId}
      else before
  }

  function FinalLinks(p: Plan, links: map<nat, string>, removeLinks: bool): map<nat, string>
  {
    LinksAfter(p, links, |p.entries|, removeLinks)
  }

  predicate Drops(p: Plan, q: nat, x: nat)
    requires q < |p.entries|
  {
    IsDropped(p.entries[q], p.n) && p.entries[q].oldId == x
  }

  /** Some entry from i on and before k drops the link x. */
  ghost predicate DroppedIn(p: Plan, i: nat, k: nat, x: nat)
    requires k <= |p.entries|
  {
    exists q: nat :: i <= q < k && Drops(p, q, x)
  }

  // ---- the links in closed form ----

  /** A link whose id is not handed out is there afterwards if it was there before and nobody drops it. */
  lemma {:induction false} OldLink(p: Plan, links: map<nat, string>, k: nat, remove: bool, x: nat)
    requires k <= |p.entries|
    requires forall i: nat :: i < k && IsNew(p.entries[i], p.n) ==> FinalId(p, i) != x
    ensures var l := LinksAfter(p, links, k, remove);
      (x in l <==> x in links && !(remove && DroppedIn(p, 0, k, x))) && (x in l ==> l[x] == links[x])
  {
    hide FinalId;
    if k > 0 {
      OldLink(p, links, k - 1, remove, x);
      DroppedStep(p, 0, k - 1, x);
      hide DroppedIn;
    }
  }

  lemma DroppedStep(p: Plan, i: nat, k: nat, x: nat)
    requires i <= k < |p.entries|
    ensures DroppedIn(p, i, k + 1, x) <==> DroppedIn(p, i, k, x) || Drops(p, k, x)
  {
    hide Drops;
  }

  lemma NewIdsDiffer(p: Plan, i: nat, j: nat)
    requires i < |p.entries| && j < |p.entries| && i != j && IsNew(p.entries[i], p.n) && IsNew(p.entries[j], p.n)
    ensures FinalId(p, i) != FinalId(p, j)
  {
    NewIdFacts(p, i);
    NewIdFacts(p, j);
    RankBefore(p, i, j);
    RankBefore(p, j, i);
  }

  /** A new link is there afterwards unless a later entry drops its id. */
  lemma {:induction false} NewLink(p: Plan, links: map<nat, string>, k: nat, remove: bool, i: nat)
    requires i < k <= |p.entries| && IsNew(p.entries[i], p.n)
    ensures var l, x := LinksAfter(p, links, k, remove), FinalId(p, i);
      (x in l <==> !(remove && DroppedIn(p, i + 1, k, x))) && (x in l ==> l[x] == p.entries[i].filename)
  {
    if i < k - 1 {
      NewLink(p, links, k - 1, remove, i);
      DroppedStep(p, i + 1, k - 1, FinalId(p, i));
      if IsNew(p.entries[k - 1], p.n) { NewIdsDiffer(p, i, k - 1); }
      hide DroppedIn, FinalId;
    }
  }

  // ---- what a linear probe finds ----

  /** Probing 0, 1, 2, ... meets a link to the target before the first gap. */
  ghost predicate Reaches(links: map<nat, string>, target: string)
  {
    exists id: nat :: id in links && links[id] == target && forall j: nat :: j < id ==> j in links
  }

  /** Every link id recorded below num_needed is on disk with the recorded target. */
  ghost predicate Recorded(entries: seq<Entry>, n: nat, links: map<nat, string>)
  {
    forall i :: 0 <= i < |entries| && IsKept(entries[i], n) ==>
      entries[i].oldId in links && links[entries[i].oldId] == entries[i].filename
  }

  /** Every needed file is met by the probe. */
  ghost predicate AllReached(entries: seq<Entry>, links: map<nat, string>)
  {
    forall i :: 0 <= i < |entries| && entries[i].needSymlink ==> Reaches(links, entries[i].filename)
  }

  lemma RecordedDistinct(entries: seq<Entry>, n: nat, links: map<nat, string>)
    requires Recorded(entries, n, links) && UniqueNames(entries)
    ensures DistinctKept(entries, n)
  {
    forall i, j | 0 <= i < j < |entries| && IsKept(entries[i], n) && IsKept(entries[j], n)
      ensures entries[i].oldId != entries[j].oldId
    {
      assert entries[i].filename != entries[j].filename;
    }
  }

  // ---- holes ----

  /** Enough entries before q get a new id for the id x to be among those. */
  predicate HandedBefore(p: Plan, q: nat, x: nat)
    requires q <= |p.entries|
  {
    x !in Taken(p) && FreeBelow(Taken(p), x) < Rank(p, q)
  }

  /**
   * An id that is skipped or handed out, and yet has no link afterwards: nothing was there and its bit was
   * set, or a dropped entry has that id and comes after enough entries that get a new one.
   */
  ghost predicate Hole(p: Plan, links: map<nat, string>, remove: bool, x: nat)
  {
    if x in Taken(p) then x !in links || (remove && DroppedIn(p, 0, |p.entries|, x))
    else remove && exists q: nat :: q < |p.entries| && Drops(p, q, x) && HandedBefore(p, q, x)
  }

  /** An id that is skipped or handed out. */
  predicate Covered(p: Plan, x: nat)
  {
    x in Taken(p) || HandedBefore(p, |p.entries|, x)
  }

  lemma HandedTo(p: Plan, x: nat) returns (i: nat)
    requires HandedBefore(p, |p.entries|, x)
    ensures i < |p.entries| && IsNew(p.entries[i], p.n) && FinalId(p, i) == x && Rank(p, i) == FreeBelow(Taken(p), x)
  {
    i := NewFrom(p, FreeBelow(Taken(p), x), |p.entries|);
    NthFreeAt(Taken(p), x);
  }

  lemma HoleIsCovered(p: Plan, links: map<nat, string>, remove: bool, x: nat)
    requires Hole(p, links, remove, x)
    ensures Covered(p, x)
  {
    hide Rank;
    if x !in Taken(p) {
      var q: nat :| q < |p.entries| && Drops(p, q, x) && HandedBefore(p, q, x);
      RankMonotone(p, q, |p.entries|);
    }
  }

  /** Among the ids that are skipped or handed out, the holes are just those without a link. */
  lemma HoleIff(p: Plan, links: map<nat, string>, remove: bool, x: nat)
    requires Covered(p, x)
    ensures x in FinalLinks(p, links, remove) <==> !Hole(p, links, remove, x)
  {
    if x in Taken(p) {
      TakenLink(p, links, remove, x);
    } else {
      var i := HandedTo(p, x);
      NewLink(p, links, |p.entries|, remove, i);
      forall q: nat | q < |p.entries| ensures i < q <==> HandedBefore(p, q, x) { RankBefore(p, i, q); }
      hide FinalId, LinksAfter, Taken, HandedBefore, Drops;
    }
  }

  lemma TakenLink(p: Plan, links: map<nat, string>, remove: bool, x: nat)
    requires x in Taken(p)
    ensures var l := FinalLinks(p, links, remove);
      (x in l <==> !Hole(p, links, remove, x)) && (x in l ==> x in links && l[x] == links[x])
  {
    forall i: nat | i < |p.entries| && IsNew(p.entries[i], p.n) ensures FinalId(p, i) != x { NewIdFacts(p, i); }
    OldLink(p, links, |p.entries|, remove, x);
    hide FinalId, LinksAfter, Taken, DroppedIn;
  }

  /** The entry gets an id beyond x, or x itself. */
  predicate Late(p: Plan, i: nat, x: nat)
    requires i < |p.entries|
  {
    IsNew(p.entries[i], p.n) && FreeBelow(Taken(p), x) <= Rank(p, i)
  }

  /** Below x, on a dirty id, a link to the entry's file has been left from before. */
  ghost predicate Spare(p: Plan, links: map<nat, string>, remove: bool, i: nat, x: nat)
    requires i < |p.entries|
  {
    exists y: nat :: y in p.dirty && y < x && y in links && links[y] == p.entries[i].filename &&
      !(remove && DroppedIn(p, 0, |p.entries|, y))
  }

  lemma CoveredBelow(p: Plan, i: nat, x: nat)
    requires i < |p.entries| && IsNew(p.entries[i], p.n) && x <= FinalId(p, i)
    ensures Covered(p, x) && FreeBelow(Taken(p), x) <= Rank(p, i)
  {
    NewIdFacts(p, i);
    RankAll(p);
    FreeBelowMonotone(Taken(p), x, FinalId(p, i));
  }

  /** What the theorems below ask of a bucket: the counts and the links are those of a scan, in any order. */
  ghost predicate Scanned(p: Plan, links: map<nat, string>)
  {
    p.n == CountNeeded(p.entries) && UniqueNames(p.entries) && Recorded(p.entries, p.n, links) && DirtyOk(p.dirty, p.n)
  }

  /** Every id below num_needed has a link in the end. */
  lemma NoHoleBelowNeeded(p: Plan, links: map<nat, string>, remove: bool, x: nat)
    requires Scanned(p, links) && x < p.n
    ensures x in FinalLinks(p, links, remove)
  {
    RecordedDistinct(p.entries, p.n, links);
    CountUsed(p.entries, p.n);
    DirtyAboveKept(p, p.n);
    RankAll(p);
    FreeBelowMonotone(Taken(p), x, p.n);
    if x in Taken(p) {
      var i := KeptFrom(p.entries, p.n, x);
    }
    hide CountNeeded, UniqueNames, Taken, Rank, FinalLinks, FreeBelow, KeptIds;
    HoleIff(p, links, remove, x);
  }

  lemma LeastHole(p: Plan, links: map<nat, string>, remove: bool, bound: nat) returns (h: nat)
    ensures h <= bound + 1 && forall x: nat :: x < h ==> !Hole(p, links, remove, x)
    ensures h <= bound ==> Hole(p, links, remove, h)
  {
    h := 0;
    while h <= bound && !Hole(p, links, remove, h)
      invariant h <= bound + 1 && forall x: nat :: x < h ==> !Hole(p, links, remove, x)
    {
      h := h + 1;
    }
  }

  lemma KeptReached(p: Plan, links: map<nat, string>, remove: bool, i: nat)
    requires Scanned(p, links) && i < |p.entries| && IsKept(p.entries[i], p.n)
    ensures Reaches(FinalLinks(p, links, remove), p.entries[i].filename)
  {
    var l, x := FinalLinks(p, links, remove), p.entries[i].oldId;
    forall j: nat | j < p.n ensures j in l { NoHoleBelowNeeded(p, links, remove, j); }
    KeptHas(p.entries, p.n, i);
    assert x in Taken(p);
    hide FinalLinks, Taken, CountNeeded, UniqueNames, Hole;
    TakenLink(p, links, remove, x);
    assert l[x] == p.entries[i].filename;
  }

  /** A new entry is reached at its own id, or at a spare link below the first hole. */
  lemma NewReached(p: Plan, links: map<nat, string>, remove: bool, i: nat)
    requires i < |p.entries| && IsNew(p.entries[i], p.n)
    requires forall x: nat :: Late(p, i, x) && Hole(p, links, remove, x) ==> Spare(p, links, remove, i, x)
    ensures Reaches(FinalLinks(p, links, remove), p.entries[i].filename)
  {
    hide FinalId, FinalLinks, Hole, Covered, Rank, Taken, FreeBelow;
    var l, f := FinalLinks(p, links, remove), FinalId(p, i);
    var h := LeastHole(p, links, remove, f);
    forall x: nat | x <= f && x < h ensures x in l {
      CoveredBelow(p, i, x);
      HoleIff(p, links, remove, x);
    }
    if h <= f {
      CoveredBelow(p, i, h);
      assert Late(p, i, h);
      SpareLink(p, links, remove, i, h);
    } else {
      NewIsLinked(p, links, remove, i);
    }
  }

  lemma NewIsLinked(p: Plan, links: map<nat, string>, remove: bool, i: nat)
    requires i < |p.entries| && IsNew(p.entries[i], p.n)
    ensures var l, x := FinalLinks(p, links, remove), FinalId(p, i); x in l ==> l[x] == p.entries[i].filename
  {
    NewLink(p, links, |p.entries|, remove, i);
  }

  lemma SpareLink(p: Plan, links: map<nat, string>, remove: bool, i: nat, h: nat)
    requires i < |p.entries| && Spare(p, links, remove, i, h)
    ensures var l := FinalLinks(p, links, remove);
      exists y: nat :: y < h && y in l && l[y] == p.entries[i].filename
  {
    var y: nat :| y in p.dirty && y < h && y in links && links[y] == p.entries[i].filename &&
      !(remove && DroppedIn(p, 0, |p.entries|, y));
    hide FinalLinks, DroppedIn;
    TakenLink(p, links, remove, y);
  }

  /** An entry beyond a hole is reached at a spare link only. */
  lemma BeyondHole(p: Plan, links: map<nat, string>, remove: bool, i: nat, h: nat)
    requires UniqueNames(p.entries) && Recorded(p.entries, p.n, links)
    requires i < |p.entries| && Late(p, i, h) && Hole(p, links, remove, h)
    requires Reaches(FinalLinks(p, links, remove), p.entries[i].filename)
    ensures Spare(p, links, remove, i, h)
  {
    var l := FinalLinks(p, links, remove);
    HoleIsCovered(p, links, remove, h);
    HoleIff(p, links, remove, h);
    var y: nat :| y in l && l[y] == p.entries[i].filename && forall j: nat :: j < y ==> j in l;
    assert y < h;
    hide FinalLinks, Reaches;
    if y in Taken(p) {
      SpareFound(p, links, remove, i, h, y);
    } else {
      FreeBelowMonotone(Taken(p), y, h);
      NewIdFacts(p, i);
      RankAll(p);
      var j := HandedTo(p, y);
      NewIsLinked(p, links, remove, j);
    }
  }

  lemma SpareFound(p: Plan, links: map<nat, string>, remove: bool, i: nat, h: nat, y: nat)
    requires UniqueNames(p.entries) && Recorded(p.entries, p.n, links)
    requires i < |p.entries| && IsNew(p.entries[i], p.n) && y in Taken(p) && y < h
    requires var l := FinalLinks(p, links, remove); y in l && l[y] == p.entries[i].filename
    ensures Spare(p, links, remove, i, h)
  {
    TakenLink(p, links, remove, y);
    if y in KeptIds(p.entries, p.n) {
      var e := KeptFrom(p.entries, p.n, y);
    }
    hide FinalLinks, LinksAfter, KeptIds, DroppedIn;
  }

  /**
   * After a bucket is processed, in any list order and with any mask, the probe meets every needed file if
   * and only if every entry that gets an id at or beyond a hole has a spare link below it.
   */
  lemma ReachedIff(p: Plan, links: map<nat, string>, remove: bool)
    requires Scanned(p, links)
    ensures AllReached(p.entries, FinalLinks(p, links, remove)) <==>
      forall i: nat, x: nat :: i < |p.entries| && Late(p, i, x) && Hole(p, links, remove, x) ==>
        Spare(p, links, remove, i, x)
  {
    hide FinalLinks, Hole, Spare, Late, Recorded, UniqueNames, CountNeeded, Reaches, DirtyOk;
    if forall i: nat, x: nat :: i < |p.entries| && Late(p, i, x) && Hole(p, links, remove, x) ==>
         Spare(p, links, remove, i, x) {
      forall i: nat | i < |p.entries| && p.entries[i].needSymlink
        ensures Reaches(FinalLinks(p, links, remove), p.entries[i].filename)
      {
        if IsKept(p.entries[i], p.n) { KeptReached(p, links, remove, i); } else { NewReached(p, links, remove, i); }
      }
    }
    if AllReached(p.entries, FinalLinks(p, links, remove)) {
      forall i: nat, x: nat | i < |p.entries| && Late(p, i, x) && Hole(p, links, remove, x)
        ensures Spare(p, links, remove, i, x)
      {
        LateIsNew(p, i, x);
        BeyondHole(p, links, remove, i, x);
      }
    }
  }

  lemma LateIsNew(p: Plan, i: nat, x: nat)
    requires i < |p.entries| && Late(p, i, x)
    ensures IsNew(p.entries[i], p.n)
  {}
}
