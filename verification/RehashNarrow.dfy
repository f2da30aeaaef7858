// Link numbers that do not fit 16 bits. The number in a link's name is stored as an unsigned short, so a
// bucket may keep an id under which there is no link, or one to another file.

module RehashNarrow {
  import opened RehashTable
  import CString
  import opened RehashIds
  import opened RehashPlan
  import opened RehashLinks
  import opened RehashOrder

  ghost predicate OneLinkPerFile(links: map<nat, string>)
  {
    forall x, y :: x in links && y in links && links[x] == links[y] ==> x == y
  }

  predicate IsLinkOf(e: Entry, links: map<nat, string>, x: nat)
  {
    x in links && links[x] == e.filename && Stored(x) == e.oldId
  }

  /** The ids of the entries are the stored numbers of the links on disk. */
  ghost predicate FromDisk(entries: seq<Entry>, n: nat, links: map<nat, string>)
  {
    (forall i :: 0 <= i < |entries| && entries[i].oldId < NO_ID ==> exists x :: IsLinkOf(entries[i], links, x)) &&
    (forall x :: x in links && Stored(x) < n ==> exists i :: 0 <= i < |entries| && IsLinkOf(entries[i], links, x))
  }

  /** A bucket scanned from such a directory, without a stale link among those kept. */
  ghost predicate ScannedOnce(p: Plan, links: map<nat, string>)
  {
    p.n == CountNeeded(p.entries) && p.n <= NO_ID && UniqueNames(p.entries) && NoStale(p.entries, p.n) &&
    DirtyOk(p.dirty, p.n) && OneLinkPerFile(links) && FromDisk(p.entries, p.n, links)
  }

  /** No kept id was narrowed. */
  ghost predicate NumbersFit(n: nat, links: map<nat, string>)
  {
    forall x :: x in links && Stored(x) < n ==> x <= NO_ID
  }

  lemma FitIsScanned(p: Plan, links: map<nat, string>)
    requires ScannedOnce(p, links) && NumbersFit(p.n, links)
    ensures Scanned(p, links) && Clean(p) && CountInUse(p.entries, p.n) == p.n
  {
    forall i | 0 <= i < |p.entries| && IsKept(p.entries[i], p.n)
      ensures p.entries[i].oldId in links && links[p.entries[i].oldId] == p.entries[i].filename
    {
      var x :| IsLinkOf(p.entries[i], links, x);
    }
    RecordedDistinct(p.entries, p.n, links);
    CountUsed(p.entries, p.n);
    NoStaleCount(p.entries, p.n);
  }

  /** In the end the links to a kept entry's file are those that were there before. */
  lemma KeptTarget(p: Plan, links: map<nat, string>, remove: bool, i: nat, y: nat)
    requires UniqueNames(p.entries) && i < |p.entries| && IsKept(p.entries[i], p.n)
    requires y in FinalLinks(p, links, remove) && FinalLinks(p, links, remove)[y] == p.entries[i].filename
    ensures y in links && links[y] == p.entries[i].filename
  {
    hide FinalId, FinalLinks;
    if e: nat :| e < |p.entries| && IsNew(p.entries[e], p.n) && FinalId(p, e) == y {
      NewIsLinked(p, links, remove, e);
    } else {
      OldStays(p, links, remove, y);
    }
  }

  lemma OldStays(p: Plan, links: map<nat, string>, remove: bool, y: nat)
    requires forall e: nat :: e < |p.entries| && IsNew(p.entries[e], p.n) ==> FinalId(p, e) != y
    ensures var l := FinalLinks(p, links, remove); y in l ==> y in links && l[y] == links[y]
  {
    OldLink(p, links, |p.entries|, remove, y);
  }

  /** An id below num_needed that is on disk in the end is one in use. */
  lemma PresentIsUsed(p: Plan, links: map<nat, string>, remove: bool, x: nat)
    requires ScannedOnce(p, links) && x < p.n && x in FinalLinks(p, links, remove)
    ensures x in UsedIds(p)
  {
    hide FinalId, FinalLinks, UsedIds, NoStale, UniqueNames, CountNeeded, DirtyOk;
    if e: nat :| e < |p.entries| && IsNew(p.entries[e], p.n) && FinalId(p, e) == x {
      FinalIdUsed(p, e);
    } else {
      OldStays(p, links, remove, x);
      var i :| 0 <= i < |p.entries| && IsLinkOf(p.entries[i], links, x);
      KeptIsUsed(p, i);
    }
  }

  lemma KeptIsUsed(p: Plan, i: nat)
    requires i < |p.entries| && IsKept(p.entries[i], p.n)
    ensures p.entries[i].oldId in UsedIds(p)
  {
    KeptHas(p.entries, p.n, i);
  }

  /** With all ids below num_needed on disk, no two kept entries share an id. */
  lemma AllPresentDistinct(p: Plan, links: map<nat, string>, remove: bool)
    requires ScannedOnce(p, links) && forall x: nat :: x < p.n ==> x in FinalLinks(p, links, remove)
    ensures DistinctKept(p.entries, p.n)
  {
    forall x: nat | x < p.n ensures x in UsedIds(p) { PresentIsUsed(p, links, remove, x); }
    UsedIdsCount(p);
    SubsetCount(Below(p.n), UsedIds(p));
    CountUsed(p.entries, p.n);
    NoStaleCount(p.entries, p.n);
  }

  /** A kept file whose link has a narrowed number is not reached. */
  lemma NarrowedNotReached(p: Plan, links: map<nat, string>, remove: bool, x: nat)
    requires ScannedOnce(p, links) && x in links && Stored(x) < p.n && x > NO_ID
    ensures !AllReached(p.entries, FinalLinks(p, links, remove))
  {
    var i :| 0 <= i < |p.entries| && IsLinkOf(p.entries[i], links, x);
    hide FinalLinks, CountNeeded, DirtyOk;
    if AllReached(p.entries, FinalLinks(p, links, remove)) {
      var l := FinalLinks(p, links, remove);
      assert Reaches(l, p.entries[i].filename);
      var y: nat :| y in l && l[y] == p.entries[i].filename && forall j: nat :: j < y ==> j in l;
      KeptTarget(p, links, remove, i, y);
      assert y == x;
      AllPresentDistinct(p, links, remove);
      SharedId(p, links, remove, i, x);
    }
  }

  lemma OwnerOf(p: Plan, links: map<nat, string>, x: nat) returns (e: nat)
    requires ScannedOnce(p, links) && x in links && Stored(x) < p.n
    ensures e < |p.entries| && IsLinkOf(p.entries[e], links, x)
  {
    hide CountNeeded, DirtyOk, NoStale, UniqueNames, OneLinkPerFile;
    e :| 0 <= e < |p.entries| && IsLinkOf(p.entries[e], links, x);
  }

  /** Two files do not share a kept id. */
  lemma OneOwner(p: Plan, links: map<nat, string>, i: nat, x: nat, e: nat, y: nat)
    requires ScannedOnce(p, links) && DistinctKept(p.entries, p.n) && i < |p.entries| && e < |p.entries|
    requires IsLinkOf(p.entries[i], links, x) && IsLinkOf(p.entries[e], links, y)
    requires Stored(x) == Stored(y) < p.n
    ensures x == y
  {
    hide CountNeeded, DirtyOk, NoStale, UniqueNames, FromDisk;
  }

  lemma SharedId(p: Plan, links: map<nat, string>, remove: bool, i: nat, x: nat)
    requires ScannedOnce(p, links) && DistinctKept(p.entries, p.n) && i < |p.entries|
    requires IsLinkOf(p.entries[i], links, x) && Stored(x) < p.n && x > NO_ID
    ensures Stored(x) !in FinalLinks(p, links, remove)
  {
    var s := Stored(x);
    KeptHas(p.entries, p.n, i);
    assert s in Taken(p);
    TakenLink(p, links, remove, s);
    hide FinalLinks, ScannedOnce, DistinctKept, Hole;
    if s in links {
      var e := OwnerOf(p, links, s);
      OneOwner(p, links, i, x, e, s);
    }
  }

  /**
   * For a bucket with one link per file and no stale link kept, in any list order and with any mask: every
   * needed file is reached if and only if no link that is kept has a number above 65535.
   */
  lemma NarrowingIff(p: Plan, links: map<nat, string>, remove: bool)
    requires ScannedOnce(p, links)
    ensures AllReached(p.entries, FinalLinks(p, links, remove)) <==> NumbersFit(p.n, links)
  {
    hide FinalLinks, AllReached, CountNeeded, DirtyOk, NoStale, UniqueNames, OneLinkPerFile, FromDisk, Scanned, Clean;
    if NumbersFit(p.n, links) {
      FitIsScanned(p, links);
      ReachedCleanIff(p, links);
      forall q: nat | q < |p.entries| ensures DropHarmless(p, q) {
        RankMonotone(p, q, |p.entries|);
        RankAll(p);
      }
    } else {
      var x :| x in links && Stored(x) < p.n && x > NO_ID;
      NarrowedNotReached(p, links, remove, x);
    }
  }

  // ---- from a scan ----

  /** The links that were scanned are those on disk. */
  ghost predicate SameLinks(key: Key, calls: seq<Call>, links: map<nat, string>)
  {
    (forall x :: x in links ==> Link(key, links[x], x) in calls) &&
    (forall c :: c in calls && c.Link? && c.key == key ==> c.id in links && links[c.id] == c.target)
  }

  lemma ScanIsFromDisk(key: Key, calls: seq<Call>, links: map<nat, string>, n: nat)
    requires NoOverflow(key, calls) && SameLinks(key, calls, links) && OneLinkPerFile(links) && n <= NO_ID
    ensures FromDisk(After(key, calls).entries, n, links)
  {
    OldIdIsMin(key, calls);
    var entries := After(key, calls).entries;
    hide After, NoOverflow, MinId, Stored;
    forall i | 0 <= i < |entries| && entries[i].oldId < NO_ID ensures exists x :: IsLinkOf(entries[i], links, x) {
      var x := LinkOfEntry(key, calls, links, entries[i]);
    }
    forall x | x in links && Stored(x) < n ensures exists i :: 0 <= i < |entries| && IsLinkOf(entries[i], links, x) {
      MinIdLeast(key, calls, links[x], x);
      var i :| 0 <= i < |entries| && entries[i].filename == links[x];
      var y := LinkOfEntry(key, calls, links, entries[i]);
      assert y == x;
    }
  }

  lemma LinkOfEntry(key: Key, calls: seq<Call>, links: map<nat, string>, e: Entry) returns (x: nat)
    requires SameLinks(key, calls, links) && e.oldId == MinId(key, calls, e.filename) < NO_ID
    ensures IsLinkOf(e, links, x)
  {
    MinIdFrom(key, calls, e.filename);
    var k :| 0 <= k < |calls| && LinkWith(key, calls[k], e.filename, e.oldId);
    assert calls[k] in calls;
    x := calls[k].id;
  }

  /** The same for a scan, in whatever order it met the links and files. */
  lemma ScanNarrowingIff(key: Key, calls: seq<Call>, links: map<nat, string>, dirty: set<nat>, remove: bool)
    requires NoOverflow(key, calls) && SameLinks(key, calls, links) && OneLinkPerFile(links)
    requires var b := After(key, calls);
      b.numNeeded == CountNeeded(b.entries) && NoStale(b.entries, b.numNeeded) && DirtyOk(dirty, b.numNeeded)
    ensures var b := After(key, calls);
      AllReached(b.entries, FinalLinks(Plan(b.entries, b.numNeeded, dirty), links, remove)) <==>
      NumbersFit(b.numNeeded, links)
  {
    var b := After(key, calls);
    AfterOk(key, calls);
    hide After, NoOverflow, SameLinks, OneLinkPerFile, FromDisk, FinalLinks, AllReached, NumbersFit, NoStale, DirtyOk,
      CountNeeded, UniqueNames;
    ScanIsFromDisk(key, calls, links, b.numNeeded);
    NarrowingIff(Plan(b.entries, b.numNeeded, dirty), links, remove);
  }

  // ---- one link and one file ----

  lemma OneEntry(key: Key, id: nat, digest: Digest)
    requires digest != ZERO_DIGEST
    ensures After(key, [Link(key, "a.pem", id), File(key, "a.pem", digest)]) ==
            Bucket(key, 1, [Entry("a.pem", Stored(id), true, digest)])
  {
    var calls := [Link(key, "a.pem", id), File(key, "a.pem", digest)];
    var one, e := [calls[0]], Entry("a.pem", Stored(id), false, ZERO_DIGEST);
    assert one[..0] == [] && calls[..1] == one;
    AfterStep(key, one);
    AfterStep(key, calls);
    assert After(key, []) == EmptyBucket(key);
    hide After, Stored;
    assert Apply(EmptyBucket(key), calls[0]).0 == Bucket(key, 0, [] + [e]);
    EntryIndexIs([e], "a.pem", 0);
    hide EntryIndex;
    assert [e][0 := e.(needSymlink := true, digest := digest)] == [Entry("a.pem", Stored(id), true, digest)];
  }

  /** Which numbers above 65535 are stored as 0. */
  lemma StoredAsZero(id: nat)
    ensures (Stored(id) < 1 ==> id <= NO_ID) <==> id <= NO_ID || id > CString.ULONG_MAX || id % 65536 != 0
  {}

  /**
   * A single link to a single file: it is found unless its number is a positive multiple of 65536 that an
   * unsigned long can hold.
   */
  lemma OneLinkIff(key: Key, id: nat, digest: Digest, dirty: set<nat>, remove: bool)
    requires digest != ZERO_DIGEST && DirtyOk(dirty, 1)
    ensures var b := After(key, [Link(key, "a.pem", id), File(key, "a.pem", digest)]);
      Reaches(FinalLinks(Plan(b.entries, b.numNeeded, dirty), map[id := "a.pem"], remove), "a.pem") <==>
      id <= NO_ID || id > CString.ULONG_MAX || id % 65536 != 0
  {
    OneEntry(key, id, digest);
    var e, links := Entry("a.pem", Stored(id), true, digest), map[id := "a.pem"];
    var p := Plan([e], 1, dirty);
    StoredAsZero(id);
    hide After, FinalLinks, Reaches, Stored;
    assert [e][..0] == [];
    assert CountNeeded([e]) == 1;
    assert IsLinkOf(e, links, id);
    assert p.entries[0] == e;
    NarrowingIff(p, links, remove);
  }
}
