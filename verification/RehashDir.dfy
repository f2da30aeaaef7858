// The second half of do_dir: for every bucket, in place, mark the kept ids in the mask, hand out new ids,
// and change the links on disk. An access outside the mask ends the run: what the program does from
// there is not defined, so it is told apart and nothing is said about it.

module RehashDir {
  import opened RehashBits
  import opened RehashTable
  import opened RehashIds
  import opened RehashPlan
  import opened RehashLinks
  import opened RehashOrder

  function LinksIn(links: map<Key, map<nat, string>>, key: Key): map<nat, string>
  {
    if key in links then links[key] else map[]
  }

  /**
   * The links of a directory, by (kind, hash) and id. A call may be refused for reasons outside the program,
   * and symlink() fails when the name exists; a call that fails changes nothing.
   */
  class Directory {
    var links: map<Key, map<nat, string>>
    ghost var failed: nat       // how many calls have failed so far
    ghost var refused: nat      // how many of them were refused

    constructor (links: map<Key, map<nat, string>>)
      ensures this.links == links && failed == refused == 0
    {
      this.links := links;
      failed, refused := 0, 0;
    }

    function LinksOf(key: Key): map<nat, string>
      reads this
    {
      LinksIn(links, key)
    }

    /** unlink(); a missing link is no error. */
    method Unlink(key: Key, id: nat) returns (error: bool)
      modifies this
      ensures LinksOf(key) == if error then old(LinksOf(key)) else old(LinksOf(key)) - {id}
      ensures forall k :: k != key ==> LinksOf(k) == old(LinksOf(k))
      ensures failed == old(failed) + if error then 1 else 0
      ensures refused == old(refused) + if error then 1 else 0
    {
      var refusal: bool := *;
      error := refusal && id in LinksOf(key);
      if error {
        failed, refused := failed + 1, refused + 1;
      } else {
        links := links[key := LinksOf(key) - {id}];
      }
    }

    /** symlink(); it fails when the name exists. */
    method Symlink(key: Key, id: nat, target: string) returns (error: bool)
      modifies this
      ensures LinksOf(key) == if error then old(LinksOf(key)) else old(LinksOf(key))[id := target]
      ensures forall k :: k != key ==> LinksOf(k) == old(LinksOf(k))
      ensures failed == old(failed) + if error then 1 else 0
      ensures refused >= old(refused)
      ensures error <==> id in old(LinksOf(key)) || refused > old(refused)
    {
      var refusal: bool := *;
      error := refusal || id in LinksOf(key);
      if error { failed := failed + 1; }
      if refusal { refused := refused + 1; }
      if !error {
        links := links[key := LinksOf(key)[id := target]];
      }
    }

    /** What a method reports is the number of calls that failed in it, and without refusals none did. */
    twostate predicate Counted(errs: nat)
      reads this
    {
      failed == old(failed) + errs && refused >= old(refused) && (refused == old(refused) ==> errs == 0)
    }
  }

  /** The bits that are set beyond those cleared for a bucket. */
  ghost function DirtyIds(mask: seq<bv8>, n: nat): set<nat>
  {
    set j: nat | j < 8 * |mask| && ClearedBits(n) <= j && IsSet(mask, j)
  }

  /** The plan of a bucket, for the mask as the buckets before it have left it. */
  ghost function PlanOf(b: Bucket, mask: seq<bv8>): Plan
  {
    Plan(b.entries, b.numNeeded, DirtyIds(mask, b.numNeeded))
  }

  /** The bits of the mask are this set of ids. */
  ghost predicate MaskIs(mask: seq<bv8>, ids: set<nat>)
  {
    forall j: nat :: IsSet(mask, j) <==> j in ids
  }

  /** The clearing and the first loop: mark the ids that are kept. */
  method MarkKept(entries: seq<Entry>, n: nat, idmask: array<bv8>) returns (inside: bool)
    requires idmask.Length == MAX_COLLISIONS / 8
    modifies idmask
    ensures inside <==> n <= MAX_COLLISIONS
    ensures inside ==> MaskIs(idmask[..], KeptIds(entries, n) + DirtyIds(old(idmask[..]), n))
  {
    if (n + 7) / 8 > idmask.Length { return false; }
    ghost var dirty := DirtyIds(idmask[..], n);
    ClearBytes(idmask, (n + 7) / 8);
    assert KeptIds(entries[..0], n) == {};
    var i := 0;
    while i < |entries|
      invariant 0 <= i <= |entries|
      invariant MaskIs(idmask[..], KeptIds(entries[..i], n) + dirty)
    {
      assert entries[..i + 1][..i] == entries[..i];
      if entries[i].oldId < n {
        BitSet(idmask, entries[i].oldId);
      }
      i := i + 1;
    }
    assert entries[..i] == entries;
    return true;
  }

  /** The search for a free id. It tests every id from the start on, and stops at the next free one. */
  method FindFree(idmask: array<bv8>, start: nat, ghost taken: set<nat>, ghost m: nat)
    returns (inside: bool, nextid: nat)
    requires idmask.Length == MAX_COLLISIONS / 8 && MaskIs(idmask[..], Used(taken, m))
    requires start <= NthFree(taken, m)
    ensures inside <==> NthFree(taken, m) < MAX_COLLISIONS
    ensures inside ==> nextid == NthFree(taken, m)
  {
    nextid := start;
    BelowNthFree(taken, m);
    NthFreeIsNew(taken, m);
    assert NthFree(taken, m) !in taken;
    hide NthFree;
    while true
      invariant start <= nextid <= NthFree(taken, m)
      decreases NthFree(taken, m) - nextid
    {
      if nextid / 8 >= idmask.Length { return false, nextid; }
      var set_ := BitIsSet(idmask, nextid);
      if !set_ {
        assert nextid !in Used(taken, m);
        return true, nextid;
      }
      assert nextid in Used(taken, m);
      nextid := nextid + 1;
    }
  }

  /** Mark an id as taken. */
  method TakeId(idmask: array<bv8>, id: nat, ghost used: set<nat>)
    requires id / 8 < idmask.Length && MaskIs(idmask[..], used)
    modifies idmask
    ensures MaskIs(idmask[..], used + {id})
  {
    BitSet(idmask, id);
  }

  /** A new link, in place of whatever has its name. */
  method MakeLink(dir: Directory, key: Key, id: nat, target: string) returns (errs: nat)
    modifies dir
    ensures errs == 0 ==> dir.LinksOf(key) == old(dir.LinksOf(key))[id := target]
    ensures forall k :: k != key ==> dir.LinksOf(k) == old(dir.LinksOf(k))
    ensures dir.Counted(errs)
  {
    errs := 0;
    var error := dir.Unlink(key, id);
    if error { errs := errs + 1; }
    error := dir.Symlink(key, id, target);
    if error { errs := errs + 1; }
  }

  /**
   * The loops of do_dir for one bucket, for any mask. They stay inside the mask exactly if the plan says so;
   * then, without errors, the links of the bucket are those of the plan. Links of other buckets are never
   * touched.
   */
  method ProcessBucket(b: Bucket, idmask: array<bv8>, dir: Directory, removeLinks: bool)
    returns (inside: bool, errs: nat)
    requires idmask.Length == MAX_COLLISIONS / 8
    modifies idmask, dir
    ensures inside <==> Inside(PlanOf(b, old(idmask[..])))
    ensures dir.Counted(errs)
    ensures inside && errs == 0 ==>
      dir.LinksOf(b.key) == FinalLinks(PlanOf(b, old(idmask[..])), old(dir.LinksOf(b.key)), removeLinks)
    ensures forall k :: k != b.key ==> dir.LinksOf(k) == old(dir.LinksOf(k))
    // The mask ends up as the set of ids in use and the bits that were dirty.
    ensures inside ==>
      var p := PlanOf(b, old(idmask[..])); MaskIs(idmask[..], UsedIds(p) + p.dirty)
  {
    hide MaskIs, IsSet, KeptIds, CountNew, NthFree, Used, DirtyIds, FreeBelow;
    var entries, n := b.entries, b.numNeeded;
    ghost var p, links := PlanOf(b, idmask[..]), dir.LinksOf(b.key);
    ghost var taken := Taken(p);
    errs := 0;
    inside := MarkKept(entries, n, idmask);
    if !inside { return; }
    NothingUsed(p);
    var nextid := 0;
    var i := 0;
    while i < |entries|
      invariant 0 <= i <= |entries| && inside && Rank(p, i) <= FreeBelow(taken, MAX_COLLISIONS)
      invariant MaskIs(idmask[..], Used(taken, Rank(p, i)))
      invariant nextid == if Rank(p, i) == 0 then 0 else NthFree(taken, Rank(p, i) - 1)
      invariant dir.Counted(errs)
      invariant errs == 0 ==> dir.LinksOf(b.key) == LinksAfter(p, links, i, removeLinks)
      invariant forall k :: k != b.key ==> dir.LinksOf(k) == old(dir.LinksOf(k))
    {
      var ep := entries[i];
      RankStep(p, i);
      if ep.oldId < n {
        // the link exists and is used as it is
      } else if ep.needSymlink {
        ghost var m := Rank(p, i);
        RankBefore(p, i, |entries|);
        RankAll(p);
        if m > 0 { NthFreeIncreases(taken, m - 1, m); }
        NthFreeBelowIff(taken, m, MAX_COLLISIONS);
        inside, nextid := FindFree(idmask, nextid, taken, m);
        if !inside { return; }
        assert nextid == FinalId(p, i);
        var failed := MakeLink(dir, b.key, nextid, ep.filename);
        errs := errs + failed;
        TakeId(idmask, nextid, Used(taken, m));
        UsedStep(taken, m);
      } else if removeLinks {
        var error := dir.Unlink(b.key, ep.oldId);
        if error { errs := errs + 1; }
      }
      i := i + 1;
    }
    RankAll(p);
    UsedAndDirty(p);
  }

  lemma NothingUsed(p: Plan)
    ensures Used(Taken(p), 0) == Taken(p) && Rank(p, 0) == 0
  {}

  lemma UsedStep(taken: set<nat>, m: nat)
    ensures Used(taken, m + 1) == Used(taken, m) + {NthFree(taken, m)}
  {}

  lemma UsedAndDirty(p: Plan)
    ensures Used(Taken(p), CountNew(p.entries, p.n)) == UsedIds(p) + p.dirty
  {}

  lemma DirtyIdsOk(mask: seq<bv8>, n: nat)
    requires |mask| == MAX_COLLISIONS / 8
    ensures DirtyOk(DirtyIds(mask, n), n)
  {}

  // ---- all buckets ----

  ghost predicate BucketFits(b: Bucket)
  {
    Fits(b.entries, b.numNeeded)
  }

  /** The links of a bucket are those of its plan, for some mask. */
  ghost predicate Planned(b: Bucket, before: map<nat, string>, after: map<nat, string>, removeLinks: bool)
  {
    exists dirty: set<nat> ::
      DirtyOk(dirty, b.numNeeded) && after == FinalLinks(Plan(b.entries, b.numNeeded, dirty), before, removeLinks)
  }

  /** The key's chain has been worked off, or its bucket is among the first c of the chain at i. */
  ghost predicate Processed(chains: seq<seq<Bucket>>, key: Key, i: nat, c: nat)
    requires |chains| == TABLE_SIZE
  {
    Ndx(key) < i || (Ndx(key) == i && exists j :: 0 <= j < c && j < |chains[i]| && chains[i][j].key == key)
  }

  /** The links of a key at that point: those of its plan once it is processed, before that as they were. */
  ghost predicate LinksAt(chains: seq<seq<Bucket>>, links: map<Key, map<nat, string>>, key: Key, i: nat, c: nat,
                          removeLinks: bool, now: map<nat, string>)
    requires |chains| == TABLE_SIZE
  {
    if Processed(chains, key, i, c) then Planned(BucketIn(chains[Ndx(key)], key), LinksIn(links, key), now, removeLinks)
    else now == LinksIn(links, key)
  }

  ghost predicate Progress(chains: seq<seq<Bucket>>, links: map<Key, map<nat, string>>, i: nat, c: nat,
                           removeLinks: bool, now: map<Key, map<nat, string>>)
    requires |chains| == TABLE_SIZE
  {
    forall key :: LinksAt(chains, links, key, i, c, removeLinks, LinksIn(now, key))
  }

  lemma ProgressStart(chains: seq<seq<Bucket>>, links: map<Key, map<nat, string>>, removeLinks: bool)
    requires |chains| == TABLE_SIZE
    ensures Progress(chains, links, 0, 0, removeLinks, links)
  {
    hide Planned, LinksIn;
  }

  lemma NothingPlanned(key: Key, links: map<nat, string>, removeLinks: bool)
    ensures Planned(EmptyBucket(key), links, links, removeLinks)
  {
    assert DirtyOk({}, 0) && FinalLinks(Plan([], 0, {}), links, removeLinks) == links;
  }

  /** A key without a bucket has nothing to be done for. */
  lemma ChainDone(chains: seq<seq<Bucket>>, links: map<Key, map<nat, string>>, i: nat, removeLinks: bool,
                  now: map<Key, map<nat, string>>)
    requires |chains| == TABLE_SIZE && i < TABLE_SIZE && ChainOk(chains[i], i)
    requires Progress(chains, links, i, |chains[i]|, removeLinks, now)
    ensures Progress(chains, links, i + 1, 0, removeLinks, now)
  {
    hide Planned, LinksIn;
    forall key ensures LinksAt(chains, links, key, i + 1, 0, removeLinks, LinksIn(now, key)) {
      assert LinksAt(chains, links, key, i, |chains[i]|, removeLinks, LinksIn(now, key));
      if Ndx(key) == i && !Processed(chains, key, i, |chains[i]|) {
        BucketInNone(chains[i], key);
        NothingPlanned(key, LinksIn(links, key), removeLinks);
      }
    }
  }

  lemma BucketDone(chains: seq<seq<Bucket>>, links: map<Key, map<nat, string>>, i: nat, c: nat, removeLinks: bool,
                   before: map<Key, map<nat, string>>, now: map<Key, map<nat, string>>)
    requires |chains| == TABLE_SIZE && i < TABLE_SIZE && ChainOk(chains[i], i) && c < |chains[i]|
    requires Progress(chains, links, i, c, removeLinks, before)
    requires var b := chains[i][c];
      Planned(b, LinksIn(before, b.key), LinksIn(now, b.key), removeLinks) &&
      forall key :: key != b.key ==> LinksIn(now, key) == LinksIn(before, key)
    ensures Progress(chains, links, i, c + 1, removeLinks, now)
  {
    var b := chains[i][c];
    BucketInAt(chains[i], b.key, c);
    hide Planned, BucketIn, Ndx, LinksIn;
    assert Ndx(b.key) == i;
    forall key ensures LinksAt(chains, links, key, i, c + 1, removeLinks, LinksIn(now, key)) {
      assert LinksAt(chains, links, key, i, c, removeLinks, LinksIn(before, key));
      if key != b.key {
        assert Processed(chains, key, i, c + 1) <==> Processed(chains, key, i, c);
      }
    }
  }

  /** What one bucket's run means for the table. */
  lemma BucketOutcome(chains: seq<seq<Bucket>>, i: nat, c: nat, mask: seq<bv8>)
    requires |chains| == TABLE_SIZE && i < TABLE_SIZE && ChainOk(chains[i], i) && c < |chains[i]|
    requires |mask| == MAX_COLLISIONS / 8
    ensures var b := chains[i][c];
      b == BucketIn(chains[Ndx(b.key)], b.key) && DirtyOk(PlanOf(b, mask).dirty, b.numNeeded) &&
      (!Inside(PlanOf(b, mask)) ==> !BucketFits(b))
  {
    var b := chains[i][c];
    BucketInAt(chains[i], b.key, c);
    DirtyIdsOk(mask, b.numNeeded);
    hide DirtyIds, Inside, Fits, DirtyOk;
    if BucketFits(b) { FitsInside(PlanOf(b, mask)); }
  }

  /**
   * The bucket loops of do_dir over the whole table. They stay inside the mask unless some bucket does not
   * fit the bits cleared for it; then, without errors, every bucket's links are those of its plan for some
   * mask.
   */
  method ProcessTable(table: HashTable, idmask: array<bv8>, dir: Directory, removeLinks: bool)
    returns (inside: bool, errs: nat)
    requires table.Valid() && idmask.Length == MAX_COLLISIONS / 8
    modifies table.chains, idmask, dir
    ensures !inside ==> exists key :: !BucketFits(old(table.Lookup(key)))
    ensures inside ==> dir.Counted(errs)
    ensures inside && errs == 0 ==>
      forall key :: Planned(old(table.Lookup(key)), old(dir.LinksOf(key)), dir.LinksOf(key), removeLinks)
    ensures inside ==> forall i :: 0 <= i < table.chains.Length ==> table.chains[i] == []
  {
    hide FinalLinks, BucketIn, BucketFits, LinksIn, Inside, DirtyOk, DirtyIds, Progress, Planned, PlanOf, ChainOk;
    ghost var chains, links := table.chains[..], dir.links;
    assert forall key :: table.Lookup(key) == BucketIn(chains[Ndx(key)], key);
    hide Ndx;
    ProgressStart(chains, links, removeLinks);
    inside, errs := true, 0;
    var i := 0;
    while i < table.chains.Length
      invariant 0 <= i <= table.chains.Length && table.chains.Length == TABLE_SIZE && inside
      invariant errs == 0 ==> Progress(chains, links, i, 0, removeLinks, dir.links)
      invariant dir.Counted(errs)
      invariant forall k :: i <= k < table.chains.Length ==> table.chains[k] == chains[k]
      invariant forall k :: 0 <= k < i ==> table.chains[k] == []
    {
      var chain := table.chains[i];
      var c := 0;
      while c < |chain|
        invariant 0 <= c <= |chain| && chain == chains[i] && inside
        invariant errs == 0 ==> Progress(chains, links, i, c, removeLinks, dir.links)
        invariant dir.Counted(errs)
        invariant forall k :: i <= k < table.chains.Length ==> table.chains[k] == chains[k]
        invariant forall k :: 0 <= k < i ==> table.chains[k] == []
      {
        BucketOutcome(chains, i, c, idmask[..]);
        ghost var before, mask := dir.links, idmask[..];
        var failed;
        label Bucket: inside, failed := ProcessBucket(chain[c], idmask, dir, removeLinks);
        if !inside {
          assert !BucketFits(old(table.Lookup(chain[c].key)));
          return;
        }
        if errs + failed == 0 {
          PlannedBy(chain[c], mask, LinksIn(before, chain[c].key), dir.LinksOf(chain[c].key), removeLinks);
          forall key | key != chain[c].key ensures LinksIn(dir.links, key) == LinksIn(before, key) {
            assert dir.LinksOf(key) == old@Bucket(dir.LinksOf(key));
          }
          BucketDone(chains, links, i, c, removeLinks, before, dir.links);
        }
        errs := errs + failed;
        c := c + 1;
      }
      if errs == 0 { ChainDone(chains, links, i, removeLinks, dir.links); }
      table.chains[i] := [];
      i := i + 1;
    }
    if errs == 0 { AllProcessed(chains, links, removeLinks, dir.links); }
  }

  lemma PlannedBy(b: Bucket, mask: seq<bv8>, before: map<nat, string>, after: map<nat, string>, removeLinks: bool)
    requires DirtyOk(PlanOf(b, mask).dirty, b.numNeeded) && after == FinalLinks(PlanOf(b, mask), before, removeLinks)
    ensures Planned(b, before, after, removeLinks)
  {
    hide FinalLinks, DirtyOk;
  }

  lemma AllProcessed(chains: seq<seq<Bucket>>, links: map<Key, map<nat, string>>, removeLinks: bool,
                     now: map<Key, map<nat, string>>)
    requires |chains| == TABLE_SIZE && Progress(chains, links, TABLE_SIZE, 0, removeLinks, now)
    ensures forall key :: Planned(BucketIn(chains[Ndx(key)], key), LinksIn(links, key), LinksIn(now, key), removeLinks)
  {
    hide Planned, BucketIn, LinksIn;
    forall key ensures Planned(BucketIn(chains[Ndx(key)], key), LinksIn(links, key), LinksIn(now, key), removeLinks) {
      assert LinksAt(chains, links, key, TABLE_SIZE, 0, removeLinks, LinksIn(now, key));
    }
  }

  // ---- the whole directory ----

  /**
   * A scanned link whose stored number is below num_needed is on disk under that number. It may fail for a
   * number that does not fit 16 bits, or one that is not written the way rehash writes it.
   */
  ghost predicate Backed(key: Key, calls: seq<Call>, links: map<nat, string>, n: nat)
  {
    forall i :: 0 <= i < |calls| && calls[i].Link? && calls[i].key == key && Stored(calls[i].id) < n ==>
      Stored(calls[i].id) in links && links[Stored(calls[i].id)] == calls[i].target
  }

  /** No link that may be removed has a number below the number of ids in use. */
  ghost predicate DropsApart(entries: seq<Entry>, n: nat)
  {
    forall q: nat :: q < |entries| && IsDropped(entries[q], n) ==> entries[q].oldId >= CountInUse(entries, n)
  }

  /** The conditions on one bucket of the scanned directory. */
  ghost predicate GoodBucket(key: Key, calls: seq<Call>, links: map<nat, string>, removeLinks: bool)
  {
    var b := After(key, calls);
    NoOverflow(key, calls) && OneDigestPerFile(key, calls) && Backed(key, calls, links, b.numNeeded) &&
    b.numNeeded == CountNeeded(b.entries) && BucketFits(b) && (removeLinks ==> DropsApart(b.entries, b.numNeeded))
  }

  lemma KeptOnDisk(key: Key, calls: seq<Call>, links: map<nat, string>, entries: seq<Entry>, n: nat)
    requires Backed(key, calls, links, n) && IdsOk(key, calls, entries) && n <= NO_ID
    ensures Recorded(entries, n, links)
  {
    hide MinId, Stored;
    forall i | 0 <= i < |entries| && IsKept(entries[i], n)
      ensures entries[i].oldId in links && links[entries[i].oldId] == entries[i].filename
    {
      MinIdFrom(key, calls, entries[i].filename);
    }
  }

  lemma GoodBucketPlan(key: Key, calls: seq<Call>, links: map<nat, string>, removeLinks: bool, dirty: set<nat>)
    requires GoodBucket(key, calls, links, removeLinks) && DirtyOk(dirty, After(key, calls).numNeeded)
    ensures var b := After(key, calls);
      Scanned(Plan(b.entries, b.numNeeded, dirty), links) && Clean(Plan(b.entries, b.numNeeded, dirty)) &&
      DigestsOk(key, calls, b.entries)
  {
    var b := After(key, calls);
    AfterOk(key, calls);
    OldIdIsMin(key, calls);
    DigestsComplete(key, calls);
    hide After, DigestsOk, IdsOk, NoOverflow, OneDigestPerFile, Backed, Recorded, DirtyOk, DropsApart, UniqueNames;
    KeptOnDisk(key, calls, links, b.entries, b.numNeeded);
    FitsInside(Plan(b.entries, b.numNeeded, dirty));
  }

  lemma GoodBucketReached(key: Key, calls: seq<Call>, links: map<nat, string>, removeLinks: bool, dirty: set<nat>)
    requires GoodBucket(key, calls, links, removeLinks) && DirtyOk(dirty, After(key, calls).numNeeded)
    ensures var b := After(key, calls);
      AllReached(b.entries, FinalLinks(Plan(b.entries, b.numNeeded, dirty), links, removeLinks))
  {
    GoodBucketPlan(key, calls, links, removeLinks, dirty);
    var b := After(key, calls);
    var p := Plan(b.entries, b.numNeeded, dirty);
    hide After, DigestsOk, NoOverflow, OneDigestPerFile, Backed, DirtyOk, Scanned, Clean, AllReached, FinalLinks,
      KeptIds, CountNew, Rank;
    ReachedCleanIff(p, links);
    if removeLinks {
      forall q: nat | q < |b.entries| ensures DropHarmless(p, q) {
        RankMonotone(p, q, |b.entries|);
        RankAll(p);
      }
    }
  }

  /** A probe of the links that this file's certificate hashes to meets a file with the same digest. */
  ghost predicate CertFound(file: Call, calls: seq<Call>, links: map<nat, string>)
    requires file.File?
  {
    exists i :: 0 <= i < |calls| && calls[i].File? && calls[i].key == file.key && calls[i].digest == file.digest &&
      Reaches(links, calls[i].name)
  }

  lemma FilesReached(key: Key, calls: seq<Call>, links: map<nat, string>, after: map<nat, string>, removeLinks: bool,
                     file: Call)
    requires GoodBucket(key, calls, links, removeLinks) && Planned(After(key, calls), links, after, removeLinks)
    requires file in calls && file.File? && file.key == key
    ensures CertFound(file, calls, after)
  {
    var b := After(key, calls);
    var dirty: set<nat> :| DirtyOk(dirty, b.numNeeded) &&
      after == FinalLinks(Plan(b.entries, b.numNeeded, dirty), links, removeLinks);
    GoodBucketReached(key, calls, links, removeLinks, dirty);
    GoodBucketPlan(key, calls, links, removeLinks, dirty);
    hide GoodBucket, After, Scanned, Clean, FinalLinks, Reaches, DirtyOk;
    var c :| 0 <= c < |calls| && calls[c] == file;
    assert NeededWith(b.entries, calls[c].digest);
    var i :| 0 <= i < |b.entries| && b.entries[i].needSymlink && b.entries[i].digest == file.digest;
    var k :| 0 <= k < |calls| && calls[k] == File(key, b.entries[i].filename, b.entries[i].digest);
  }

  /**
   * rehash of one directory: after a run without errors a linear probe finds every certificate and every
   * revocation list in a good bucket, whatever the mask held, and in any order of the names; the program
   * scans them sorted. It reports the files that overflowed their bucket and the calls that failed, and
   * without refusals none fails. The run stays inside the mask unless some bucket does not fit the bits cleared for it.
   */
  method Rehash(calls: seq<Call>, idmask: array<bv8>, dir: Directory, removeLinks: bool) returns (inside: bool, errs: nat)
    requires idmask.Length == MAX_COLLISIONS / 8
    modifies idmask, dir
    ensures !inside ==> exists key :: !BucketFits(After(key, calls))
    ensures inside ==> errs >= FileErrors(calls) && dir.Counted(errs - FileErrors(calls))
    ensures inside && errs == 0 ==> forall i :: 0 <= i < |calls| && calls[i].File? ==>
      GoodBucket(calls[i].key, calls, old(dir.LinksOf(calls[i].key)), removeLinks) ==>
      CertFound(calls[i], calls, dir.LinksOf(calls[i].key))
  {
    hide GoodBucket, After, BucketFits, Planned, CertFound, LinksIn;
    ghost var links := dir.links;
    var table := new HashTable();
    var scanErrs := Scan(table, calls);
    var failed;
    inside, failed := ProcessTable(table, idmask, dir, removeLinks);
    errs := scanErrs + failed;
    if inside && errs == 0 {
      forall i | 0 <= i < |calls| && calls[i].File? &&
        GoodBucket(calls[i].key, calls, LinksIn(links, calls[i].key), removeLinks)
        ensures CertFound(calls[i], calls, dir.LinksOf(calls[i].key))
      {
        var key := calls[i].key;
        FilesReached(key, calls, LinksIn(links, key), dir.LinksOf(key), removeLinks, calls[i]);
      }
    }
  }
}
