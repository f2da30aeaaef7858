// Directories that show what a link nobody needs can do, as the scan meets them. Names are scanned in
// sorted order: the links come before the files if the hash begins with a digit, and after a.pem if it
// begins with a letter from b on.

module RehashExamples {
  import opened RehashTable
  import opened RehashIds
  import opened RehashPlan
  import opened RehashLinks
  import opened RehashOrder

  lemma OneStale(key: Key, target: string, id: nat)
    requires id < NO_ID
    ensures After(key, [Link(key, target, id)]) == Bucket(key, 0, [Entry(target, id, false, ZERO_DIGEST)])
  {
    var one := [Link(key, target, id)];
    assert one[..0] == [];
    AfterStep(key, one);
    assert After(key, []) == EmptyBucket(key);
  }

  lemma Below2(s: seq<Entry>)
    requires |s| == 2
    ensures s[..1] == [s[0]] && [s[0]][..0] == []
  {}

  /** A link left behind by a deleted file takes id 0, and the only needed file is pushed to id 1. */
  lemma StaleExample(key: Key, digest: Digest)
    requires digest != ZERO_DIGEST
    ensures var b := After(key, [Link(key, "gone.pem", 0), File(key, "a.pem", digest)]);
      b.entries == [Entry("gone.pem", 0, false, ZERO_DIGEST), Entry("a.pem", NO_ID, true, digest)] &&
      b.numNeeded == 1 && FinalId(Plan(b.entries, 1, {}), 1) == 1
  {
    var calls := [Link(key, "gone.pem", 0), File(key, "a.pem", digest)];
    var e, f := Entry("gone.pem", 0, false, ZERO_DIGEST), Entry("a.pem", NO_ID, true, digest);
    assert calls[..1] == [calls[0]];
    OneStale(key, "gone.pem", 0);
    AfterStep(key, calls);
    hide After;
    assert e.filename != "a.pem";
    EntryIndexIs([e], "a.pem", 1);
    assert !HasDigest([e], digest);
    assert Apply(Bucket(key, 0, [e]), calls[1]).0 == Bucket(key, 1, [e] + [f]);
    assert [e] + [f] == [e, f];
    TwoEntries(e, f);
  }

  /** After a kept link 0 the next new entry gets id 1. */
  lemma TwoEntries(e: Entry, f: Entry)
    requires e.oldId == 0 && f.oldId == NO_ID
    ensures FinalId(Plan([e, f], 1, {}), 1) == 1
  {
    Below2([e, f]);
    assert KeptIds([e], 1) == {0} && KeptIds([e, f], 1) == {0} && CountNew([e], 1) == 0;
    assert NextFree({0}, 0) == NextFree({0}, 1) == 1;
    assert Taken(Plan([e, f], 1, {})) == {0};
  }

  lemma OneFile(key: Key, name: string, digest: Digest)
    ensures After(key, [File(key, name, digest)]) == Bucket(key, 1, [Entry(name, NO_ID, true, digest)])
  {
    var one := [File(key, name, digest)];
    assert one[..0] == [];
    AfterStep(key, one);
    assert After(key, []) == EmptyBucket(key);
    assert !HasDigest([], digest) && EntryIndex([], name) == 0;
  }

  lemma AddStale(b: Bucket, target: string, id: nat)
    requires id < NO_ID && b.numNeeded < MAX_COLLISIONS
    requires forall i :: 0 <= i < |b.entries| ==> b.entries[i].filename != target
    ensures Apply(b, Link(b.key, target, id)).0 ==
            Bucket(b.key, b.numNeeded, b.entries + [Entry(target, id, false, ZERO_DIGEST)])
  {
    assert EntryIndex(b.entries, target) == |b.entries|;
  }

  /**
   * A file, and links 0 and 1 to files that are gone, met in this order because the hash begins with a
   * letter from b on: link 0 is kept, the file gets id 1, and then the old link 1 is removed and takes the
   * new one with it.
   */
  lemma ClobberExample(key: Key, digest: Digest)
    requires 0xb000_0000 <= key.hash <= 0xffff_ffff && digest != ZERO_DIGEST
    ensures var calls := [File(key, "a.pem", digest), Link(key, "gone.pem", 0), Link(key, "old.pem", 1)];
      var links := map[0 := "gone.pem", 1 := "old.pem"];
      var b := After(key, calls);
      b.numNeeded == 1 && Scanned(Plan(b.entries, 1, {}), links) &&
      !AllReached(b.entries, FinalLinks(Plan(b.entries, 1, {}), links, true))
  {
    var calls := [File(key, "a.pem", digest), Link(key, "gone.pem", 0), Link(key, "old.pem", 1)];
    var f, e, g := Entry("a.pem", NO_ID, true, digest), Entry("gone.pem", 0, false, ZERO_DIGEST),
                   Entry("old.pem", 1, false, ZERO_DIGEST);
    ClobberBucket(key, digest, f, e, g);
    var entries := [f, e, g];
    var p, links := Plan(entries, 1, {}), map[0 := "gone.pem", 1 := "old.pem"];
    hide After;
    ThreeEntries(f, e, g);
    hide CountNeeded, KeptIds, CountNew, FinalLinks, AllReached;
    assert e.filename[0] != g.filename[0];
    ThreeScanned(f, e, g, links);
    assert entries[..2] == [f, e];
    assert Rank(p, 2) == 1 && !DropHarmless(p, 2);
    hide Scanned;
    ReachedCleanIff(p, links);
  }

  lemma ThreeScanned(f: Entry, e: Entry, g: Entry, links: map<nat, string>)
    requires f.oldId >= 1 && g.oldId >= 1 && e.oldId == 0 && 0 in links && links[0] == e.filename
    requires f.filename != e.filename && f.filename != g.filename && e.filename != g.filename
    requires CountNeeded([f, e, g]) == 1
    ensures Scanned(Plan([f, e, g], 1, {}), links)
  {
    hide CountNeeded;
  }

  lemma ThreeEntries(f: Entry, e: Entry, g: Entry)
    requires IsNew(f, 1) && f.needSymlink && IsKept(e, 1) && !e.needSymlink && IsDropped(g, 1)
    ensures CountNeeded([f, e, g]) == 1 && KeptIds([f, e, g], 1) == {e.oldId} && CountNew([f, e], 1) == 1
  {
    assert [f, e, g][..2] == [f, e] && [f, e][..1] == [f] && [f][..0] == [];
    assert CountNeeded([f]) == 1 && CountNew([f], 1) == 1 && KeptIds([f], 1) == {};
    assert CountNeeded([f, e]) == 1 && CountNew([f, e], 1) == 1 && KeptIds([f, e], 1) == {e.oldId};
  }

  lemma ClobberBucket(key: Key, digest: Digest, f: Entry, e: Entry, g: Entry)
    requires digest != ZERO_DIGEST && f == Entry("a.pem", NO_ID, true, digest)
    requires e == Entry("gone.pem", 0, false, ZERO_DIGEST) && g == Entry("old.pem", 1, false, ZERO_DIGEST)
    ensures After(key, [File(key, "a.pem", digest), Link(key, "gone.pem", 0), Link(key, "old.pem", 1)]) ==
            Bucket(key, 1, [f, e, g])
  {
    var calls := [File(key, "a.pem", digest), Link(key, "gone.pem", 0), Link(key, "old.pem", 1)];
    var one, two := calls[..1], calls[..2];
    assert one == [calls[0]] && two[..1] == one && calls[..2] == two;
    OneFile(key, "a.pem", digest);
    AfterStep(key, two);
    AfterStep(key, calls);
    hide After, Apply;
    assert f.filename != "gone.pem" && f.filename != "old.pem" && e.filename[0] != "old.pem"[0];
    AddStale(Bucket(key, 1, [f]), "gone.pem", 0);
    AddStale(Bucket(key, 1, [f] + [e]), "old.pem", 1);
    assert [f] + [e] + [g] == [f, e, g];
  }

  // ---- one id too many for the bits that are cleared ----

  function Stem(k: nat): (stem: string)
    ensures |stem| == k + 1 && stem[0] == 'f'
  {
    if k == 0 then "f" else Stem(k - 1) + "f"
  }

  /** f.pem, ff.pem, fff.pem and so on. */
  function FileName(k: nat): (name: string)
    ensures |name| == k + 5 && name[0] == 'f'
  {
    Stem(k) + ".pem"
  }

  function DigestNo(k: nat): (digest: Digest)
    requires k < 255
    ensures |digest| == 20 && digest[0] == (k + 1) as char
  {
    ZERO_DIGEST[0 := (k + 1) as char]
  }

  /** A link that nobody needs, and k files without a link. */
  function CrowdedCalls(key: Key, k: nat): seq<Call>
    requires k < 255
  {
    if k == 0 then [Link(key, "gone.pem", 0)]
    else CrowdedCalls(key, k - 1) + [File(key, FileName(k - 1), DigestNo(k - 1))]
  }

  function Crowd(k: nat): (entries: seq<Entry>)
    requires k < 255
    ensures |entries| == k + 1 && entries[0] == Entry("gone.pem", 0, false, ZERO_DIGEST)
    ensures forall i :: 1 <= i <= k ==> entries[i] == Entry(FileName(i - 1), NO_ID, true, DigestNo(i - 1))
  {
    if k == 0 then [Entry("gone.pem", 0, false, ZERO_DIGEST)]
    else Crowd(k - 1) + [Entry(FileName(k - 1), NO_ID, true, DigestNo(k - 1))]
  }

  lemma AddFile(b: Bucket, name: string, digest: Digest)
    requires b.numNeeded < MAX_COLLISIONS && !HasDigest(b.entries, digest)
    requires forall i :: 0 <= i < |b.entries| ==> b.entries[i].filename != name
    ensures Apply(b, File(b.key, name, digest)).0 ==
            Bucket(b.key, b.numNeeded + 1, b.entries + [Entry(name, NO_ID, true, digest)])
  {
    assert EntryIndex(b.entries, name) == |b.entries|;
  }

  lemma {:induction false} AfterCrowd(key: Key, k: nat)
    requires k < 255
    ensures After(key, CrowdedCalls(key, k)) == Bucket(key, k, Crowd(k))
  {
    if k == 0 {
      OneStale(key, "gone.pem", 0);
    } else {
      AfterCrowd(key, k - 1);
      var calls := CrowdedCalls(key, k);
      assert calls[..|calls| - 1] == CrowdedCalls(key, k - 1);
      AfterStep(key, calls);
      var b, name, digest := Bucket(key, k - 1, Crowd(k - 1)), FileName(k - 1), DigestNo(k - 1);
      hide After, CrowdedCalls, Apply, FileName, DigestNo;
      assert digest[0] != ZERO_DIGEST[0];
      assert "gone.pem"[0] != name[0];
      AddFile(b, name, digest);
    }
  }

  lemma {:induction false} CrowdCounts(k: nat, n: nat)
    requires k < 255 && 0 < n <= NO_ID
    ensures CountNeeded(Crowd(k)) == k && CountNew(Crowd(k), n) == k && KeptIds(Crowd(k), n) == {0}
  {
    var last := |Crowd(k)| - 1;
    if k == 0 {
      assert Crowd(0)[..0] == [];
    } else {
      CrowdCounts(k - 1, n);
      assert Crowd(k)[..last] == Crowd(k - 1);
    }
  }

  lemma CrowdScanned(key: Key, k: nat, dirty: set<nat>)
    requires 0 < k < 255 && DirtyOk(dirty, k)
    ensures After(key, CrowdedCalls(key, k)) == Bucket(key, k, Crowd(k))
    ensures Scanned(Plan(Crowd(k), k, dirty), map[0 := "gone.pem"]) && CountInUse(Crowd(k), k) == k + 1
    ensures forall q :: 0 <= q < |Crowd(k)| ==> !IsDropped(Crowd(k)[q], k)
  {
    AfterCrowd(key, k);
    AfterOk(key, CrowdedCalls(key, k));
    CrowdCounts(k, k);
    hide After, CrowdedCalls, Crowd, FileName, DigestNo, CountNeeded, CountNew, KeptIds, UniqueNames;
  }

  /**
   * A link that nobody needs and eight files without a link, or any multiple of eight. As many bits as there
   * are files are cleared, and one id more is in use. Whether the last file is found depends on the bit
   * after them, which was never cleared: the bucket before may have left it set.
   */
  lemma DirtyExample(key: Key, k: nat)
    requires k % 8 == 0 && 0 < k <= 248
    ensures var b, links := After(key, CrowdedCalls(key, k)), map[0 := "gone.pem"];
      AllReached(b.entries, FinalLinks(Plan(b.entries, b.numNeeded, {}), links, true)) &&
      !AllReached(b.entries, FinalLinks(Plan(b.entries, b.numNeeded, {k}), links, true))
  {
    var entries, links := Crowd(k), map[0 := "gone.pem"];
    var clean, dirty := Plan(entries, k, {}), Plan(entries, k, {k});
    assert ClearedBits(k) == k;
    CrowdScanned(key, k, {});
    CrowdScanned(key, k, {k});
    hide After, Crowd, CountInUse, FinalLinks, AllReached, Scanned;
    ReachedCleanIff(clean, links);
    DirtyBitFails(dirty, links, true, k);
  }
}
