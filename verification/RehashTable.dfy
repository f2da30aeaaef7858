// The bucket table of rehash: add_entry, and the scan of a directory that calls it for every link and
// every certificate or revocation list.

module RehashTable {
  import opened Options
  import CString

  datatype Kind = Cert | Crl

  datatype Key = Key(kind: Kind, hash: nat)

  /** A SHA-1 digest; a fresh entry has one of all zeros. */
  type Digest = seq<char>

  const ZERO_DIGEST: Digest := "\0\0\0\0\0\0\0\0\0\0\0\0\0\0\0\0\0\0\0\0"
  const MAX_COLLISIONS: nat := 256
  const NO_ID: nat := 65535         // ~0 as an unsigned short
  const TABLE_SIZE: nat := 257

  datatype Entry = Entry(filename: string, oldId: nat, needSymlink: bool, digest: Digest)

  datatype Bucket = Bucket(key: Key, numNeeded: nat, entries: seq<Entry>)

  function EmptyBucket(key: Key): Bucket
  {
    Bucket(key, 0, [])
  }

  /** The chain of a key: unsigned 32-bit addition, then the table size. */
  function Ndx(key: Key): (i: nat)
    ensures i < TABLE_SIZE
  {
    ((match key.kind case Cert => 0 case Crl => 1) + key.hash) % 0x1_0000_0000 % TABLE_SIZE
  }

  lemma NdxIs(hash: nat)
    requires hash < 0x1_0000_0000
    ensures Ndx(Key(Cert, hash)) == hash % 257
    ensures Ndx(Key(Crl, hash)) == if hash == 0xffff_ffff then 0 else (hash + 1) % 257
  {}

  // ---- one call of add_entry on a bucket ----

  ghost predicate HasDigest(entries: seq<Entry>, digest: Digest)
  {
    exists i :: 0 <= i < |entries| && entries[i].digest == digest
  }

  ghost predicate UniqueNames(entries: seq<Entry>)
  {
    forall i, j :: 0 <= i < j < |entries| ==> entries[i].filename != entries[j].filename
  }

  /** The position of a file name, or the number of entries. */
  function EntryIndex(entries: seq<Entry>, filename: string): (n: nat)
    ensures n <= |entries|
    ensures n < |entries| ==> entries[n].filename == filename
    ensures forall j :: 0 <= j < n ==> entries[j].filename != filename
  {
    if entries == [] then 0
    else
      var n := EntryIndex(entries[..|entries| - 1], filename);
      if n < |entries| - 1 then n
      else if entries[|entries| - 1].filename == filename then |entries| - 1 else |entries|
  }

  lemma EntryIndexIs(entries: seq<Entry>, filename: string, k: nat)
    requires UniqueNames(entries) && k <= |entries|
    requires k < |entries| ==> entries[k].filename == filename
    requires k == |entries| ==> forall j :: 0 <= j < k ==> entries[j].filename != filename
    ensures EntryIndex(entries, filename) == k
  {}

  function Min(a: nat, b: nat): nat
  {
    if a < b then a else b
  }

  /** The last part of add_entry, on the entry found or made. */
  function Touch(e: Entry, digest: Option<Digest>, need: bool, oldId: nat): Entry
  {
    var e1 := e.(oldId := Min(oldId, e.oldId));
    if need && !e.needSymlink && digest.Some? then e1.(needSymlink := true, digest := digest.value) else e1
  }

  function NewEntry(filename: string): Entry
  {
    Entry(filename, NO_ID, false, ZERO_DIGEST)
  }

  function CountUp(numNeeded: nat, e: Entry, need: bool): nat
  {
    if need && !e.needSymlink then (numNeeded + 1) % 65536 else numNeeded
  }

  /** What a call does to its bucket, and the number of errors it reports. */
  ghost function Step(b: Bucket, filename: string, digest: Option<Digest>, need: bool, oldId: nat): (Bucket, nat)
  {
    if digest.Some? && HasDigest(b.entries, digest.value) then (b, 0)
    else
      var n := EntryIndex(b.entries, filename);
      if n < |b.entries| then
        (Bucket(b.key, CountUp(b.numNeeded, b.entries[n], need),
                b.entries[n := Touch(b.entries[n], digest, need, oldId)]), 0)
      else if b.numNeeded >= MAX_COLLISIONS then (b, 1)
      else
        (Bucket(b.key, CountUp(b.numNeeded, NewEntry(filename), need),
                b.entries + [Touch(NewEntry(filename), digest, need, oldId)]), 0)
  }

  /** A new file, with no equal digest in the bucket, and the bucket is full: that alone is an error. */
  ghost predicate Overflows(b: Bucket, filename: string, digest: Option<Digest>)
  {
    b.numNeeded >= 256 &&
    (forall i :: 0 <= i < |b.entries| ==> b.entries[i].filename != filename) &&
    (digest.Some? ==> forall i :: 0 <= i < |b.entries| ==> b.entries[i].digest != digest.value)
  }

  /** Two sorts of call leave the bucket alone: a digest that is there, and an overflow. */
  lemma StepIgnores(b: Bucket, filename: string, digest: Option<Digest>, need: bool, oldId: nat)
    ensures var r := Step(b, filename, digest, need, oldId);
      (r.1 == if Overflows(b, filename, digest) then 1 else 0) &&
      (Overflows(b, filename, digest) ==> r.0 == b) &&
      ((exists i :: 0 <= i < |b.entries| && digest == Some(b.entries[i].digest)) ==> r.0 == b)
  {
    if i :| 0 <= i < |b.entries| && digest == Some(b.entries[i].digest) {
      assert HasDigest(b.entries, digest.value);
    }
    var n := EntryIndex(b.entries, filename);
    assert n < |b.entries| ==> b.entries[n].filename == filename;
  }

  /**
   * Any other call is recorded: the entry of the file gets the least id, becomes needed with the digest if
   * it was not and the call needs it, and that is counted; a file without an entry gets one at the end.
   */
  lemma StepRecords(b: Bucket, filename: string, digest: Option<Digest>, need: bool, oldId: nat)
    requires UniqueNames(b.entries) && (need ==> digest.Some?) && oldId <= 65535
    requires !Overflows(b, filename, digest)
    requires digest.Some? ==> forall i :: 0 <= i < |b.entries| ==> b.entries[i].digest != digest.value
    ensures var r := Step(b, filename, digest, need, oldId).0;
      r.key == b.key &&
      (forall i :: 0 <= i < |b.entries| && b.entries[i].filename == filename ==>
        var e := b.entries[i];
        var id := if oldId < e.oldId then oldId else e.oldId;
        r.entries == b.entries[i := if need && !e.needSymlink then Entry(filename, id, true, digest.value)
                                    else Entry(filename, id, e.needSymlink, e.digest)] &&
        r.numNeeded == if need && !e.needSymlink then (b.numNeeded + 1) % 65536 else b.numNeeded) &&
      ((forall i :: 0 <= i < |b.entries| ==> b.entries[i].filename != filename) ==>
        r.entries == b.entries + [Entry(filename, oldId, need, if need then digest.value else ZERO_DIGEST)] &&
        r.numNeeded == if need then (b.numNeeded + 1) % 65536 else b.numNeeded)
  {
    assert digest.Some? ==> !HasDigest(b.entries, digest.value);
    hide HasDigest;
    forall i | 0 <= i < |b.entries| && b.entries[i].filename == filename ensures EntryIndex(b.entries, filename) == i {
      EntryIndexIs(b.entries, filename, i);
    }
  }

  // ---- the table ----

  predicate ChainOk(chain: seq<Bucket>, i: nat)
  {
    (forall k :: 0 <= k < |chain| ==> Ndx(chain[k].key) == i) &&
    (forall j, k :: 0 <= j < k < |chain| ==> chain[j].key != chain[k].key)
  }

  /** The bucket of a key in a chain; a key without a bucket counts as an empty one. */
  function BucketIn(chain: seq<Bucket>, key: Key): (b: Bucket)
    ensures b.key == key
  {
    if chain == [] then EmptyBucket(key) else if chain[0].key == key then chain[0] else BucketIn(chain[1..], key)
  }

  lemma {:induction false} BucketInAt(chain: seq<Bucket>, key: Key, i: nat)
    requires i < |chain| && chain[i].key == key
    requires forall j :: 0 <= j < i ==> chain[j].key != key
    ensures BucketIn(chain, key) == chain[i]
  {
    if i > 0 { BucketInAt(chain[1..], key, i - 1); }
  }

  lemma {:induction false} BucketInNone(chain: seq<Bucket>, key: Key)
    requires forall j :: 0 <= j < |chain| ==> chain[j].key != key
    ensures BucketIn(chain, key) == EmptyBucket(key)
  {
    if chain != [] { BucketInNone(chain[1..], key); }
  }

  /** Replacing one bucket of a chain changes what is found for its own key only. */
  lemma {:induction false} BucketInUpdate(chain: seq<Bucket>, i: nat, b: Bucket, other: Key)
    requires i < |chain| && chain[i].key == b.key && other != b.key
    ensures BucketIn(chain[i := b], other) == BucketIn(chain, other)
  {
    if i > 0 {
      BucketInUpdate(chain[1..], i - 1, b, other);
      assert chain[i := b][1..] == chain[1..][i - 1 := b];
    } else {
      assert chain[i := b][1..] == chain[1..];
    }
  }

  class HashTable {
    const chains: array<seq<Bucket>>

    /** Every bucket is in its right chain, and no key has two. */
    ghost predicate Valid()
      reads chains
    {
      chains.Length == TABLE_SIZE && forall i :: 0 <= i < chains.Length ==> ChainOk(chains[i], i)
    }

    function Lookup(key: Key): (b: Bucket)
      reads chains
      requires chains.Length == TABLE_SIZE
      ensures b.key == key
    {
      BucketIn(chains[Ndx(key)], key)
    }

    constructor ()
      ensures Valid() && fresh(chains) && forall key :: Lookup(key) == EmptyBucket(key)
    {
      chains := new seq<Bucket>[TABLE_SIZE](_ => []);
    }

    /** The first loop of add_entry: find the bucket, or put a new one in front of the chain. */
    method FindBucket(key: Key) returns (pos: nat)
      requires Valid()
      modifies chains
      ensures Valid() && pos < |chains[Ndx(key)]| && chains[Ndx(key)][pos].key == key
      ensures forall k :: Lookup(k) == old(Lookup(k))
    {
      var ndx := Ndx(key);
      var chain := chains[ndx];
      pos := 0;
      while pos < |chain|
        invariant 0 <= pos <= |chain| && forall j :: 0 <= j < pos ==> chain[j].key != key
      {
        if chain[pos].key == key { return; }
        pos := pos + 1;
      }
      BucketInNone(chain, key);
      chains[ndx] := [EmptyBucket(key)] + chain;
      assert chains[ndx][1..] == chain;
      pos := 0;
    }

    /** The second loop: a duplicate digest ends the call, and the file name is looked for on the way. */
    method FindEntry(entries: seq<Entry>, filename: string, digest: Option<Digest>)
      returns (duplicate: bool, found: nat)
      requires UniqueNames(entries)
      ensures duplicate <==> digest.Some? && HasDigest(entries, digest.value)
      ensures !duplicate ==> found == EntryIndex(entries, filename)
    {
      found := |entries|;
      var n := 0;
      while n < |entries|
        invariant 0 <= n <= |entries| && found <= |entries|
        invariant digest.Some? ==> forall j :: 0 <= j < n ==> entries[j].digest != digest.value
        invariant found == |entries| ==> forall j :: 0 <= j < n ==> entries[j].filename != filename
        invariant found < |entries| ==> found < n && entries[found].filename == filename
      {
        if digest.Some? && digest.value == entries[n].digest {
          return true, found;
        }
        if filename == entries[n].filename {
          found := n;
          if digest.None? { break; }
        }
        n := n + 1;
      }
      duplicate := false;
      EntryIndexIs(entries, filename, found);
    }

    /** add_entry. */
    method AddEntry(key: Key, filename: string, digest: Option<Digest>, need: bool, oldId: nat) returns (errs: nat)
      requires Valid() && UniqueNames(Lookup(key).entries)
      requires need ==> digest.Some?
      modifies chains
      ensures Valid()
      ensures (Lookup(key), errs) == Step(old(Lookup(key)), filename, digest, need, oldId)
      ensures errs == if Overflows(old(Lookup(key)), filename, digest) then 1 else 0
      ensures forall k :: k != key ==> Lookup(k) == old(Lookup(k))
    {
      var ndx := Ndx(key);
      var pos := FindBucket(key);
      var chain := chains[ndx];
      var bp := chain[pos];
      BucketInAt(chain, key, pos);
      var duplicate, found := FindEntry(bp.entries, filename, digest);
      if duplicate { return 0; }
      var ep, entries, at := NewEntry(filename), bp.entries, found;
      if found < |entries| {
        ep := entries[found];
      } else {
        if bp.numNeeded >= MAX_COLLISIONS { return 1; }
        entries := entries + [ep];
      }
      if oldId < ep.oldId {
        ep := ep.(oldId := oldId);
      }
      var numNeeded := bp.numNeeded;
      if need && !ep.needSymlink {
        numNeeded := (numNeeded + 1) % 65536;
        ep := ep.(needSymlink := true, digest := digest.value);
      }
      entries := entries[at := ep];
      assert ep == Touch(if found < |bp.entries| then bp.entries[found] else NewEntry(filename), digest, need, oldId);
      assert found == |bp.entries| ==> entries == bp.entries + [ep];
      var b := Bucket(key, numNeeded, entries);
      chains[ndx] := chain[pos := b];
      BucketInAt(chain[pos := b], key, pos);
      forall k | k != key ensures Lookup(k) == old(Lookup(k)) {
        BucketInUpdate(chain, pos, b, k);
      }
      errs := 0;
    }
  }

  // ---- runs of calls ----

  /** The id of a link as add_entry receives it: what strtoul makes of the number, as an unsigned short. */
  function Stored(id: nat): (s: nat)
    ensures s <= NO_ID && (id <= NO_ID ==> s == id)
  {
    (if id > CString.ULONG_MAX then CString.ULONG_MAX else id) % 65536
  }

  /** handle_symlink and do_file, as far as they reach add_entry; the id is the number in the link's name. */
  datatype Call =
    | Link(key: Key, target: string, id: nat)
    | File(key: Key, name: string, digest: Digest)

  ghost function Apply(b: Bucket, call: Call): (Bucket, nat)
  {
    match call
    case Link(_, target, id) => Step(b, target, None, false, Stored(id))
    case File(_, name, digest) => Step(b, name, Some(digest), true, NO_ID)
  }

  /** The bucket of a key after the calls. */
  ghost function After(key: Key, calls: seq<Call>): (b: Bucket)
    ensures b.key == key
  {
    if calls == [] then EmptyBucket(key)
    else
      var b, call := After(key, calls[..|calls| - 1]), calls[|calls| - 1];
      if call.key == key then Apply(b, call).0 else b
  }

  /** The call finds the bucket full. */
  ghost predicate CallOverflows(b: Bucket, call: Call)
  {
    match call
    case Link(_, target, _) => Overflows(b, target, None)
    case File(_, name, digest) => Overflows(b, name, Some(digest))
  }

  lemma ApplyErrors(b: Bucket, call: Call)
    ensures Apply(b, call).1 == if CallOverflows(b, call) then 1 else 0
  {
    match call
    case Link(_, target, id) => StepIgnores(b, target, None, false, Stored(id));
    case File(_, name, digest) => StepIgnores(b, name, Some(digest), true, NO_ID);
  }

  /** No call of this key overflowed its bucket. */
  ghost predicate NoOverflow(key: Key, calls: seq<Call>)
  {
    calls == [] ||
    var front, call := calls[..|calls| - 1], calls[|calls| - 1];
    NoOverflow(key, front) && (call.key == key ==> !CallOverflows(After(key, front), call))
  }

  function CountNeeded(entries: seq<Entry>): nat
  {
    if entries == [] then 0
    else CountNeeded(entries[..|entries| - 1]) + if entries[|entries| - 1].needSymlink then 1 else 0
  }

  ghost predicate EntriesOk(entries: seq<Entry>)
  {
    UniqueNames(entries) &&
    (forall i :: 0 <= i < |entries| && !entries[i].needSymlink ==> entries[i].digest == ZERO_DIGEST) &&
    (forall i, j :: 0 <= i < j < |entries| && entries[i].needSymlink && entries[j].needSymlink ==>
      entries[i].digest != entries[j].digest)
  }

  /** What add_entry keeps of a bucket; num_needed is an unsigned short. */
  ghost predicate BucketOk(b: Bucket)
  {
    EntriesOk(b.entries) && b.numNeeded == CountNeeded(b.entries) % 65536
  }

  /** The entry keeps its digest and flag, or it becomes needed with a digest that no entry has. */
  ghost predicate GoodChange(entries: seq<Entry>, old_: Entry, e: Entry)
  {
    e.filename == old_.filename &&
    ((e.digest == old_.digest && e.needSymlink == old_.needSymlink) ||
     (e.needSymlink && !HasDigest(entries, e.digest)))
  }

  lemma EntriesChanged(entries: seq<Entry>, n: nat, e: Entry)
    requires EntriesOk(entries) && n < |entries| && GoodChange(entries, entries[n], e)
    ensures EntriesOk(entries[n := e])
  {}

  lemma EntriesAdded(entries: seq<Entry>, e: Entry)
    requires EntriesOk(entries) && GoodChange(entries, NewEntry(e.filename), e)
    requires forall j :: 0 <= j < |entries| ==> entries[j].filename != e.filename
    ensures EntriesOk(entries + [e])
  {}

  lemma {:induction false} CountNeededAt(entries: seq<Entry>, n: nat, e: Entry)
    requires n < |entries|
    ensures CountNeeded(entries[n := e]) ==
            CountNeeded(entries) - (if entries[n].needSymlink then 1 else 0) + (if e.needSymlink then 1 else 0)
  {
    var k := |entries| - 1;
    if n < k {
      CountNeededAt(entries[..k], n, e);
      assert entries[n := e][..k] == entries[..k][n := e];
    } else {
      assert entries[n := e][..k] == entries[..k];
    }
  }

  lemma TouchGood(entries: seq<Entry>, old_: Entry, digest: Option<Digest>, need: bool, oldId: nat)
    requires digest.Some? ==> !HasDigest(entries, digest.value)
    ensures GoodChange(entries, old_, Touch(old_, digest, need, oldId))
  {}

  /** num_needed goes with the count, whatever wraps. */
  lemma CountUpIs(count: nat, e: Entry, digest: Option<Digest>, need: bool, oldId: nat)
    requires need ==> digest.Some?
    ensures CountUp(count % 65536, e, need) ==
      (count - (if e.needSymlink then 1 else 0) + if Touch(e, digest, need, oldId).needSymlink then 1 else 0) % 65536
  {}

  lemma StepOk(b: Bucket, filename: string, digest: Option<Digest>, need: bool, oldId: nat)
    requires BucketOk(b) && (need ==> digest.Some?)
    ensures BucketOk(Step(b, filename, digest, need, oldId).0)
  {
    hide EntryIndex, HasDigest, CountNeeded, EntriesOk, GoodChange, Touch, CountUp;
    var n, count := EntryIndex(b.entries, filename), CountNeeded(b.entries);
    if !(digest.Some? && HasDigest(b.entries, digest.value)) {
      if n < |b.entries| {
        var e := Touch(b.entries[n], digest, need, oldId);
        CountNeededAt(b.entries, n, e);
        CountUpIs(count, b.entries[n], digest, need, oldId);
        TouchGood(b.entries, b.entries[n], digest, need, oldId);
        EntriesChanged(b.entries, n, e);
      } else if b.numNeeded < MAX_COLLISIONS {
        var e := Touch(NewEntry(filename), digest, need, oldId);
        CountNeededAdd(b.entries, e);
        CountUpIs(count, NewEntry(filename), digest, need, oldId);
        TouchGood(b.entries, NewEntry(filename), digest, need, oldId);
        TouchName(NewEntry(filename), digest, need, oldId);
        EntriesAdded(b.entries, e);
      }
    }
  }

  lemma TouchName(e: Entry, digest: Option<Digest>, need: bool, oldId: nat)
    ensures Touch(e, digest, need, oldId).filename == e.filename
  {}

  lemma CountNeededAdd(entries: seq<Entry>, e: Entry)
    ensures CountNeeded(entries + [e]) == CountNeeded(entries) + if e.needSymlink then 1 else 0
  {
    assert (entries + [e])[..|entries|] == entries;
  }

  /** After any calls: names unique, needed digests pairwise distinct, num_needed the count of needed entries. */
  lemma {:induction false} AfterOk(key: Key, calls: seq<Call>)
    ensures BucketOk(After(key, calls))
  {
    if calls != [] {
      var front, call := calls[..|calls| - 1], calls[|calls| - 1];
      AfterOk(key, front);
      match call
      case Link(_, target, id) => StepOk(After(key, front), target, None, false, Stored(id));
      case File(_, name, digest) => StepOk(After(key, front), name, Some(digest), true, NO_ID);
    }
  }

  // ---- old_id is the least id seen ----

  /** The least stored id among the links of this key to this file. */
  function MinId(key: Key, calls: seq<Call>, filename: string): (id: nat)
    ensures id <= NO_ID
  {
    if calls == [] then NO_ID
    else
      var m, call := MinId(key, calls[..|calls| - 1], filename), calls[|calls| - 1];
      if call.Link? && call.key == key && call.target == filename then Min(Stored(call.id), m) else m
  }

  ghost predicate IdsOk(key: Key, calls: seq<Call>, entries: seq<Entry>)
  {
    (forall i :: 0 <= i < |entries| ==> entries[i].oldId == MinId(key, calls, entries[i].filename)) &&
    (forall f :: (forall i :: 0 <= i < |entries| ==> entries[i].filename != f) ==> MinId(key, calls, f) == NO_ID)
  }

  lemma {:induction false} OldIdIsMin(key: Key, calls: seq<Call>)
    requires NoOverflow(key, calls)
    ensures IdsOk(key, calls, After(key, calls).entries)
  {
    if calls != [] {
      var front, call := calls[..|calls| - 1], calls[|calls| - 1];
      OldIdIsMin(key, front);
      AfterOk(key, front);
      var b := After(key, front);
      assert calls == front + [call];
      if call.key == key {
        ApplyErrors(b, call);
        StepIds(key, front, call, b);
      } else {
        assert forall f :: MinId(key, calls, f) == MinId(key, front, f);
      }
    }
  }

  predicate LinkWith(key: Key, call: Call, target: string, id: nat)
  {
    call.Link? && call.key == key && call.target == target && Stored(call.id) == id
  }

  lemma {:induction false} MinIdFrom(key: Key, calls: seq<Call>, filename: string)
    requires MinId(key, calls, filename) < NO_ID
    ensures exists i :: 0 <= i < |calls| && LinkWith(key, calls[i], filename, MinId(key, calls, filename))
  {
    var n := |calls| - 1;
    if MinId(key, calls, filename) == MinId(key, calls[..n], filename) {
      MinIdFrom(key, calls[..n], filename);
      var i :| 0 <= i < n && LinkWith(key, calls[..n][i], filename, MinId(key, calls[..n], filename));
      assert calls[i] == calls[..n][i];
    } else {
      assert LinkWith(key, calls[n], filename, MinId(key, calls, filename));
    }
  }

  lemma {:induction false} MinIdLeast(key: Key, calls: seq<Call>, filename: string, id: nat)
    requires Link(key, filename, id) in calls
    ensures MinId(key, calls, filename) <= Stored(id)
  {
    var n := |calls| - 1;
    assert calls == calls[..n] + [calls[n]];
    if calls[n] != Link(key, filename, id) { MinIdLeast(key, calls[..n], filename, id); }
  }

  lemma StepIds(key: Key, front: seq<Call>, call: Call, b: Bucket)
    requires IdsOk(key, front, b.entries) && BucketOk(b) && call.key == key && Apply(b, call).1 == 0
    ensures IdsOk(key, front + [call], Apply(b, call).0.entries)
  {
    hide MinId, EntryIndex, HasDigest;
    var calls := front + [call];
    var f := if call.Link? then call.target else call.name;
    forall g
      ensures MinId(key, calls, g) ==
              if call.Link? && g == f then Min(Stored(call.id), MinId(key, front, g)) else MinId(key, front, g)
    {
      MinIdStep(key, front, call, g);
    }
    var after := Apply(b, call).0.entries;
    var n := EntryIndex(b.entries, f);
    StepShape(b, call, f, n);
    hide Apply, Step;
    if n < |b.entries| && after != b.entries {
      forall i | 0 <= i < |after| ensures after[i].oldId == MinId(key, calls, after[i].filename) {
        assert i != n ==> b.entries[i].filename != f;
      }
    } else if after != b.entries {
      assert forall i :: 0 <= i < |b.entries| ==> after[i] == b.entries[i];
      assert after[|b.entries|].filename == f;
    }
  }

  lemma MinIdStep(key: Key, front: seq<Call>, call: Call, g: string)
    requires call.key == key
    ensures MinId(key, front + [call], g) ==
            if call.Link? && g == call.target then Min(Stored(call.id), MinId(key, front, g)) else MinId(key, front, g)
  {
    assert (front + [call])[..|front|] == front;
  }

  /** What a successful call does to file names and ids. */
  lemma StepShape(b: Bucket, call: Call, f: string, n: nat)
    requires f == (if call.Link? then call.target else call.name) && n == EntryIndex(b.entries, f)
    requires Apply(b, call).1 == 0
    ensures var id := if call.Link? then Stored(call.id) else NO_ID;
      var after := Apply(b, call).0.entries;
      if after == b.entries then call.File? || (n < |b.entries| && b.entries[n].oldId == Min(id, b.entries[n].oldId))
      else if n < |b.entries| then
        |after| == |b.entries| && after[n].filename == f && after[n].oldId == Min(id, b.entries[n].oldId) &&
        forall i :: 0 <= i < |after| && i != n ==> after[i] == b.entries[i]
      else
        |after| == |b.entries| + 1 && after[..|b.entries|] == b.entries && after[n].filename == f &&
        after[n].oldId == Min(id, NO_ID)
  {
    hide EntryIndex, HasDigest;
  }

  // ---- every certificate keeps a needed entry ----

  ghost predicate NeededWith(entries: seq<Entry>, digest: Digest)
  {
    exists i :: 0 <= i < |entries| && entries[i].needSymlink && entries[i].digest == digest
  }

  predicate SameFile(key: Key, a: Call, b: Call)
  {
    a.File? && b.File? && a.key == key == b.key && a.name == b.name
  }

  /** Each file is hashed to one digest, which is not all zeros. */
  ghost predicate OneDigestPerFile(key: Key, calls: seq<Call>)
  {
    (forall i :: 0 <= i < |calls| && calls[i].File? && calls[i].key == key ==> calls[i].digest != ZERO_DIGEST) &&
    (forall i, j :: 0 <= i < |calls| && 0 <= j < |calls| && SameFile(key, calls[i], calls[j]) ==>
      calls[i].digest == calls[j].digest)
  }

  /** Every digest that was added has a needed entry, and every needed entry is a file that was added. */
  ghost predicate DigestsOk(key: Key, calls: seq<Call>, entries: seq<Entry>)
  {
    (forall i :: 0 <= i < |calls| && calls[i].File? && calls[i].key == key ==> NeededWith(entries, calls[i].digest)) &&
    (forall i :: 0 <= i < |entries| && entries[i].needSymlink ==>
      File(key, entries[i].filename, entries[i].digest) in calls)
  }

  lemma StepKeepsNeeded(b: Bucket, call: Call, d: Digest)
    requires NeededWith(b.entries, d)
    ensures NeededWith(Apply(b, call).0.entries, d)
  {
    var i :| 0 <= i < |b.entries| && b.entries[i].needSymlink && b.entries[i].digest == d;
    var after := Apply(b, call).0.entries;
    assert after[i].needSymlink && after[i].digest == d;
  }

  lemma NeededHasDigest(key: Key, front: seq<Call>, call: Call, b: Bucket, n: nat)
    requires DigestsOk(key, front, b.entries) && call.File? && call.key == key
    requires OneDigestPerFile(key, front + [call])
    requires n < |b.entries| && b.entries[n].needSymlink && b.entries[n].filename == call.name
    ensures HasDigest(b.entries, call.digest)
  {
    var calls := front + [call];
    var k :| 0 <= k < |front| && front[k] == File(key, b.entries[n].filename, b.entries[n].digest);
    assert calls[k] == front[k] && calls[|front|] == call;
  }

  lemma StepAddsNeeded(key: Key, front: seq<Call>, call: Call, b: Bucket)
    requires DigestsOk(key, front, b.entries) && BucketOk(b) && call.File? && call.key == key
    requires Apply(b, call).1 == 0 && OneDigestPerFile(key, front + [call])
    ensures NeededWith(Apply(b, call).0.entries, call.digest)
  {
    var calls := front + [call];
    assert calls[|front|] == call && forall k :: 0 <= k < |front| ==> calls[k] == front[k];
    var after := Apply(b, call).0.entries;
    if HasDigest(b.entries, call.digest) {
      var i :| 0 <= i < |b.entries| && b.entries[i].digest == call.digest;
      assert b.entries[i].needSymlink;
    } else {
      var n := EntryIndex(b.entries, call.name);
      if n < |b.entries| && b.entries[n].needSymlink {
        NeededHasDigest(key, front, call, b, n);
      }
      assert after[n].needSymlink && after[n].digest == call.digest;
    }
  }

  lemma StepFromFile(key: Key, front: seq<Call>, call: Call, b: Bucket, i: nat)
    requires DigestsOk(key, front, b.entries) && call.key == key
    requires i < |Apply(b, call).0.entries| && Apply(b, call).0.entries[i].needSymlink
    ensures var e := Apply(b, call).0.entries[i]; File(key, e.filename, e.digest) in front + [call]
  {
    var after := Apply(b, call).0.entries;
    if i < |b.entries| && b.entries[i].needSymlink {
      assert after[i].filename == b.entries[i].filename && after[i].digest == b.entries[i].digest;
      assert File(key, b.entries[i].filename, b.entries[i].digest) in front;
    } else {
      assert call.File? && after[i].filename == call.name && after[i].digest == call.digest;
      assert call in front + [call];
    }
  }

  lemma {:induction false} DigestsComplete(key: Key, calls: seq<Call>)
    requires NoOverflow(key, calls) && OneDigestPerFile(key, calls)
    ensures DigestsOk(key, calls, After(key, calls).entries)
  {
    if calls != [] {
      var front, call := calls[..|calls| - 1], calls[|calls| - 1];
      assert calls == front + [call];
      assert forall i :: 0 <= i < |front| ==> front[i] == calls[i];
      DigestsComplete(key, front);
      AfterOk(key, front);
      var b := After(key, front);
      if call.key == key {
        hide Apply, BucketOk, NeededWith, After, NoOverflow;
        var after := Apply(b, call).0.entries;
        assert After(key, calls).entries == after by { AfterStep(key, calls); }
        assert Apply(b, call).1 == 0 by { NoOverflowStep(key, calls); }
        forall i | 0 <= i < |calls| && calls[i].File? && calls[i].key == key ensures NeededWith(after, calls[i].digest) {
          if i < |front| { StepKeepsNeeded(b, call, front[i].digest); }
          else { StepAddsNeeded(key, front, call, b); }
        }
        forall i | 0 <= i < |after| && after[i].needSymlink ensures File(key, after[i].filename, after[i].digest) in calls {
          StepFromFile(key, front, call, b, i);
        }
      }
    }
  }

  lemma AfterStep(key: Key, calls: seq<Call>)
    requires calls != [] && calls[|calls| - 1].key == key
    ensures After(key, calls) == Apply(After(key, calls[..|calls| - 1]), calls[|calls| - 1]).0
  {}

  lemma NoOverflowStep(key: Key, calls: seq<Call>)
    requires calls != [] && calls[|calls| - 1].key == key && NoOverflow(key, calls)
    ensures Apply(After(key, calls[..|calls| - 1]), calls[|calls| - 1]).1 == 0
  {
    ApplyErrors(After(key, calls[..|calls| - 1]), calls[|calls| - 1]);
  }

  /**
   * A fresh entry has a digest of all zeros, so a file with that digest, of a certificate not there yet, is
   * taken for a duplicate and lost if and only if some entry of the bucket is not needed.
   */
  lemma ZeroDigestLostIff(b: Bucket, name: string)
    requires BucketOk(b) && !NeededWith(b.entries, ZERO_DIGEST)
    requires var n := EntryIndex(b.entries, name);
      if n < |b.entries| then !b.entries[n].needSymlink else b.numNeeded < MAX_COLLISIONS
    ensures !NeededWith(Step(b, name, Some(ZERO_DIGEST), true, NO_ID).0.entries, ZERO_DIGEST) <==>
      exists i :: 0 <= i < |b.entries| && !b.entries[i].needSymlink
  {
    var n := EntryIndex(b.entries, name);
    if i :| 0 <= i < |b.entries| && !b.entries[i].needSymlink {
      assert b.entries[i].digest == ZERO_DIGEST;
      assert HasDigest(b.entries, ZERO_DIGEST);
    } else {
      assert !HasDigest(b.entries, ZERO_DIGEST);
      var after := Step(b, name, Some(ZERO_DIGEST), true, NO_ID).0.entries;
      assert after[|b.entries|].needSymlink && after[|b.entries|].digest == ZERO_DIGEST;
    }
  }

  // ---- the scan ----

  /** Errors are counted for files only: a link that cannot be recorded is passed on to do_file, which ignores it. */
  ghost function FileErrors(calls: seq<Call>): nat
  {
    if calls == [] then 0
    else
      var front, call := calls[..|calls| - 1], calls[|calls| - 1];
      FileErrors(front) + if call.File? && CallOverflows(After(call.key, front), call) then 1 else 0
  }

  /** What one more call adds: to its own bucket only, and an error only for a file that overflows. */
  lemma OneMoreCall(key: Key, calls: seq<Call>, call: Call)
    ensures After(key, []) == Bucket(key, 0, []) && FileErrors([]) == 0
    ensures After(key, calls + [call]) ==
      if call.key != key then After(key, calls)
      else if call.Link? then Step(After(key, calls), call.target, None, false, Stored(call.id)).0
      else Step(After(key, calls), call.name, Some(call.digest), true, 65535).0
    ensures FileErrors(calls + [call]) == FileErrors(calls) +
      if call.File? && Overflows(After(call.key, calls), call.name, Some(call.digest)) then 1 else 0
  {
    hide Step, Overflows;
    assert (calls + [call])[..|calls|] == calls;
  }

  /** The scanning loop of do_dir. */
  method Scan(table: HashTable, calls: seq<Call>) returns (errs: nat)
    requires table.Valid() && forall key :: table.Lookup(key) == EmptyBucket(key)
    modifies table.chains
    ensures table.Valid() && forall key :: table.Lookup(key) == After(key, calls)
    ensures errs == FileErrors(calls)
  {
    errs := 0;
    var n := 0;
    while n < |calls|
      invariant 0 <= n <= |calls| && table.Valid()
      invariant forall key :: table.Lookup(key) == After(key, calls[..n])
      invariant errs == FileErrors(calls[..n])
    {
      assert calls[..n + 1][..n] == calls[..n];
      var call := calls[n];
      AfterOk(call.key, calls[..n]);
      match call {
        case Link(key, target, id) =>
          var ignored := table.AddEntry(key, target, None, false, Stored(id));
        case File(key, name, digest) =>
          var e := table.AddEntry(key, name, Some(digest), true, NO_ID);
          errs := errs + e;
      }
      n := n + 1;
    }
    assert calls[..n] == calls;
  }
}
