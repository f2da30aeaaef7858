// The id mask of rehash: a bit per link id in an array of bytes.

module RehashBits {

  /** 1 << k in a byte. */
  function Mask(k: nat): bv8
    requires k < 8
  {
    match k
    case 0 => 0x01
    case 1 => 0x02
    case 2 => 0x04
    case 3 => 0x08
    case 4 => 0x10
    case 5 => 0x20
    case 6 => 0x40
    case _ => 0x80
  }

  predicate BitIn(b: bv8, k: nat)
    requires k < 8
  {
    b & Mask(k) != 0
  }

  /** Or-ing in one bit sets that bit and keeps all others. */
  lemma OrMask(b: bv8, k: nat, j: nat)
    requires k < 8 && j < 8
    ensures BitIn(b | Mask(k), j) <==> j == k || BitIn(b, j)
  {
    if j == k {
      OrSame(b, k);
    } else {
      OrOther(b, k, j);
    }
  }

  lemma OrSame(b: bv8, k: nat)
    requires k < 8
    ensures (b | Mask(k)) & Mask(k) == Mask(k)
  {
    var m := Mask(k);
    assert (b | m) & m == m;
  }

  lemma OrOther(b: bv8, k: nat, j: nat)
    requires k < 8 && j < 8 && j != k
    ensures (b | Mask(k)) & Mask(j) == b & Mask(j)
  {
    Disjoint(k, j);
    var m, n := Mask(k), Mask(j);
    assert m & n == 0 ==> (b | m) & n == b & n;
  }

  lemma Disjoint(k: nat, j: nat)
    requires k < 8 && j < 8 && j != k
    ensures Mask(k) & Mask(j) == 0
  {}

  /** The bit of an id in the mask; bits outside the mask count as clear. */
  predicate IsSet(mask: seq<bv8>, id: nat)
  {
    id / 8 < |mask| && BitIn(mask[id / 8], id % 8)
  }

  lemma SetOne(mask: seq<bv8>, id: nat, j: nat)
    requires id / 8 < |mask|
    ensures IsSet(mask[id / 8 := mask[id / 8] | Mask(id % 8)], j) <==> j == id || IsSet(mask, j)
  {
    if j / 8 == id / 8 {
      OrMask(mask[id / 8], id % 8, j % 8);
      assert j == j / 8 * 8 + j % 8 && id == id / 8 * 8 + id % 8;
    }
  }

  method BitSet(mask: array<bv8>, bit: nat)
    requires bit / 8 < mask.Length
    modifies mask
    ensures forall j: nat :: IsSet(mask[..], j) <==> j == bit || IsSet(old(mask[..]), j)
  {
    ghost var before := mask[..];
    mask[bit / 8] := mask[bit / 8] | Mask(bit % 8);
    assert mask[..] == before[bit / 8 := before[bit / 8] | Mask(bit % 8)];
    forall j: nat ensures IsSet(mask[..], j) <==> j == bit || IsSet(before, j) { SetOne(before, bit, j); }
  }

  method BitIsSet(mask: array<bv8>, bit: nat) returns (r: bool)
    requires bit / 8 < mask.Length
    ensures r == IsSet(mask[..], bit)
  {
    r := mask[bit / 8] & Mask(bit % 8) != 0;
  }

  /** memset of the first n bytes to zero. */
  method ClearBytes(mask: array<bv8>, n: nat)
    requires n <= mask.Length
    modifies mask
    ensures forall j: nat :: IsSet(mask[..], j) <==> j >= 8 * n && IsSet(old(mask[..]), j)
  {
    var i := 0;
    while i < n
      invariant 0 <= i <= n
      invariant forall k :: 0 <= k < i ==> mask[k] == 0
      invariant forall k :: i <= k < mask.Length ==> mask[k] == old(mask[k])
    {
      mask[i] := 0;
      i := i + 1;
    }
    forall j: nat ensures IsSet(mask[..], j) <==> j >= 8 * n && IsSet(old(mask[..]), j) {
      if j < 8 * n {
        assert j / 8 < n && mask[j / 8] == 0;
        ZeroByte(j % 8);
      }
    }
  }

  lemma ZeroByte(k: nat)
    requires k < 8
    ensures !BitIn(0, k)
  {
    var m := Mask(k);
    assert 0 & m == 0;
  }
}
