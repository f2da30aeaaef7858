// How the passwd command turns a digest into text: the byte order tables, the packing of 24 bits into
// four characters, and the alphabet. A char is one unsigned byte.

module PasswdEncoding {

  predicate Octets(s: seq<char>)
  {
    forall k :: 0 <= k < |s| ==> s[k] as int < 256
  }

  // ---- the alphabet ----

  /** The alphabet table: the characters from 0x2E, from 0x41 and from 0x61, in that order. */
  function Cov2Char(v: int): (c: char)
    requires 0 <= v < 64
    ensures Cov2Value(c) == v && c != '\0'
  {
    if v < 12 then ('.' as int + v) as char
    else if v < 38 then ('A' as int + v - 12) as char
    else ('a' as int + v - 38) as char
  }

  function Cov2Value(c: char): int
  {
    if c <= '9' then c as int - '.' as int
    else if c <= 'Z' then c as int - 'A' as int + 12
    else c as int - 'a' as int + 38
  }

  const SIGNS: string := "./0123456789"
  const CAPITALS: string := "ABCDEFGHIJKLMNOPQRSTUVWXYZ"
  const SMALLS: string := "abcdefghijklmnopqrstuvwxyz"

  /** The characters are those of this alphabet, in its order. */
  lemma Cov2CharIs(v: int)
    requires 0 <= v < 64
    ensures |SIGNS| == 12 && |CAPITALS| == 26 && |SMALLS| == 26
    ensures Cov2Char(v) == (SIGNS + CAPITALS + SMALLS)[v]
  {
    if v < 12 { SignAt(v); } else if v < 38 { CapitalAt(v - 12); } else { SmallAt(v - 38); }
  }

  lemma SignAt(v: nat)
    requires v < 12
    ensures SIGNS[v] == ('.' as int + v) as char
  {}

  lemma CapitalAt(v: nat)
    requires v < 26
    ensures CAPITALS[v] == ('A' as int + v) as char
  {}

  lemma SmallAt(v: nat)
    requires v < 26
    ensures SMALLS[v] == ('a' as int + v) as char
  {}

  // ---- packing ----

  /** The least significant six bits first, n characters. */
  function Emit(w: int, n: nat): (chars: seq<char>)
    requires w >= 0
    ensures |chars| == n
  {
    if n == 0 then [] else [Cov2Char(w % 64)] + Emit(w / 64, n - 1)
  }

  function Pow64(n: nat): int
  {
    if n == 0 then 1 else 64 * Pow64(n - 1)
  }

  function Absorb(chars: seq<char>): int
  {
    if chars == [] then 0 else Cov2Value(chars[0]) + 64 * Absorb(chars[1..])
  }

  /** The packing has a left inverse. */
  lemma {:induction false} AbsorbEmit(w: int, n: nat)
    requires 0 <= w < Pow64(n)
    ensures Absorb(Emit(w, n)) == w
  {
    if n > 0 {
      AbsorbEmit(w / 64, n - 1);
      assert Emit(w, n)[1..] == Emit(w / 64, n - 1);
    }
  }

  // ---- byte orders ----

  datatype Layout = Md5 | Sha256 | Sha512

  function Size(layout: Layout): nat
  {
    match layout case Md5 => 16 case Sha256 => 32 case Sha512 => 64
  }

  function GroupCount(layout: Layout): nat
  {
    match layout case Md5 => 5 case Sha256 => 10 case Sha512 => 21
  }

  function Md5Group(k: nat): (int, int, int)
  {
    match k
    case 0 => (0, 6, 12)
    case 1 => (1, 7, 13)
    case 2 => (2, 8, 14)
    case 3 => (3, 9, 15)
    case _ => (4, 10, 5)
  }

  function Sha256Group(k: nat): (int, int, int)
  {
    match k
    case 0 => (0, 10, 20)
    case 1 => (21, 1, 11)
    case 2 => (12, 22, 2)
    case 3 => (3, 13, 23)
    case 4 => (24, 4, 14)
    case 5 => (15, 25, 5)
    case 6 => (6, 16, 26)
    case 7 => (27, 7, 17)
    case 8 => (18, 28, 8)
    case _ => (9, 19, 29)
  }

  function Sha512Group(k: nat): (int, int, int)
  {
    match k
    case 0 => (0, 21, 42)
    case 1 => (22, 43, 1)
    case 2 => (44, 2, 23)
    case 3 => (3, 24, 45)
    case 4 => (25, 46, 4)
    case 5 => (47, 5, 26)
    case 6 => (6, 27, 48)
    case 7 => (28, 49, 7)
    case 8 => (50, 8, 29)
    case 9 => (9, 30, 51)
    case 10 => (31, 52, 10)
    case 11 => (53, 11, 32)
    case 12 => (12, 33, 54)
    case 13 => (34, 55, 13)
    case 14 => (56, 14, 35)
    case 15 => (15, 36, 57)
    case 16 => (37, 58, 16)
    case 17 => (59, 17, 38)
    case 18 => (18, 39, 60)
    case 19 => (40, 61, 19)
    case _ => (62, 20, 41)
  }

  /** Group k packs these three bytes of the digest, the most significant first. */
  function Group(layout: Layout, k: nat): (g: (int, int, int))
    requires k < GroupCount(layout)
    ensures 0 <= g.0 < Size(layout) && 0 <= g.1 < Size(layout) && 0 <= g.2 < Size(layout)
  {
    match layout case Md5 => Md5Group(k) case Sha256 => Sha256Group(k) case Sha512 => Sha512Group(k)
  }

  /** The bytes left over after the groups, the most significant first. */
  function Tail(layout: Layout): (t: seq<int>)
    ensures 1 <= |t| <= 2 && forall j :: 0 <= j < |t| ==> 0 <= t[j] < Size(layout)
  {
    match layout case Md5 => [11] case Sha256 => [31, 30] case Sha512 => [63]
  }

  /** In each table the groups and the tail together use every byte of the digest. */
  predicate Uses(layout: Layout, k: nat, i: int)
    requires k < GroupCount(layout)
  {
    var g := Group(layout, k);
    i == g.0 || i == g.1 || i == g.2
  }

  function Home(layout: Layout, i: nat): nat
  {
    match layout
    case Md5 => if i == 5 then 4 else if i < 5 then i else if i < 12 then i - 6 else i - 12
    case Sha256 => i % 10
    case Sha512 => i % 21
  }

  /** Group k of a SHA table is k, k + n and k + 2n, rotated one way or the other by k mod 3. */
  lemma Rotation256(k: nat)
    requires k < 10
    ensures Sha256Group(k) ==
      if k % 3 == 0 then (k, k + 10, k + 20) else if k % 3 == 1 then (k + 20, k, k + 10) else (k + 10, k + 20, k)
  {}

  lemma Rotation512(k: nat)
    requires k < 21
    ensures Sha512Group(k) ==
      if k % 3 == 0 then (k, k + 21, k + 42) else if k % 3 == 1 then (k + 21, k + 42, k) else (k + 42, k, k + 21)
  {}

  lemma UsedInMd5(i: nat)
    requires i < 16 && i != 11
    ensures Home(Md5, i) < 5 && Uses(Md5, Home(Md5, i), i)
  {}

  lemma UsedIn256(i: nat)
    requires i < 30
    ensures Uses(Sha256, i % 10, i)
  {
    Rotation256(i % 10);
    hide Sha256Group;
  }

  lemma UsedIn512(i: nat)
    requires i < 63
    ensures Uses(Sha512, i % 21, i)
  {
    Rotation512(i % 21);
    hide Sha512Group;
  }

  /** The byte of the digest that is packed at place q: three places for each group, and then the tail. */
  function Place(layout: Layout, q: nat): (i: int)
    requires q < Size(layout)
    ensures 0 <= i < Size(layout)
  {
    var n := GroupCount(layout);
    if q < 3 * n then
      var g := Group(layout, q / 3);
      if q % 3 == 0 then g.0 else if q % 3 == 1 then g.1 else g.2
    else Tail(layout)[q - 3 * n]
  }

  /** Where a byte of the digest is packed. */
  function PlaceOf(layout: Layout, i: nat): (q: nat)
    requires i < Size(layout)
    ensures q < Size(layout)
  {
    match layout
    case Md5 =>
      if i == 11 then 15 else if i == 5 then 14 else if i < 5 then 3 * i else if i < 11 then 3 * (i - 6) + 1 else 3 * (i - 12) + 2
    case Sha256 => if i == 31 then 30 else if i == 30 then 31 else 3 * (i % 10) + (i / 10 + i % 10 % 3) % 3
    case Sha512 => if i == 63 then 63 else 3 * (i % 21) + (i / 21 + 2 * (i % 21 % 3)) % 3
  }

  lemma PlaceOf256(k: nat, t: nat)
    requires k < 10 && t < 3
    ensures PlaceOf(Sha256, k + 10 * t) == 3 * k + (t + k % 3) % 3
  {
    assert (k + 10 * t) % 10 == k && (k + 10 * t) / 10 == t;
  }

  lemma PlacesOf256(k: nat)
    requires k < 10
    ensures var p, q, r := PlaceOf(Sha256, k), PlaceOf(Sha256, k + 10), PlaceOf(Sha256, k + 20);
      if k % 3 == 0 then p == 3 * k && q == 3 * k + 1 && r == 3 * k + 2
      else if k % 3 == 1 then p == 3 * k + 1 && q == 3 * k + 2 && r == 3 * k
      else p == 3 * k + 2 && q == 3 * k && r == 3 * k + 1
  {
    hide PlaceOf;
    PlaceOf256(k, 0);
    PlaceOf256(k, 1);
    PlaceOf256(k, 2);
  }

  lemma PlaceOf512(k: nat, t: nat)
    requires k < 21 && t < 3
    ensures PlaceOf(Sha512, k + 21 * t) == 3 * k + (t + 2 * (k % 3)) % 3
  {
    assert (k + 21 * t) % 21 == k && (k + 21 * t) / 21 == t;
  }

  lemma PlacesOf512(k: nat)
    requires k < 21
    ensures var p, q, r := PlaceOf(Sha512, k), PlaceOf(Sha512, k + 21), PlaceOf(Sha512, k + 42);
      if k % 3 == 0 then p == 3 * k && q == 3 * k + 1 && r == 3 * k + 2
      else if k % 3 == 1 then p == 3 * k + 2 && q == 3 * k && r == 3 * k + 1
      else p == 3 * k + 1 && q == 3 * k + 2 && r == 3 * k
  {
    hide PlaceOf;
    PlaceOf512(k, 0);
    PlaceOf512(k, 1);
    PlaceOf512(k, 2);
  }

  lemma PlaceInTriple(layout: Layout, k: nat, c: nat)
    requires k < GroupCount(layout) && c < 3
    ensures var g := Group(layout, k);
      3 * k + c < Size(layout) && Place(layout, 3 * k + c) == if c == 0 then g.0 else if c == 1 then g.1 else g.2
  {
    hide Group;
    assert (3 * k + c) / 3 == k && (3 * k + c) % 3 == c;
  }

  lemma Placed256(k: nat, c: nat)
    requires k < 10 && c < 3
    ensures PlaceOf(Sha256, Place(Sha256, 3 * k + c)) == 3 * k + c
  {
    hide Sha256Group, Place, PlaceOf;
    PlaceInTriple(Sha256, k, c);
    Rotation256(k);
    PlacesOf256(k);
  }

  lemma Placed512(k: nat, c: nat)
    requires k < 21 && c < 3
    ensures PlaceOf(Sha512, Place(Sha512, 3 * k + c)) == 3 * k + c
  {
    hide Sha512Group, Place, PlaceOf;
    PlaceInTriple(Sha512, k, c);
    Rotation512(k);
    PlacesOf512(k);
  }

  lemma PlacedMd5(q: nat)
    requires q < 16
    ensures PlaceOf(Md5, Place(Md5, q)) == q
  {}

  /** Each place is the place of its byte, so no byte is packed twice. */
  lemma PlaceOfPlace(layout: Layout, q: nat)
    requires q < Size(layout)
    ensures PlaceOf(layout, Place(layout, q)) == q
  {
    hide Place, PlaceOf;
    match layout
    case Md5 => PlacedMd5(q);
    case Sha256 => if q < 30 { Placed256(q / 3, q % 3); } else { PlacedTail(layout, q); }
    case Sha512 => if q < 63 { Placed512(q / 3, q % 3); } else { PlacedTail(layout, q); }
  }

  lemma PlacedTail(layout: Layout, q: nat)
    requires layout != Md5 && 3 * GroupCount(layout) <= q < Size(layout)
    ensures PlaceOf(layout, Place(layout, q)) == q
  {}

  /** Each table is a permutation: every byte of the digest is packed, and no two places pack the same byte. */
  lemma TablePermutes(layout: Layout, i: nat)
    requires i < Size(layout)
    ensures 3 * GroupCount(layout) + |Tail(layout)| == Size(layout)
    ensures i in Tail(layout) || (Home(layout, i) < GroupCount(layout) && Uses(layout, Home(layout, i), i))
    ensures Place(layout, PlaceOf(layout, i)) == i
    ensures forall q: nat, r: nat :: q < r < Size(layout) ==> Place(layout, q) != Place(layout, r)
  {
    hide Uses, Place, PlaceOf;
    forall q: nat, r: nat | q < r < Size(layout) ensures Place(layout, q) != Place(layout, r) {
      PlaceOfPlace(layout, q);
      PlaceOfPlace(layout, r);
    }
    if i !in Tail(layout) {
      match layout
      case Md5 => assert 11 in Tail(Md5); UsedInMd5(i);
      case Sha256 => assert 30 in Tail(Sha256) && 31 in Tail(Sha256); UsedIn256(i);
      case Sha512 => assert 63 in Tail(Sha512); UsedIn512(i);
    }
    PlaceOfByte(layout, i);
  }

  lemma PlaceOfByte(layout: Layout, i: nat)
    requires i < Size(layout)
    requires i in Tail(layout) || (Home(layout, i) < GroupCount(layout) && Uses(layout, Home(layout, i), i))
    ensures Place(layout, PlaceOf(layout, i)) == i
  {
    var q: nat;
    if i in Tail(layout) {
      var j :| 0 <= j < |Tail(layout)| && Tail(layout)[j] == i;
      q := 3 * GroupCount(layout) + j;
      PlaceInTail(layout, j);
    } else {
      q := PlaceInGroup(layout, Home(layout, i), i);
    }
    hide Place, PlaceOf, Home, Uses, Tail;
    PlaceOfPlace(layout, q);
  }

  lemma PlaceInTail(layout: Layout, j: nat)
    requires j < |Tail(layout)|
    ensures 3 * GroupCount(layout) + j < Size(layout)
    ensures Place(layout, 3 * GroupCount(layout) + j) == Tail(layout)[j]
  {}

  lemma PlaceInGroup(layout: Layout, k: nat, i: nat) returns (q: nat)
    requires k < GroupCount(layout) && Uses(layout, k, i)
    ensures q < Size(layout) && Place(layout, q) == i
  {
    hide Group, Place;
    var g := Group(layout, k);
    var c := if i == g.0 then 0 else if i == g.1 then 1 else 2;
    q := 3 * k + c;
    PlaceInTriple(layout, k, c);
  }

  function Word(d: seq<char>, g: (int, int, int)): (w: int)
    requires Octets(d) && 0 <= g.0 < |d| && 0 <= g.1 < |d| && 0 <= g.2 < |d|
    ensures 0 <= w < 0x100_0000
  {
    d[g.0] as int * 65536 + d[g.1] as int * 256 + d[g.2] as int
  }

  function TailWord(d: seq<char>, t: seq<int>): (w: int)
    requires Octets(d) && 1 <= |t| <= 2 && forall j :: 0 <= j < |t| ==> 0 <= t[j] < |d|
    ensures 0 <= w < if |t| == 1 then 0x100 else 0x1_0000
  {
    if |t| == 1 then d[t[0]] as int else d[t[0]] as int * 256 + d[t[1]] as int
  }

  /** A digest of the layout's size. */
  predicate DigestOf(layout: Layout, d: seq<char>)
  {
    |d| == Size(layout) && Octets(d)
  }

  function Groups(layout: Layout, d: seq<char>, k: nat): (chars: seq<char>)
    requires DigestOf(layout, d) && k <= GroupCount(layout)
    ensures |chars| == 4 * k
  {
    if k == 0 then [] else Groups(layout, d, k - 1) + Emit(Word(d, Group(layout, k - 1)), 4)
  }

  /** The text of a digest. */
  function Encode(layout: Layout, d: seq<char>): (chars: seq<char>)
    requires DigestOf(layout, d)
    ensures |chars| == match layout case Md5 => 22 case Sha256 => 43 case Sha512 => 86
  {
    Groups(layout, d, GroupCount(layout)) + Emit(TailWord(d, Tail(layout)), |Tail(layout)| + 1)
  }

  lemma {:induction false} EmitText(w: int, n: nat)
    requires w >= 0
    ensures '\0' !in Emit(w, n)
  {
    if n > 0 { EmitText(w / 64, n - 1); }
  }

  lemma {:induction false} GroupsText(layout: Layout, d: seq<char>, k: nat)
    requires DigestOf(layout, d) && k <= GroupCount(layout)
    ensures '\0' !in Groups(layout, d, k)
  {
    if k > 0 {
      GroupsText(layout, d, k - 1);
      EmitText(Word(d, Group(layout, k - 1)), 4);
    }
  }

  /** The text of a digest has no NUL in it. */
  lemma EncodeText(layout: Layout, d: seq<char>)
    requires DigestOf(layout, d)
    ensures '\0' !in Encode(layout, d)
  {
    GroupsText(layout, d, GroupCount(layout));
    EmitText(TailWord(d, Tail(layout)), |Tail(layout)| + 1);
  }

  lemma {:induction false} GroupsAt(layout: Layout, d: seq<char>, n: nat, k: nat)
    requires DigestOf(layout, d) && k < n <= GroupCount(layout)
    ensures Groups(layout, d, n)[4 * k..4 * k + 4] == Emit(Word(d, Group(layout, k)), 4)
  {
    hide Emit, Group, Word;
    var front, last := Groups(layout, d, n - 1), Emit(Word(d, Group(layout, n - 1)), 4);
    assert Groups(layout, d, n) == front + last;
    if k < n - 1 {
      GroupsAt(layout, d, n - 1, k);
      assert Groups(layout, d, n)[4 * k..4 * k + 4] == Groups(layout, d, n - 1)[4 * k..4 * k + 4];
    }
  }

  lemma EmitDetermines(v: int, w: int)
    requires 0 <= v < 0x100_0000 && 0 <= w < 0x100_0000 && Emit(v, 4) == Emit(w, 4)
    ensures v == w
  {
    assert Pow64(4) == 64 * Pow64(3) == 64 * 64 * Pow64(2) == 64 * 64 * 64 * Pow64(1);
    AbsorbEmit(v, 4);
    AbsorbEmit(w, 4);
  }

  lemma BytesDetermine(x2: int, x1: int, x0: int, y2: int, y1: int, y0: int)
    requires 0 <= x2 && 0 <= x1 < 256 && 0 <= x0 < 256 && 0 <= y2 && 0 <= y1 < 256 && 0 <= y0 < 256
    requires x2 * 65536 + x1 * 256 + x0 == y2 * 65536 + y1 * 256 + y0
    ensures x2 == y2 && x1 == y1 && x0 == y0
  {}

  lemma WordDetermines(a: seq<char>, b: seq<char>, g: (int, int, int))
    requires Octets(a) && Octets(b) && |a| == |b| && 0 <= g.0 < |a| && 0 <= g.1 < |a| && 0 <= g.2 < |a|
    requires Word(a, g) == Word(b, g)
    ensures a[g.0] == b[g.0] && a[g.1] == b[g.1] && a[g.2] == b[g.2]
  {
    BytesDetermine(a[g.0] as int, a[g.1] as int, a[g.2] as int, b[g.0] as int, b[g.1] as int, b[g.2] as int);
  }

  lemma GroupDetermines(layout: Layout, a: seq<char>, b: seq<char>, k: nat)
    requires DigestOf(layout, a) && DigestOf(layout, b) && k < GroupCount(layout)
    requires Groups(layout, a, GroupCount(layout)) == Groups(layout, b, GroupCount(layout))
    ensures var g := Group(layout, k); a[g.0] == b[g.0] && a[g.1] == b[g.1] && a[g.2] == b[g.2]
  {
    hide Group, Groups, Word, Emit, GroupCount;
    var g := Group(layout, k);
    GroupsAt(layout, a, GroupCount(layout), k);
    GroupsAt(layout, b, GroupCount(layout), k);
    EmitDetermines(Word(a, g), Word(b, g));
    WordDetermines(a, b, g);
  }

  lemma TailDetermines(layout: Layout, a: seq<char>, b: seq<char>)
    requires DigestOf(layout, a) && DigestOf(layout, b)
    requires Emit(TailWord(a, Tail(layout)), |Tail(layout)| + 1) == Emit(TailWord(b, Tail(layout)), |Tail(layout)| + 1)
    ensures forall i :: i in Tail(layout) ==> a[i] == b[i]
  {
    var t := Tail(layout);
    assert Pow64(3) == 64 * Pow64(2) == 64 * 64 * Pow64(1);
    AbsorbEmit(TailWord(a, t), |t| + 1);
    AbsorbEmit(TailWord(b, t), |t| + 1);
  }

  /** The text of a digest determines the digest. */
  lemma EncodeDetermines(layout: Layout, a: seq<char>, b: seq<char>)
    requires DigestOf(layout, a) && DigestOf(layout, b)
    requires Encode(layout, a) == Encode(layout, b)
    ensures a == b
  {
    var n := GroupCount(layout);
    assert Encode(layout, a)[..4 * n] == Groups(layout, a, n) && Encode(layout, b)[..4 * n] == Groups(layout, b, n);
    assert Encode(layout, a)[4 * n..] == Emit(TailWord(a, Tail(layout)), |Tail(layout)| + 1);
    assert Encode(layout, b)[4 * n..] == Emit(TailWord(b, Tail(layout)), |Tail(layout)| + 1);
    TailDetermines(layout, a, b);
    forall i: nat | i < Size(layout) ensures a[i] == b[i] {
      TablePermutes(layout, i);
      if i !in Tail(layout) {
        GroupDetermines(layout, a, b, Home(layout, i));
      }
    }
  }

  // ---- writing into the output buffer ----

  /** The buffer is `base` with `chars` written over it from cp on. */
  ghost predicate Written(buf: seq<char>, base: seq<char>, cp: nat, chars: seq<char>)
  {
    cp + |chars| <= |base| && buf == base[..cp] + chars + base[cp + |chars|..]
  }

  /** b64_from_24bit: shift w out six bits at a time. */
  method B64From24Bit(out: array<char>, at: nat, b2: char, b1: char, b0: char, n: nat, ghost base: seq<char>,
                      ghost cp: nat, ghost done: seq<char>) returns (next: nat)
    requires b2 as int < 256 && b1 as int < 256 && b0 as int < 256
    requires Written(out[..], base, cp, done) && at == cp + |done| && at + n <= out.Length
    modifies out
    ensures next == at + n
    ensures Written(out[..], base, cp, done + Emit(b2 as int * 65536 + b1 as int * 256 + b0 as int, n))
  {
    var w := b2 as int * 65536 + b1 as int * 256 + b0 as int;
    ghost var whole := Emit(w, n);
    ghost var chars := done;
    var i := n;
    next := at;
    while i > 0
      invariant 0 <= i <= n && next == at + n - i && w >= 0
      invariant chars + Emit(w, i) == done + whole
      invariant |chars| == next - cp && Written(out[..], base, cp, chars)
    {
      i := i - 1;
      WriteOne(out[..], base, cp, chars, Cov2Char(w % 64));
      out[next] := Cov2Char(w % 64);
      assert chars + ([Cov2Char(w % 64)] + Emit(w / 64, i)) == chars + [Cov2Char(w % 64)] + Emit(w / 64, i);
      chars := chars + [Cov2Char(w % 64)];
      next := next + 1;
      w := w / 64;
    }
    assert chars + [] == chars;
  }

  lemma WriteOne(buf: seq<char>, base: seq<char>, cp: nat, done: seq<char>, c: char)
    requires Written(buf, base, cp, done) && cp + |done| < |base|
    ensures Written(buf[cp + |done| := c], base, cp, done + [c])
  {}

  method PutGroup(out: array<char>, at: nat, b2: char, b1: char, b0: char, ghost layout: Layout, ghost d: seq<char>,
                  ghost k: nat, ghost base: seq<char>, ghost cp: nat) returns (next: nat)
    requires DigestOf(layout, d) && k < GroupCount(layout)
    requires var g := Group(layout, k); b2 == d[g.0] && b1 == d[g.1] && b0 == d[g.2]
    requires Written(out[..], base, cp, Groups(layout, d, k)) && at == cp + 4 * k && at + 4 <= out.Length
    modifies out
    ensures next == at + 4
    ensures Written(out[..], base, cp, Groups(layout, d, k + 1))
  {
    next := B64From24Bit(out, at, b2, b1, b0, 4, base, cp, Groups(layout, d, k));
  }

  /** The last call: the bytes left over. */
  method PutTail(out: array<char>, at: nat, b2: char, b1: char, b0: char, n: nat, ghost layout: Layout,
                 ghost d: seq<char>, ghost base: seq<char>, ghost cp: nat) returns (next: nat)
    requires DigestOf(layout, d) && b2 == 0 as char && b1 as int < 256 && b0 as int < 256
    requires var t := Tail(layout);
      n == |t| + 1 && b0 == d[t[|t| - 1]] && b1 == if |t| == 1 then 0 as char else d[t[0]]
    requires Written(out[..], base, cp, Groups(layout, d, GroupCount(layout)))
    requires at == cp + 4 * GroupCount(layout) && at + n <= out.Length
    modifies out
    ensures next == at + n && Written(out[..], base, cp, Encode(layout, d))
  {
    hide Written, Groups, Emit, Tail, GroupCount;
    next := B64From24Bit(out, at, b2, b1, b0, n, base, cp, Groups(layout, d, GroupCount(layout)));
  }

  method PutSha256(out: array<char>, cp: nat, d: seq<char>) returns (at: nat)
    requires DigestOf(Sha256, d) && cp + 43 <= out.Length
    modifies out
    ensures at == cp + 43 && Written(out[..], old(out[..]), cp, Encode(Sha256, d))
  {
    hide Written, Groups, Emit, Encode;
    ghost var base := out[..];
    NothingWritten(Sha256, base, cp, d);
    at := cp;
    at := PutGroup(out, at, d[0], d[10], d[20], Sha256, d, 0, base, cp);
    at := PutGroup(out, at, d[21], d[1], d[11], Sha256, d, 1, base, cp);
    at := PutGroup(out, at, d[12], d[22], d[2], Sha256, d, 2, base, cp);
    at := PutGroup(out, at, d[3], d[13], d[23], Sha256, d, 3, base, cp);
    at := PutGroup(out, at, d[24], d[4], d[14], Sha256, d, 4, base, cp);
    at := PutGroup(out, at, d[15], d[25], d[5], Sha256, d, 5, base, cp);
    at := PutGroup(out, at, d[6], d[16], d[26], Sha256, d, 6, base, cp);
    at := PutGroup(out, at, d[27], d[7], d[17], Sha256, d, 7, base, cp);
    at := PutGroup(out, at, d[18], d[28], d[8], Sha256, d, 8, base, cp);
    at := PutGroup(out, at, d[9], d[19], d[29], Sha256, d, 9, base, cp);
    at := PutTail(out, at, 0 as char, d[31], d[30], 3, Sha256, d, base, cp);
  }

  /** The first seven groups, and the others after them. */
  method PutFirst512(out: array<char>, from: nat, d: seq<char>, ghost base: seq<char>, ghost cp: nat) returns (at: nat)
    requires DigestOf(Sha512, d) && from == cp + 0 && cp + 86 <= out.Length
    requires Written(out[..], base, cp, Groups(Sha512, d, 0))
    modifies out
    ensures at == cp + 28 && Written(out[..], base, cp, Groups(Sha512, d, 7))
  {
    hide Written, Groups, Emit, Encode;
    at := from;
    at := PutGroup(out, at, d[0], d[21], d[42], Sha512, d, 0, base, cp);
    at := PutGroup(out, at, d[22], d[43], d[1], Sha512, d, 1, base, cp);
    at := PutGroup(out, at, d[44], d[2], d[23], Sha512, d, 2, base, cp);
    at := PutGroup(out, at, d[3], d[24], d[45], Sha512, d, 3, base, cp);
    at := PutGroup(out, at, d[25], d[46], d[4], Sha512, d, 4, base, cp);
    at := PutGroup(out, at, d[47], d[5], d[26], Sha512, d, 5, base, cp);
    at := PutGroup(out, at, d[6], d[27], d[48], Sha512, d, 6, base, cp);
  }

  method PutSecond512(out: array<char>, from: nat, d: seq<char>, ghost base: seq<char>, ghost cp: nat) returns (at: nat)
    requires DigestOf(Sha512, d) && from == cp + 28 && cp + 86 <= out.Length
    requires Written(out[..], base, cp, Groups(Sha512, d, 7))
    modifies out
    ensures at == cp + 56 && Written(out[..], base, cp, Groups(Sha512, d, 14))
  {
    hide Written, Groups, Emit, Encode;
    at := from;
    at := PutGroup(out, at, d[28], d[49], d[7], Sha512, d, 7, base, cp);
    at := PutGroup(out, at, d[50], d[8], d[29], Sha512, d, 8, base, cp);
    at := PutGroup(out, at, d[9], d[30], d[51], Sha512, d, 9, base, cp);
    at := PutGroup(out, at, d[31], d[52], d[10], Sha512, d, 10, base, cp);
    at := PutGroup(out, at, d[53], d[11], d[32], Sha512, d, 11, base, cp);
    at := PutGroup(out, at, d[12], d[33], d[54], Sha512, d, 12, base, cp);
    at := PutGroup(out, at, d[34], d[55], d[13], Sha512, d, 13, base, cp);
  }

  method PutThird512(out: array<char>, from: nat, d: seq<char>, ghost base: seq<char>, ghost cp: nat) returns (at: nat)
    requires DigestOf(Sha512, d) && from == cp + 56 && cp + 86 <= out.Length
    requires Written(out[..], base, cp, Groups(Sha512, d, 14))
    modifies out
    ensures at == cp + 84 && Written(out[..], base, cp, Groups(Sha512, d, 21))
  {
    hide Written, Groups, Emit, Encode;
    at := from;
    at := PutGroup(out, at, d[56], d[14], d[35], Sha512, d, 14, base, cp);
    at := PutGroup(out, at, d[15], d[36], d[57], Sha512, d, 15, base, cp);
    at := PutGroup(out, at, d[37], d[58], d[16], Sha512, d, 16, base, cp);
    at := PutGroup(out, at, d[59], d[17], d[38], Sha512, d, 17, base, cp);
    at := PutGroup(out, at, d[18], d[39], d[60], Sha512, d, 18, base, cp);
    at := PutGroup(out, at, d[40], d[61], d[19], Sha512, d, 19, base, cp);
    at := PutGroup(out, at, d[62], d[20], d[41], Sha512, d, 20, base, cp);
  }

  method PutSha512(out: array<char>, cp: nat, d: seq<char>) returns (at: nat)
    requires DigestOf(Sha512, d) && cp + 86 <= out.Length
    modifies out
    ensures at == cp + 86 && Written(out[..], old(out[..]), cp, Encode(Sha512, d))
  {
    hide Written, Groups, Emit, Encode;
    ghost var base := out[..];
    NothingWritten(Sha512, base, cp, d);
    at := PutFirst512(out, cp, d, base, cp);
    at := PutSecond512(out, at, d, base, cp);
    at := PutThird512(out, at, d, base, cp);
    at := PutTail(out, at, 0 as char, 0 as char, d[63], 2, Sha512, d, base, cp);
  }

  lemma NothingWritten(layout: Layout, base: seq<char>, cp: nat, d: seq<char>)
    requires DigestOf(layout, d) && cp <= |base|
    ensures Written(base, base, cp, Groups(layout, d, 0))
  {
    assert base == base[..cp] + [] + base[cp..];
  }

  // ---- the hand-written packing of md5crypt ----

  function Step6(dest: nat): (source: nat)
    requires dest <= 14
    ensures source < 17 && (dest < 14 ==> source < 16)
  {
    (6 * dest) % 17
  }

  lemma StepOn(dest: nat)
    requires dest < 14
    ensures Step6(0) == 0 && Step6(dest + 1) == (Step6(dest) + 6) % 17
  {}

  /** The output permutation: fourteen steps of six modulo seventeen, then bytes 5 and 11. */
  function Walk(dest: nat): (source: nat)
    requires dest < 16
    ensures source < 16
  {
    if dest < 14 then Step6(dest) else if dest == 14 then 5 else 11
  }

  lemma WalkAt(dest: nat)
    requires dest < 16
    ensures Walk(dest) == if dest < 14 then Step6(dest) else if dest == 14 then 5 else 11
    ensures dest < 14 ==> Walk(dest) == (6 * dest) % 17
  {}

  lemma WalkGroups(k: nat)
    requires k < 5
    ensures Md5Group(k) == (Walk(3 * k), Walk(3 * k + 1), Walk(3 * k + 2))
  {}

  lemma EmitStep(w: int, n: nat)
    requires w >= 0 && n > 0
    ensures Emit(w, n) == [Cov2Char(w % 64)] + Emit(w / 64, n - 1)
  {}

  lemma EmitLow(low: int, high: int, n: nat)
    requires 0 <= low < 64 && high >= 0 && n > 0
    ensures Emit(low + 64 * high, n) == [Cov2Char(low)] + Emit(high, n - 1)
  {
    hide Emit, Cov2Char;
    var w := low + 64 * high;
    assert w % 64 == low && w / 64 == high;
    EmitStep(w, n);
  }

  lemma EmitFour(s0: int, s1: int, s2: int, s3: int)
    requires 0 <= s0 < 64 && 0 <= s1 < 64 && 0 <= s2 < 64 && 0 <= s3 < 64
    ensures Emit(s0 + 64 * (s1 + 64 * (s2 + 64 * s3)), 4) == [Cov2Char(s0), Cov2Char(s1), Cov2Char(s2), Cov2Char(s3)]
  {
    hide Emit, Cov2Char;
    EmitLow(s0, s1 + 64 * (s2 + 64 * s3), 4);
    EmitLow(s1, s2 + 64 * s3, 3);
    EmitLow(s2, s3, 2);
    EmitLow(s3, 0, 1);
  }

  /** Packing with masks and shifts of single bytes is the same as shifting the 24-bit word. */
  lemma HandPacking(b2: int, b1: int, b0: int)
    requires 0 <= b2 < 256 && 0 <= b1 < 256 && 0 <= b0 < 256
    ensures Emit(b2 * 65536 + b1 * 256 + b0, 4) ==
            [Cov2Char(b0 % 64), Cov2Char(b1 % 16 * 4 + b0 / 64), Cov2Char(b2 % 4 * 16 + b1 / 16), Cov2Char(b2 / 4)]
  {
    hide Emit, Cov2Char;
    var s0, s1, s2, s3 := b0 % 64, b1 % 16 * 4 + b0 / 64, b2 % 4 * 16 + b1 / 16, b2 / 4;
    EmitFour(s0, s1, s2, s3);
    assert s0 + 64 * (s1 + 64 * (s2 + 64 * s3)) == b2 * 65536 + b1 * 256 + b0;
  }

  lemma HandPackingTail(b0: int)
    requires 0 <= b0 < 256
    ensures Emit(b0, 2) == [Cov2Char(b0 % 64), Cov2Char(b0 / 64)]
  {
    hide Emit, Cov2Char;
    EmitStep(b0, 2);
    EmitStep(b0 / 64, 1);
  }

  method Put(out: array<char>, at: nat, c: char, ghost base: seq<char>, ghost cp: nat, ghost done: seq<char>)
    returns (next: nat)
    requires Written(out[..], base, cp, done) && at == cp + |done| && at < out.Length
    modifies out
    ensures next == at + 1 && Written(out[..], base, cp, done + [c])
  {
    WriteOne(out[..], base, cp, done, c);
    out[at] := c;
    next := at + 1;
  }

  /** The permutation loop. Its source index never leaves the digest. */
  method Permute(d: seq<char>) returns (perm: array<char>)
    requires DigestOf(Md5, d)
    ensures fresh(perm) && perm.Length == 16
    ensures forall j: nat :: j < 16 ==> perm[j] == d[Walk(j)]
  {
    hide Walk, Step6;
    StepOn(0);
    perm := new char[16];
    var dest, source := 0, 0;
    while dest < 14
      invariant 0 <= dest <= 14 && source == Step6(dest)
      invariant forall j: nat :: j < dest ==> perm[j] == d[Walk(j)]
    {
      WalkAt(dest);
      StepOn(dest);
      perm[dest] := d[source];
      dest, source := dest + 1, (source + 6) % 17;
    }
    WalkAt(14);
    WalkAt(15);
    perm[14] := d[5];
    perm[15] := d[11];
  }

  /** One turn of the packing loop: four characters from three bytes. */
  method PutByHand(out: array<char>, at: nat, b2: int, b1: int, b0: int, ghost base: seq<char>, ghost cp: nat,
                   ghost done: seq<char>) returns (next: nat)
    requires 0 <= b2 < 256 && 0 <= b1 < 256 && 0 <= b0 < 256
    requires Written(out[..], base, cp, done) && at == cp + |done| && at + 4 <= out.Length
    modifies out
    ensures next == at + 4
    ensures Written(out[..], base, cp, done + Emit(b2 * 65536 + b1 * 256 + b0, 4))
  {
    hide Written, Emit;
    HandPacking(b2, b1, b0);
    ghost var one, two := [Cov2Char(b0 % 64)], [Cov2Char(b1 % 16 * 4 + b0 / 64)];
    ghost var three, four := [Cov2Char(b2 % 4 * 16 + b1 / 16)], [Cov2Char(b2 / 4)];
    next := Put(out, at, Cov2Char(b0 % 64), base, cp, done);
    next := Put(out, next, Cov2Char(b1 % 16 * 4 + b0 / 64), base, cp, done + one);
    next := Put(out, next, Cov2Char(b2 % 4 * 16 + b1 / 16), base, cp, done + one + two);
    next := Put(out, next, Cov2Char(b2 / 4), base, cp, done + one + two + three);
    assert one + two + three + four == Emit(b2 * 65536 + b1 * 256 + b0, 4);
    assert done + one + two + three + four == done + (one + two + three + four);
  }

  method PutMd5(out: array<char>, cp: nat, d: seq<char>) returns (at: nat)
    requires DigestOf(Md5, d) && cp + 22 <= out.Length
    modifies out
    ensures at == cp + 22 && Written(out[..], old(out[..]), cp, Encode(Md5, d))
  {
    hide Written, Emit, Walk;
    ghost var base := out[..];
    var perm := Permute(d);
    assert out[..] == base;
    NothingWritten(Md5, base, cp, d);
    at := cp;
    var i := 0;
    ghost var k := 0;
    while i < 15
      invariant i == 3 * k && k <= 5 && at == cp + 4 * k
      invariant perm != out && forall j: nat :: j < 16 ==> perm[j] == d[Walk(j)]
      invariant Written(out[..], base, cp, Groups(Md5, d, k))
    {
      WalkGroups(k);
      at := PutByHand(out, at, perm[i] as int, perm[i + 1] as int, perm[i + 2] as int, base, cp, Groups(Md5, d, k));
      i, k := i + 3, k + 1;
    }
    var b := perm[i] as int;
    WalkAt(15);
    HandPackingTail(b);
    ghost var done := Groups(Md5, d, 5);
    at := Put(out, at, Cov2Char(b % 64), base, cp, done);
    at := Put(out, at, Cov2Char(b / 64), base, cp, done + [Cov2Char(b % 64)]);
    assert done + [Cov2Char(b % 64)] + [Cov2Char(b / 64)] == Encode(Md5, d);
  }
}
