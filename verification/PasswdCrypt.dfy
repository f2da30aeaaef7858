// The SHA and MD5 password algorithms over an arbitrary digest function.
//
// The specification hashes whole concatenations. The methods feed a digest context piece by piece,
// fill the P and S arrays with partial copies and write into fixed output buffers, as the command does.

module PasswdCrypt {
  import opened CString
  import opened Chars
  import opened PasswdEncoding
  import opened PasswdSetting

  type Hash = seq<char> -> seq<char>

  ghost predicate IsHash(h: Hash, layout: Layout)
  {
    forall x :: DigestOf(layout, h(x))
  }

  // ---- the specification ----

  /** The digest repeated to n bytes. */
  function Cycle(d: seq<char>, n: nat): (r: seq<char>)
    requires |d| > 0
    ensures |r| == n
  {
    seq(n, k requires 0 <= k < n => d[k % |d|])
  }

  function Repeat(s: seq<char>, n: nat): seq<char>
  {
    if n == 0 then [] else Repeat(s, n - 1) + s
  }

  /** n shifted right by k bits. */
  function Shift(n: nat, k: nat): nat
  {
    if k == 0 then n else Shift(n, k - 1) / 2
  }

  predicate Bit(n: nat, k: nat)
  {
    Shift(n, k) % 2 == 1
  }

  function BitLength(n: nat): nat
  {
    if n == 0 then 0 else 1 + BitLength(n / 2)
  }

  /** One piece for each of the lowest k bits of n, the lowest bit first. */
  function BitPieces(n: nat, one: seq<char>, zero: seq<char>, k: nat): seq<char>
  {
    if k == 0 then [] else BitPieces(n, one, zero, k - 1) + if Bit(n, k - 1) then one else zero
  }

  /** BitLength is the least shift that leaves nothing, so no bit is dropped and none is added. */
  lemma {:induction false} BitLengthExact(n: nat, k: nat)
    ensures Shift(n, k) == 0 <==> k >= BitLength(n)
    decreases k
  {
    if k > 0 {
      ShiftFirst(n, k);
      BitLengthExact(n / 2, k - 1);
    }
  }

  lemma {:induction false} ShiftFirst(n: nat, k: nat)
    requires k > 0
    ensures Shift(n, k) == Shift(n / 2, k - 1)
  {
    if k > 1 { ShiftFirst(n, k - 1); }
  }

  /** Round n over the previous digest c. */
  function Round(h: Hash, p: seq<char>, s: seq<char>, c: seq<char>, n: nat): seq<char>
  {
    h((if n % 2 == 1 then p else c)
      + (if n % 3 != 0 then s else [])
      + (if n % 7 != 0 then p else [])
      + (if n % 2 == 1 then c else p))
  }

  function Rounds(h: Hash, p: seq<char>, s: seq<char>, c: seq<char>, n: nat): seq<char>
  {
    if n == 0 then c else Round(h, p, s, Rounds(h, p, s, c, n - 1), n - 1)
  }

  /** What one round hashes, case by case. */
  lemma RoundIs(h: Hash, p: seq<char>, s: seq<char>, c: seq<char>, n: nat)
    ensures Round(h, p, s, c, n) ==
      if n % 2 == 0 then
        if n % 3 == 0 then if n % 7 == 0 then h(c + p) else h(c + p + p)
        else if n % 7 == 0 then h(c + s + p) else h(c + s + p + p)
      else
        if n % 3 == 0 then if n % 7 == 0 then h(p + c) else h(p + p + c)
        else if n % 7 == 0 then h(p + s + c) else h(p + s + p + c)
  {
    var front := if n % 2 == 1 then p else c;
    assert front + [] + [] == front && front + [] + p == front + p && front + s + [] == front + s;
  }

  /** Round n + 1 over the result of the n rounds before it, counted from 0. */
  lemma RoundsAre(h: Hash, p: seq<char>, s: seq<char>, start: seq<char>, n: nat)
    ensures Rounds(h, p, s, start, 0) == start
    ensures var c := Rounds(h, p, s, start, n);
      Rounds(h, p, s, start, n + 1) ==
      if n % 2 == 0 then
        if n % 3 == 0 then if n % 7 == 0 then h(c + p) else h(c + p + p)
        else if n % 7 == 0 then h(c + s + p) else h(c + s + p + p)
      else
        if n % 3 == 0 then if n % 7 == 0 then h(p + c) else h(p + p + c)
        else if n % 7 == 0 then h(p + s + c) else h(p + s + p + c)
  {
    hide Round;
    RoundIs(h, p, s, Rounds(h, p, s, start, n), n);
  }

  /** The first four rounds. */
  lemma FirstRounds(h: Hash, p: seq<char>, s: seq<char>, c: seq<char>)
    ensures Rounds(h, p, s, c, 4) == h(p + p + h(h(p + s + p + h(c + p)) + s + p + p))
  {
    hide Rounds;
    RoundsAre(h, p, s, c, 0);
    RoundsAre(h, p, s, c, 1);
    RoundsAre(h, p, s, c, 2);
    RoundsAre(h, p, s, c, 3);
  }

  /** The pieces for the bits of n: the lowest bit first, then those of the half. */
  lemma BitPiecesLow(n: nat, one: seq<char>, zero: seq<char>)
    ensures BitPieces(n, one, zero, BitLength(n)) ==
      if n == 0 then [] else (if n % 2 == 1 then one else zero) + BitPieces(n / 2, one, zero, BitLength(n / 2))
  {
    if n > 0 { BitPiecesShift(n, one, zero, BitLength(n / 2)); }
  }

  lemma {:induction false} BitPiecesShift(n: nat, one: seq<char>, zero: seq<char>, k: nat)
    ensures BitPieces(n, one, zero, k + 1) == (if n % 2 == 1 then one else zero) + BitPieces(n / 2, one, zero, k)
  {
    var first := if n % 2 == 1 then one else zero;
    if k == 0 {
      assert BitPieces(n, one, zero, 1) == BitPieces(n, one, zero, 0) + first;
    } else {
      BitPiecesShift(n, one, zero, k - 1);
      ShiftFirst(n, k);
      var last := if Bit(n, k) then one else zero;
      assert BitPieces(n, one, zero, k + 1) == BitPieces(n, one, zero, k) + last;
      assert BitPieces(n / 2, one, zero, k) == BitPieces(n / 2, one, zero, k - 1) + last;
      assert first + BitPieces(n / 2, one, zero, k - 1) + last == first + (BitPieces(n / 2, one, zero, k - 1) + last);
    }
  }

  lemma RepeatIs(s: seq<char>, n: nat)
    ensures Repeat(s, 0) == [] && Repeat(s, 1) == s && Repeat(s, 2) == s + s
    ensures Repeat(s, n + 1) == Repeat(s, n) + s
  {
    assert [] + s == s;
    assert Repeat(s, 1) == Repeat(s, 0) + s && Repeat(s, 2) == Repeat(s, 1) + s;
  }

  function AlternateDigest(h: Hash, passwd: seq<char>, salt: seq<char>): seq<char>
  {
    h(passwd + salt + passwd)
  }

  ghost function ShaStart(h: Hash, layout: Layout, passwd: seq<char>, salt: seq<char>): (d: seq<char>)
    requires IsHash(h, layout)
    ensures DigestOf(layout, d)
  {
    var b := AlternateDigest(h, passwd, salt);
    h(passwd + salt + Cycle(b, |passwd|) + BitPieces(|passwd|, b, passwd, BitLength(|passwd|)))
  }

  ghost function PBytes(h: Hash, layout: Layout, passwd: seq<char>): seq<char>
    requires IsHash(h, layout)
  {
    Cycle(h(Repeat(passwd, |passwd|)), |passwd|)
  }

  ghost function SBytes(h: Hash, layout: Layout, salt: seq<char>, start: seq<char>): seq<char>
    requires IsHash(h, layout) && DigestOf(layout, start)
  {
    Cycle(h(Repeat(salt, 16 + start[0] as int)), |salt|)
  }

  /** The SHA password digest. */
  ghost function ShaDigest(h: Hash, layout: Layout, passwd: seq<char>, salt: seq<char>, rounds: nat): seq<char>
    requires IsHash(h, layout)
  {
    var a := ShaStart(h, layout, passwd, salt);
    Rounds(h, PBytes(h, layout, passwd), SBytes(h, layout, salt, a), a, rounds)
  }

  /** The SHA password digest, spelled out. */
  lemma ShaDigestIs(h: Hash, layout: Layout, passwd: seq<char>, salt: seq<char>, rounds: nat)
    requires IsHash(h, layout)
    ensures var b := h(passwd + salt + passwd);
      IsSize(|b|) &&
      var a := h(passwd + salt + Cycle(b, |passwd|) + BitPieces(|passwd|, b, passwd, BitLength(|passwd|)));
      |a| > 0 && IsSize(|h(Repeat(passwd, |passwd|))|) && IsSize(|h(Repeat(salt, 16 + a[0] as int))|) &&
      ShaDigest(h, layout, passwd, salt, rounds) ==
        Rounds(h, Cycle(h(Repeat(passwd, |passwd|)), |passwd|), Cycle(h(Repeat(salt, 16 + a[0] as int)), |salt|), a, rounds)
  {
    hide Cycle, BitPieces, Rounds, DigestOf, IsHash, BitLength, Repeat;
    var b := h(passwd + salt + passwd);
    DigestSize(h, layout, passwd + salt + passwd);
    var a := h(passwd + salt + Cycle(b, |passwd|) + BitPieces(|passwd|, b, passwd, BitLength(|passwd|)));
    DigestSize(h, layout, passwd + salt + Cycle(b, |passwd|) + BitPieces(|passwd|, b, passwd, BitLength(|passwd|)));
    DigestSize(h, layout, Repeat(passwd, |passwd|));
    DigestSize(h, layout, Repeat(salt, 16 + a[0] as int));
  }

  /** The magic string between dollars, or nothing at all for the AIX variant. */
  function MagicText(magic: seq<char>): seq<char>
  {
    if magic == [] then [] else ['$'] + magic + ['$']
  }

  function FirstChar(s: seq<char>): seq<char>
  {
    if s == [] then [] else [s[0]]
  }

  /** The MD5 password digest. */
  ghost function Md5Digest(h: Hash, passwd: seq<char>, magic: seq<char>, salt: seq<char>): seq<char>
    requires IsHash(h, Md5)
  {
    var b := AlternateDigest(h, passwd, salt);
    var a := h(passwd + MagicText(magic) + salt + Cycle(b, |passwd|)
               + BitPieces(|passwd|, ['\0'], FirstChar(passwd), BitLength(|passwd|)));
    Rounds(h, passwd, salt, a, 1000)
  }

  lemma {:induction false} RoundsDigest(h: Hash, layout: Layout, p: seq<char>, s: seq<char>, c: seq<char>, n: nat)
    requires IsHash(h, layout) && DigestOf(layout, c)
    ensures DigestOf(layout, Rounds(h, p, s, c, n))
  {
    if n > 0 { RoundsDigest(h, layout, p, s, c, n - 1); }
  }

  // ---- digest contexts ----

  class DigestCtx {
    const hash: Hash
    var data: seq<char>

    constructor (hash: Hash)
      ensures this.hash == hash && data == []
    {
      this.hash := hash;
      data := [];
    }

    method Init()
      modifies this
      ensures data == []
    {
      data := [];
    }

    method Update(bytes: seq<char>)
      modifies this
      ensures data == old(data) + bytes
    {
      data := data + bytes;
    }

    method Final() returns (digest: seq<char>)
      ensures digest == hash(data)
    {
      digest := hash(data);
    }

    /** Feed the digest over and over until len bytes are reached. */
    method FeedCycle(digest: seq<char>, len: nat)
      requires IsSize(|digest|)
      modifies this
      ensures data == old(data) + Cycle(digest, len)
    {
      var n := len;
      ghost var q := 0;
      while n > |digest|
        invariant 0 <= n <= len && len - n == q * |digest|
        invariant data == old(data) + Cycle(digest, len - n)
      {
        CycleStep(digest, q, |digest|);
        assert old(data) + Cycle(digest, len - n) + digest == old(data) + (Cycle(digest, len - n) + digest);
        Update(digest);
        n, q := n - |digest|, q + 1;
      }
      CycleStep(digest, q, n);
      assert old(data) + Cycle(digest, len - n) + digest[..n] == old(data) + (Cycle(digest, len - n) + digest[..n]);
      Update(digest[..n]);
    }

    /** Feed one piece per bit of len, the lowest bit first. */
    method FeedBits(len: nat, one: seq<char>, zero: seq<char>)
      modifies this
      ensures data == old(data) + BitPieces(len, one, zero, BitLength(len))
    {
      var n := len;
      ghost var k := 0;
      while n != 0
        invariant n == Shift(len, k) && k + BitLength(n) == BitLength(len)
        invariant data == old(data) + BitPieces(len, one, zero, k)
        decreases n
      {
        assert n % 2 == 1 <==> Bit(len, k);
        var piece := if n % 2 == 1 then one else zero;
        assert old(data) + BitPieces(len, one, zero, k) + piece == old(data) + (BitPieces(len, one, zero, k) + piece);
        Update(piece);
        n, k := n / 2, k + 1;
      }
    }

    method FeedRepeat(bytes: seq<char>, count: nat)
      modifies this
      ensures data == old(data) + Repeat(bytes, count)
    {
      var n := count;
      while n > 0
        invariant 0 <= n <= count && data == old(data) + Repeat(bytes, count - n)
      {
        assert old(data) + Repeat(bytes, count - n) + bytes == old(data) + (Repeat(bytes, count - n) + bytes);
        Update(bytes);
        n := n - 1;
      }
    }

    method OneRound(p: seq<char>, s: seq<char>, c: seq<char>, n: nat) returns (digest: seq<char>)
      modifies this
      ensures digest == Round(hash, p, s, c, n)
      // What is hashed, case by case.
      ensures n % 2 == 0 && n % 3 == 0 && n % 7 == 0 ==> digest == hash(c + p)
      ensures n % 2 == 0 && n % 3 == 0 && n % 7 != 0 ==> digest == hash(c + p + p)
      ensures n % 2 == 0 && n % 3 != 0 && n % 7 == 0 ==> digest == hash(c + s + p)
      ensures n % 2 == 0 && n % 3 != 0 && n % 7 != 0 ==> digest == hash(c + s + p + p)
      ensures n % 2 == 1 && n % 3 == 0 && n % 7 == 0 ==> digest == hash(p + c)
      ensures n % 2 == 1 && n % 3 == 0 && n % 7 != 0 ==> digest == hash(p + p + c)
      ensures n % 2 == 1 && n % 3 != 0 && n % 7 == 0 ==> digest == hash(p + s + c)
      ensures n % 2 == 1 && n % 3 != 0 && n % 7 != 0 ==> digest == hash(p + s + p + c)
    {
      Init();
      Update(if n % 2 == 1 then p else c);
      assert data == if n % 2 == 1 then p else c;
      if n % 3 != 0 {
        Update(s);
      }
      assert data == (if n % 2 == 1 then p else c) + (if n % 3 != 0 then s else []);
      if n % 7 != 0 {
        Update(p);
      }
      assert data == (if n % 2 == 1 then p else c) + (if n % 3 != 0 then s else []) + (if n % 7 != 0 then p else []);
      Update(if n % 2 == 1 then c else p);
      digest := Final();
      RoundIs(hash, p, s, c, n);
    }

    /** The round loop. */
    method RunRounds(p: seq<char>, s: seq<char>, start: seq<char>, rounds: nat) returns (buf: seq<char>)
      modifies this
      ensures buf == Rounds(hash, p, s, start, rounds)
    {
      hide Round;
      buf := start;
      var n := 0;
      while n < rounds
        invariant 0 <= n <= rounds && buf == Rounds(hash, p, s, start, n)
      {
        buf := OneRound(p, s, buf, n);
        n := n + 1;
      }
    }
  }

  /** Digests are 16, 32 or 64 bytes. */
  predicate IsSize(m: nat)
  {
    m == 16 || m == 32 || m == 64
  }

  lemma ModUnique(m: nat, q: nat, r: nat)
    requires IsSize(m) && r < m
    ensures (q * m + r) % m == r
  {
    if m == 16 { Mod16(q, r); } else if m == 32 { Mod32(q, r); } else { Mod64(q, r); }
  }

  lemma Mod16(q: nat, r: nat)
    requires r < 16
    ensures (q * 16 + r) % 16 == r
  {}

  lemma Mod32(q: nat, r: nat)
    requires r < 32
    ensures (q * 32 + r) % 32 == r
  {}

  lemma Mod64(q: nat, r: nat)
    requires r < 64
    ensures (q * 64 + r) % 64 == r
  {}

  /** Whole copies so far, then j more bytes. */
  lemma CycleStep(d: seq<char>, q: nat, j: nat)
    requires IsSize(|d|) && j <= |d|
    ensures Cycle(d, q * |d| + j) == Cycle(d, q * |d|) + d[..j]
    ensures j == |d| ==> d[..j] == d && q * |d| + j == (q + 1) * |d|
  {
    var n := q * |d|;
    forall k: nat | k < j ensures Cycle(d, n + j)[n + k] == d[k] {
      ModUnique(|d|, q, k);
    }
    assert Cycle(d, n + j)[..n] == Cycle(d, n);
    assert Cycle(d, n + j)[n..] == d[..j];
    assert Cycle(d, n + j) == Cycle(d, n + j)[..n] + Cycle(d, n + j)[n..];
  }

  // ---- the P and S arrays ----

  method Memcpy(dst: array<char>, at: nat, src: seq<char>, n: nat)
    requires n <= |src| && at + n <= dst.Length
    modifies dst
    ensures dst[..] == old(dst[..at]) + src[..n] + old(dst[at + n..])
  {
    var k := 0;
    while k < n
      invariant 0 <= k <= n
      invariant dst[..] == old(dst[..at]) + src[..k] + old(dst[at + k..])
    {
      dst[at + k] := src[k];
      k := k + 1;
    }
  }

  /** Allocate len bytes and copy the digest into them over and over, the last time in part. */
  method FillCycle(digest: seq<char>, len: nat) returns (bytes: array<char>)
    requires IsSize(|digest|)
    ensures fresh(bytes) && bytes[..] == Cycle(digest, len)
    ensures bytes.Length == len && forall k :: 0 <= k < len ==> bytes[k] == digest[k % |digest|]
  {
    bytes := new char[len](_ => '\0');
    var cp, n := 0, len;
    ghost var q := 0;
    while n > |digest|
      invariant 0 <= n <= len && cp == len - n == q * |digest|
      invariant bytes.Length == len && bytes[..cp] == Cycle(digest, cp)
    {
      CycleStep(digest, q, |digest|);
      Memcpy(bytes, cp, digest, |digest|);
      n, cp, q := n - |digest|, cp + |digest|, q + 1;
    }
    CycleStep(digest, q, n);
    Memcpy(bytes, cp, digest, n);
  }

  // ---- the SHA algorithm ----

  /** The digest that all rounds start from. */
  method StartDigest(md: DigestCtx, md2: DigestCtx, ghost layout: Layout, passwd: seq<char>, salt: seq<char>)
    returns (buf: seq<char>)
    requires md != md2 && md.data == md2.data == [] && md.hash == md2.hash && IsHash(md.hash, layout)
    modifies md, md2
    ensures buf == ShaStart(md.hash, layout, passwd, salt)
  {
    hide Cycle, BitPieces, DigestOf;
    md.Update(passwd);
    md.Update(salt);
    md2.Update(passwd);
    md2.Update(salt);
    md2.Update(passwd);
    assert md2.data == passwd + salt + passwd;
    buf := md2.Final();
    DigestSize(md.hash, layout, passwd + salt + passwd);
    md.FeedCycle(buf, |passwd|);
    md.FeedBits(|passwd|, buf, passwd);
    assert md.data == passwd + salt + Cycle(buf, |passwd|) + BitPieces(|passwd|, buf, passwd, BitLength(|passwd|));
    buf := md.Final();
  }

  lemma DigestSize(h: Hash, layout: Layout, x: seq<char>)
    requires IsHash(h, layout)
    ensures DigestOf(layout, h(x)) && IsSize(|h(x)|) && h(x)[0] as int < 256
  {
    assert DigestOf(layout, h(x));
  }

  /** The P or S bytes: hash `count` copies, then fill an array as long as `bytes`; none is allocated for no bytes. */
  method Stretch(md2: DigestCtx, ghost layout: Layout, bytes: seq<char>, count: nat)
    returns (ok: bool, stretched: seq<char>)
    requires IsHash(md2.hash, layout)
    modifies md2
    ensures ok <==> bytes != []
    ensures ok ==> stretched == Cycle(md2.hash(Repeat(bytes, count)), |bytes|)
  {
    hide Cycle, Repeat, IsHash, DigestOf;
    md2.Init();
    md2.FeedRepeat(bytes, count);
    assert md2.data == Repeat(bytes, count);
    var temp := md2.Final();
    DigestSize(md2.hash, layout, md2.data);
    if bytes == [] {
      return false, [];
    }
    var filled := FillCycle(temp, |bytes|);
    return true, filled[..];
  }

  /** The digest steps of shacrypt; an allocation of no bytes fails. */
  method ShaCryptDigest(h: Hash, ghost layout: Layout, passwd: seq<char>, salt: seq<char>, rounds: nat)
    returns (ok: bool, buf: seq<char>)
    requires IsHash(h, layout)
    ensures ok <==> passwd != [] && salt != []
    ensures ok ==> buf == ShaDigest(h, layout, passwd, salt, rounds) && DigestOf(layout, buf)
  {
    hide Cycle, Repeat, Rounds, ShaStart, IsHash, DigestOf;
    var md := new DigestCtx(h);
    var md2 := new DigestCtx(h);
    buf := StartDigest(md, md2, layout, passwd, salt);
    StartSize(layout, buf);
    ghost var start := buf;
    var pBytes, sBytes;
    ok, pBytes := Stretch(md2, layout, passwd, |passwd|);
    if !ok { return; }
    ok, sBytes := Stretch(md2, layout, salt, 16 + buf[0] as int);
    if !ok { return; }
    RoundsDigest(h, layout, pBytes, sBytes, start, rounds);
    buf := md2.RunRounds(pBytes, sBytes, buf, rounds);
  }

  lemma StartSize(layout: Layout, d: seq<char>)
    requires DigestOf(layout, d)
    ensures |d| > 0 && d[0] as int < 256
  {}

  ghost function ShaText(h: Hash, layout: Layout, passwd: seq<char>, magic: seq<char>, setting: Setting): seq<char>
    requires IsHash(h, layout) && setting.Setting?
  {
    var salt := Truncate(setting.salt, SALT_LEN_MAX);
    var digest := ShaDigest(h, layout, passwd, salt, setting.rounds);
    RoundsDigest(h, layout, PBytes(h, layout, passwd),
                 SBytes(h, layout, salt, ShaStart(h, layout, passwd, salt)), ShaStart(h, layout, passwd, salt),
                 setting.rounds);
    ['$'] + magic + ['$'] + PrintSetting(setting) + ['$'] + Encode(layout, digest)
  }

  /** The part of the output before the digest. */
  method WriteHeader(out: array<char>, magic: seq<char>, setting: Setting, salt: seq<char>)
    requires out.Length == 124 && |magic| == 1 && IsText(magic) && setting.Setting?
    requires ROUNDS_MIN <= setting.rounds <= ROUNDS_MAX
    requires salt == Truncate(setting.salt, SALT_LEN_MAX) && IsText(salt)
    modifies out
    ensures Holds(out[..], ['$'] + magic + ['$'] + PrintSetting(setting))
  {
    PrintedLength(setting);
    out[0] := '\0';
    assert Holds(out[..], []);
    hide Holds, ToDec;
    Append(out, ['$'], []);
    assert [] + ['$'] == ['$'];
    Append(out, magic, ['$']);
    Append(out, ['$'], ['$'] + magic);
    ghost var text := ['$'] + magic + ['$'];
    if setting.custom {
      var tmp := ROUNDS_PREFIX + ToDec(setting.rounds);
      NoNul(ToDec(setting.rounds));
      Append(out, tmp, text);
      Append(out, ['$'], text + tmp);
      assert PrintSetting(setting) == tmp + ['$'] + salt;
      assert text + tmp + ['$'] + salt == text + (tmp + ['$'] + salt);
      text := text + tmp + ['$'];
    } else {
      assert PrintSetting(setting) == salt;
    }
    Append(out, salt, text);
  }

  lemma NoNul(digits: seq<char>)
    requires forall k :: 0 <= k < |digits| ==> IsDigit(digits[k])
    ensures IsText(ROUNDS_PREFIX + digits)
  {}

  lemma WrittenAfter(buf: seq<char>, base: seq<char>, cp: nat, chars: seq<char>, text: seq<char>)
    requires Written(buf, base, cp, chars) && cp + |chars| < |base| && base[..cp] == text
    requires IsText(text) && IsText(chars)
    ensures Holds(buf[cp + |chars| := '\0'], text + chars)
  {
    assert buf[..cp + |chars|] == text + chars;
  }

  /** A dollar, the encoded digest and the terminator after the header. */
  method WriteDigest(out: array<char>, layout: Layout, d: seq<char>, ghost text: seq<char>)
    requires Holds(out[..], text) && DigestOf(layout, d)
    requires |text| + 1 + |Encode(layout, d)| < out.Length
    modifies out
    ensures Holds(out[..], text + ['$'] + Encode(layout, d))
  {
    hide Written, Encode;
    var cp := Strlen(out, text);
    assert out[..cp] == text;
    out[cp] := '$';
    ghost var base := out[..];
    assert base[..cp + 1] == text + ['$'];
    EncodeText(layout, d);
    var at;
    match layout {
      case Md5 => at := PutMd5(out, cp + 1, d);
      case Sha256 => at := PutSha256(out, cp + 1, d);
      case Sha512 => at := PutSha512(out, cp + 1, d);
    }
    EncodeLength(layout, d);
    WrittenAfter(out[..], base, cp + 1, Encode(layout, d), text + ['$']);
    ghost var before := out[..];
    out[at] := '\0';
    assert out[..] == before[at := '\0'];
  }

  lemma EncodeLength(layout: Layout, d: seq<char>)
    requires DigestOf(layout, d)
    ensures |Encode(layout, d)| == match layout case Md5 => 22 case Sha256 => 43 case Sha512 => 86
  {}

  ghost function LayoutOf(magic: seq<char>): Layout
  {
    if magic == "5" then Sha256 else Sha512
  }

  /**
   * shacrypt. It fails exactly on an unknown magic string, a malformed rounds setting, an empty password
   * or an empty salt; otherwise the whole text and its terminator fit the buffer of 124 characters. The
   * length check never rejects.
   */
  method ShaCrypt(passwd: seq<char>, magic: seq<char>, salt: seq<char>, sha256: Hash, sha512: Hash, out: array<char>)
    returns (ok: bool)
    requires IsText(passwd) && IsText(magic) && IsText(salt)
    requires IsHash(sha256, Sha256) && IsHash(sha512, Sha512)
    requires out.Length == 3 + 17 + 17 + 86 + 1
    modifies out
    ensures ok <==> (magic == "5" || magic == "6") && ParseSetting(salt).Setting? &&
                    passwd != [] && ParseSetting(salt).salt != []
    ensures ok ==>
      Holds(out[..], ShaText(if magic == "5" then sha256 else sha512, LayoutOf(magic), passwd, magic, ParseSetting(salt)))
  {
    hide Holds, ParseSetting, PrintSetting, ShaDigest, Encode, IsHash, DigestOf;
    ok := false;
    if |magic| != 1 { return; }
    if magic[0] != '5' && magic[0] != '6' { return; }
    assert magic == [magic[0]];
    var layout := if magic[0] == '5' then Sha256 else Sha512;
    var h := if magic[0] == '5' then sha256 else sha512;
    SettingFacts(salt);
    var setting := ParseSetting(salt);
    if setting.Bad? { return; }
    var asciiSalt := new char[17];
    Strlcpy(asciiSalt, setting.salt);
    ghost var t := Truncate(setting.salt, SALT_LEN_MAX);
    var saltLen := Strlen(asciiSalt, t);
    var s := asciiSalt[..saltLen];
    assert s == t by { HoldsText(asciiSalt[..], t); }
    WriteHeader(out, magic, setting, s);
    ghost var header := ['$'] + magic + ['$'] + PrintSetting(setting);
    var len := Strlen(out, header);
    PrintedLength(setting);
    var custom := if setting.custom then 1 else 0;
    if len <= 3 + 17 * custom + saltLen {
      var digest;
      ok, digest := ShaCryptDigest(h, layout, passwd, s, setting.rounds);
      if ok {
        EncodeLength(layout, digest);
        WriteDigest(out, layout, digest, header);
      }
    }
  }

  lemma SettingFacts(salt: seq<char>)
    ensures ParseSetting(salt).Setting? ==>
      ROUNDS_MIN <= ParseSetting(salt).rounds <= ROUNDS_MAX && (IsText(salt) ==> IsText(ParseSetting(salt).salt))
  {}

  /** The text, spelled out: with the rounds only if they were given, and at most sixteen characters of the salt. */
  lemma ShaTextIs(h: Hash, layout: Layout, passwd: seq<char>, magic: seq<char>, setting: Setting)
    requires IsHash(h, layout) && setting.Setting?
    ensures var salt := if |setting.salt| > 16 then setting.salt[..16] else setting.salt;
      DigestOf(layout, ShaDigest(h, layout, passwd, salt, setting.rounds)) &&
      var code := Encode(layout, ShaDigest(h, layout, passwd, salt, setting.rounds));
      ShaText(h, layout, passwd, magic, setting) ==
        if setting.custom then "$" + magic + "$rounds=" + ToDec(setting.rounds) + "$" + salt + "$" + code
        else "$" + magic + "$" + salt + "$" + code
  {
    var salt := Truncate(setting.salt, 16);
    hide ShaDigest, Encode, ToDec, IsHash, DigestOf;
    ShaTextParts(h, layout, passwd, magic, setting);
    if setting.custom {
      var front, digits := "$" + magic, ToDec(setting.rounds);
      assert front + "$" + ("rounds=" + digits + "$" + salt) == front + "$rounds=" + digits + "$" + salt;
    } else {
      assert [] + salt == salt;
    }
  }

  lemma ShaTextParts(h: Hash, layout: Layout, passwd: seq<char>, magic: seq<char>, setting: Setting)
    requires IsHash(h, layout) && setting.Setting?
    ensures var salt := Truncate(setting.salt, 16);
      DigestOf(layout, ShaDigest(h, layout, passwd, salt, setting.rounds)) &&
      ShaText(h, layout, passwd, magic, setting) == "$" + magic + "$" + PrintSetting(setting) + "$"
        + Encode(layout, ShaDigest(h, layout, passwd, salt, setting.rounds))
  {
    var salt := Truncate(setting.salt, 16);
    RoundsDigest(h, layout, PBytes(h, layout, passwd),
                 SBytes(h, layout, salt, ShaStart(h, layout, passwd, salt)), ShaStart(h, layout, passwd, salt),
                 setting.rounds);
    hide Encode, PrintSetting, PBytes, SBytes, ShaStart, Rounds, DigestOf;
  }

  /** Hashing again with the printed setting as the salt gives the same text. */
  lemma ShaTextStable(h: Hash, layout: Layout, passwd: seq<char>, magic: seq<char>, salt: seq<char>)
    requires IsHash(h, layout) && ParseSetting(salt).Setting?
    ensures var again := ParseSetting(PrintSetting(ParseSetting(salt)));
      again.Setting? && ShaText(h, layout, passwd, magic, again) == ShaText(h, layout, passwd, magic, ParseSetting(salt))
  {
    ReparseSetting(salt);
  }

  /** The longest text, with sixteen salt characters and nine digits of rounds, leaves room for the terminator only. */
  lemma LongestShaText(h: Hash, passwd: seq<char>, salt: seq<char>)
    requires IsHash(h, Sha512) && |salt| == 16
    ensures |ShaText(h, Sha512, passwd, "6", Setting(true, ROUNDS_MAX, salt))| == 123
  {
    NineDigits();
  }

  lemma NineDigits()
    ensures |ToDec(ROUNDS_MAX)| == 9
  {
    OneMoreDigit(9);
    OneMoreDigit(99);
    OneMoreDigit(999);
    OneMoreDigit(9999);
    OneMoreDigit(99999);
    OneMoreDigit(999999);
    OneMoreDigit(9999999);
    OneMoreDigit(99999999);
    hide ToDec;
  }

  lemma OneMoreDigit(n: nat)
    ensures |ToDec(n * 10 + 9)| == (if n == 0 then 1 else |ToDec(n)| + 1) && |ToDec(9)| == 1
  {
    assert (n * 10 + 9) / 10 == n;
  }

  // ---- the MD5 algorithm ----

  ghost function Md5Text(h: Hash, passwd: seq<char>, magic: seq<char>, salt: seq<char>): seq<char>
    requires IsHash(h, Md5)
  {
    var s := Truncate(salt, 8);
    var digest := Md5Digest(h, passwd, magic, s);
    Md5DigestSize(h, passwd, magic, s);
    MagicText(magic) + s + ['$'] + Encode(Md5, digest)
  }

  /** The text, spelled out: no dollars before the salt without a magic string, and at most eight characters of it. */
  lemma Md5TextIs(h: Hash, passwd: seq<char>, magic: seq<char>, salt: seq<char>)
    requires IsHash(h, Md5)
    ensures var s := if |salt| > 8 then salt[..8] else salt;
      DigestOf(Md5, Md5Digest(h, passwd, magic, s)) &&
      var code := Encode(Md5, Md5Digest(h, passwd, magic, s));
      Md5Text(h, passwd, magic, salt) == (if magic == [] then s + "$" + code else "$" + magic + "$" + s + "$" + code)
  {
    var s := Truncate(salt, 8);
    Md5DigestSize(h, passwd, magic, s);
    hide Md5Digest, Encode, IsHash, DigestOf;
    assert [] + s == s;
  }

  lemma Md5DigestSize(h: Hash, passwd: seq<char>, magic: seq<char>, salt: seq<char>)
    requires IsHash(h, Md5)
    ensures DigestOf(Md5, Md5Digest(h, passwd, magic, salt))
  {
    var b := AlternateDigest(h, passwd, salt);
    var a := h(passwd + MagicText(magic) + salt + Cycle(b, |passwd|)
               + BitPieces(|passwd|, ['\0'], FirstChar(passwd), BitLength(|passwd|)));
    RoundsDigest(h, Md5, passwd, salt, a, 1000);
  }

  lemma MagicInParts(passwd: seq<char>, magic: seq<char>)
    ensures passwd + MagicText(magic) == if |magic| > 0 then passwd + ['$'] + magic + ['$'] else passwd
  {
    if |magic| > 0 { assert passwd + (['$'] + magic + ['$']) == passwd + ['$'] + magic + ['$']; }
  }

  lemma Md5DigestParts(h: Hash, passwd: seq<char>, magic: seq<char>, salt: seq<char>)
    requires IsHash(h, Md5)
    ensures var b := h(passwd + salt + passwd);
      IsSize(|b|) && Md5Digest(h, passwd, magic, salt) ==
        Rounds(h, passwd, salt,
               h(passwd + MagicText(magic) + salt + Cycle(b, |passwd|)
                 + BitPieces(|passwd|, ['\0'], FirstChar(passwd), BitLength(|passwd|))), 1000)
  {
    hide Cycle, BitPieces, Rounds, DigestOf, IsHash, BitLength;
    DigestSize(h, Md5, passwd + salt + passwd);
  }

  /** The MD5 password digest, spelled out. */
  lemma Md5DigestIs(h: Hash, passwd: seq<char>, magic: seq<char>, salt: seq<char>)
    requires IsHash(h, Md5)
    ensures var b := h(passwd + salt + passwd);
      var front := if magic == [] then passwd else passwd + ['$'] + magic + ['$'];
      var first := if passwd == [] then [] else [passwd[0]];
      IsSize(|b|) && Md5Digest(h, passwd, magic, salt) ==
        Rounds(h, passwd, salt,
               h(front + salt + Cycle(b, |passwd|) + BitPieces(|passwd|, ['\0'], first, BitLength(|passwd|))), 1000)
  {
    Md5DigestParts(h, passwd, magic, salt);
    MagicInParts(passwd, magic);
    hide Cycle, BitPieces, Rounds, DigestOf, IsHash, BitLength, Md5Digest, MagicText;
  }

  method Md5CryptDigest(h: Hash, passwd: seq<char>, magic: seq<char>, salt: seq<char>) returns (buf: seq<char>)
    requires IsHash(h, Md5)
    ensures buf == Md5Digest(h, passwd, magic, salt)
  {
    hide *;
    var md := new DigestCtx(h);
    md.Update(passwd);
    MagicInParts(passwd, magic);
    if |magic| > 0 {
      md.Update(['$']);
      md.Update(magic);
      md.Update(['$']);
    }
    assert md.data == passwd + MagicText(magic);
    md.Update(salt);
    var md2 := new DigestCtx(h);
    md2.Update(passwd);
    md2.Update(salt);
    md2.Update(passwd);
    assert md2.data == passwd + salt + passwd;
    buf := md2.Final();
    DigestSize(h, Md5, passwd + salt + passwd);
    md.FeedCycle(buf, |passwd|);
    md.FeedBits(|passwd|, ['\0'], FirstChar(passwd));
    buf := md.Final();
    buf := md2.RunRounds(passwd, salt, buf, 1000);
    Md5DigestParts(h, passwd, magic, salt);
  }

  /** md5crypt: it fails exactly on a magic string of more than four characters. */
  method Md5Crypt(passwd: seq<char>, magic: seq<char>, salt: seq<char>, md5: Hash, out: array<char>)
    returns (ok: bool)
    requires IsText(passwd) && IsText(magic) && IsText(salt) && IsHash(md5, Md5)
    requires out.Length == 6 + 9 + 24 + 2
    modifies out
    ensures ok <==> |magic| <= 4
    ensures ok ==> Holds(out[..], Md5Text(md5, passwd, magic, salt))
  {
    out[0] := '\0';
    assert Holds(out[..], []);
    hide Holds, Md5Digest, Encode, IsHash, DigestOf;
    ok := false;
    var asciiSalt := new char[9];
    Strlcpy(asciiSalt, salt);
    ghost var t := Truncate(salt, 8);
    var saltLen := Strlen(asciiSalt, t);
    var s := asciiSalt[..saltLen];
    assert s == t by { HoldsText(asciiSalt[..], t); }
    ghost var text: seq<char> := [];
    if |magic| > 0 {
      Append(out, ['$'], text);
      assert text + ['$'] == ['$'];
      if |magic| > 4 { return; }
      Append(out, magic, ['$']);
      Append(out, ['$'], ['$'] + magic);
      text := ['$'] + magic + ['$'];
    }
    assert text == MagicText(magic);
    Append(out, s, text);
    var len := Strlen(out, text + s);
    if len <= 6 + 8 && saltLen <= 8 {
      var digest := Md5CryptDigest(md5, passwd, magic, s);
      Md5DigestSize(md5, passwd, magic, s);
      EncodeLength(Md5, digest);
      WriteDigest(out, Md5, digest, text + s);
      ok := true;
    }
  }
}
