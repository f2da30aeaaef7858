// C strings in fixed buffers. A char is one unsigned byte; a text is a sequence without NUL.

module CString {

  /** The largest unsigned long, of 64 bits. */
  const ULONG_MAX := 0xFFFF_FFFF_FFFF_FFFF

  predicate IsText(s: seq<char>)
  {
    '\0' !in s
  }

  /** The text of a C string: what comes before the first NUL. */
  function TextOf(s: seq<char>): (text: seq<char>)
    ensures |text| <= |s| && text == s[..|text|] && IsText(text)
    ensures |text| < |s| ==> s[|text|] == '\0'
  {
    if s == [] || s[0] == '\0' then [] else [s[0]] + TextOf(s[1..])
  }

  lemma TextOfHasEnd(s: seq<char>)
    requires '\0' in s
    ensures |TextOf(s)| < |s|
  {}

  /** The buffer holds the text, with its terminator inside the buffer. */
  ghost predicate Holds(buf: seq<char>, text: seq<char>)
  {
    |text| < |buf| && buf[..|text|] == text && buf[|text|] == '\0' && IsText(text)
  }

  lemma HoldsText(buf: seq<char>, text: seq<char>)
    requires Holds(buf, text)
    ensures |text| < |buf| && buf[..|text|] == text
  {}

  function Truncate(text: seq<char>, n: nat): (t: seq<char>)
    ensures t <= text && |t| <= n && (|t| == n || t == text)
  {
    if |text| <= n then text else text[..n]
  }

  method Strlen(buf: array<char>, ghost text: seq<char>) returns (n: nat)
    requires Holds(buf[..], text)
    ensures n == |text|
  {
    n := 0;
    assert forall k :: 0 <= k < |text| ==> text[k] == buf[..][k] && text[k] != '\0';
    while buf[n] != '\0'
      invariant 0 <= n <= |text|
      decreases |text| - n
    {
      assert buf[n] == buf[..][n];
      n := n + 1;
    }
  }

  /** OPENtls_strlcpy at an offset, with the room that is left in the buffer. */
  method CopyAt(dst: array<char>, at: nat, src: seq<char>)
    requires at < dst.Length && IsText(src)
    modifies dst
    ensures dst[..at] == old(dst[..at])
    ensures var t := Truncate(src, dst.Length - at - 1);
      at + |t| < dst.Length && dst[at..at + |t|] == t && dst[at + |t|] == '\0'
  {
    var k := 0;
    while dst.Length - at - k > 1 && k < |src|
      invariant 0 <= k <= |src| && at + k < dst.Length
      invariant dst[..at] == old(dst[..at]) && dst[at..at + k] == src[..k]
    {
      dst[at + k] := src[k];
      k := k + 1;
    }
    dst[at + k] := '\0';
    assert src[..k] == Truncate(src, dst.Length - at - 1);
  }

  method Strlcpy(dst: array<char>, src: seq<char>)
    requires dst.Length > 0 && IsText(src)
    modifies dst
    ensures Holds(dst[..], Truncate(src, dst.Length - 1))
  {
    CopyAt(dst, 0, src);
    ghost var t := Truncate(src, dst.Length - 1);
    assert dst[..][..|t|] == dst[0..|t|];
  }

  /** OPENtls_strlcat: append as much as fits. */
  method Strlcat(dst: array<char>, src: seq<char>, ghost text: seq<char>)
    requires Holds(dst[..], text) && IsText(src)
    modifies dst
    ensures Holds(dst[..], Truncate(text + src, dst.Length - 1))
  {
    var l := Strlen(dst, text);
    ghost var before := dst[..];
    CopyAt(dst, l, src);
    ghost var t := Truncate(src, dst.Length - l - 1);
    assert dst[..l] == before[..l] == text;
    assert dst[..l + |t|] == dst[..l] + dst[l..l + |t|];
    assert dst[..][..l + |t|] == text + t;
    assert Truncate(text + src, dst.Length - 1) == text + t;
  }

  /** strlcat where everything fits. */
  method Append(dst: array<char>, src: seq<char>, ghost text: seq<char>)
    requires Holds(dst[..], text) && IsText(src) && |text| + |src| < dst.Length
    modifies dst
    ensures Holds(dst[..], text + src)
  {
    Strlcat(dst, src, text);
  }
}
