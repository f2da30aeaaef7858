// The in-place %xx decoder of the OCSP responder's request line.
//
// A char is one unsigned byte. The reference is an out-of-place decoder of the original text; the
// encoder is the percent-encoding of section 2.1 of RFC 3986 with any choice of characters left as is.

module UrlDecode {
  import opened CString
  import opened Chars

  datatype Decoded = Malformed | Text(text: seq<char>) {
    function Prepend(front: seq<char>): Decoded {
      if Malformed? then Malformed else Text(front + text)
    }
  }

  /** A digit in the case that the encoder prefers. */
  function DigitOf(v: int, upper: bool): (c: char)
    requires 0 <= v < 16
    ensures IsHex(c) && HexValue(c) == v
  {
    if upper then HexDigit(v) else LowerHexDigit(v)
  }

  /** An escape starts here and is complete. */
  predicate EscapeAt(text: seq<char>, k: nat)
  {
    k + 2 < |text| && IsHex(text[k + 1]) && IsHex(text[k + 2])
  }

  /** Every percent sign is followed by two hexadecimal digits. */
  predicate WellFormed(text: seq<char>)
  {
    forall k :: 0 <= k < |text| && text[k] == '%' ==> EscapeAt(text, k)
  }

  /** The out-of-place decoder. */
  function Decode(text: seq<char>): Decoded
  {
    if text == [] then Text([])
    else if text[0] != '%' then Decode(text[1..]).Prepend([text[0]])
    else if EscapeAt(text, 0) then
      Decode(text[3..]).Prepend([(HexValue(text[1]) * 16 + HexValue(text[2])) as char])
    else Malformed
  }

  function CountPercent(text: seq<char>): nat
  {
    if text == [] then 0 else (if text[0] == '%' then 1 else 0) + CountPercent(text[1..])
  }

  /** The decoder fails exactly on a malformed escape, and otherwise drops two characters per escape. */
  lemma {:induction false} DecodeWellFormed(text: seq<char>)
    ensures Decode(text).Text? <==> WellFormed(text)
    ensures WellFormed(text) ==> |Decode(text).text| == |text| - 2 * CountPercent(text)
  {
    if text == [] {
    } else if text[0] != '%' {
      var rest := text[1..];
      DecodeWellFormed(rest);
      assert forall k :: 0 <= k < |rest| ==> rest[k] == text[k + 1] && (EscapeAt(rest, k) <==> EscapeAt(text, k + 1));
      assert WellFormed(rest) ==> WellFormed(text) by {
        if WellFormed(rest) {
          forall k | 0 <= k < |text| && text[k] == '%' ensures EscapeAt(text, k) {
            assert rest[k - 1] == '%';
          }
        }
      }
    } else if EscapeAt(text, 0) {
      var rest := text[3..];
      DecodeWellFormed(rest);
      assert text[1..][1..] == text[2..] && text[2..][1..] == rest;
      assert CountPercent(text[1..]) == CountPercent(text[2..]) == CountPercent(rest);
      assert forall k :: 0 <= k < |rest| ==> rest[k] == text[k + 3] && (EscapeAt(rest, k) <==> EscapeAt(text, k + 3));
      assert WellFormed(rest) ==> WellFormed(text) by {
        if WellFormed(rest) {
          forall k | 0 <= k < |text| && text[k] == '%' ensures EscapeAt(text, k) {
            if k > 2 { assert rest[k - 3] == '%'; }
          }
        }
      }
    }
  }

  predicate Bytes(s: seq<char>)
  {
    forall k :: 0 <= k < |s| ==> s[k] as int < 256
  }

  /** Percent-encoding: characters chosen by `keep` stay, all others become an escape. */
  function Encode(s: seq<char>, keep: char -> bool, upper: bool): seq<char>
    requires Bytes(s)
  {
    if s == [] then []
    else
      var c := s[0];
      (if keep(c) then [c] else ['%', DigitOf(c as int / 16, upper), DigitOf(c as int % 16, upper)])
      + Encode(s[1..], keep, upper)
  }

  lemma DecodeEscape(c: char, rest: seq<char>, upper: bool)
    requires c as int < 256
    ensures Decode(['%', DigitOf(c as int / 16, upper), DigitOf(c as int % 16, upper)] + rest) ==
            Decode(rest).Prepend([c])
  {
    var text := ['%', DigitOf(c as int / 16, upper), DigitOf(c as int % 16, upper)] + rest;
    assert text[3..] == rest && EscapeAt(text, 0);
  }

  /** Decoding undoes percent-encoding, whatever else is escaped and in either case of digits. */
  lemma {:induction false} DecodeEncode(s: seq<char>, keep: char -> bool, upper: bool)
    requires Bytes(s) && !keep('%') && !keep('\0')
    ensures Decode(Encode(s, keep, upper)) == Text(s)
    ensures '\0' !in Encode(s, keep, upper)
  {
    if s != [] {
      var c, rest := s[0], Encode(s[1..], keep, upper);
      DecodeEncode(s[1..], keep, upper);
      if keep(c) {
        assert ([c] + rest)[1..] == rest;
      } else {
        DecodeEscape(c, rest, upper);
      }
      assert [c] + s[1..] == s;
    }
  }

  /** A percent sign without its two digits is not taken as it is. */
  lemma MalformedExample()
    ensures Decode("a%4") == Malformed && Decode("a%zz") == Malformed
  {
    assert "a%4"[1] == '%' && "a%zz"[1] == '%' && !IsHex("a%zz"[2]);
    DecodeWellFormed("a%4");
    DecodeWellFormed("a%zz");
  }

  /** `done` is what the first p characters decode to. */
  ghost predicate Progress(text: seq<char>, p: nat, done: seq<char>)
    requires p <= |text|
  {
    Decode(text) == Decode(text[p..]).Prepend(done)
  }

  lemma PrependTwice(d: Decoded, outer: seq<char>, inner: seq<char>)
    ensures d.Prepend(inner).Prepend(outer) == d.Prepend(outer + inner)
  {
    if d.Text? { assert outer + (inner + d.text) == outer + inner + d.text; }
  }

  lemma Step(text: seq<char>, p: nat, done: seq<char>)
    requires p < |text| && Progress(text, p, done)
    ensures text[p] != '%' ==> Progress(text, p + 1, done + [text[p]])
    ensures text[p] == '%' && EscapeAt(text, p) ==>
      Progress(text, p + 3, done + [(HexValue(text[p + 1]) * 16 + HexValue(text[p + 2])) as char])
    ensures text[p] == '%' && !EscapeAt(text, p) ==> Decode(text) == Malformed
  {
    var rest := text[p..];
    assert EscapeAt(rest, 0) <==> EscapeAt(text, p);
    if text[p] != '%' {
      assert rest[1..] == text[p + 1..];
      assert Decode(rest) == Decode(text[p + 1..]).Prepend([text[p]]);
      hide Decode;
      PrependTwice(Decode(text[p + 1..]), done, [text[p]]);
    } else if EscapeAt(text, p) {
      assert rest[3..] == text[p + 3..];
      var c := (HexValue(text[p + 1]) * 16 + HexValue(text[p + 2])) as char;
      assert Decode(rest) == Decode(text[p + 3..]).Prepend([c]);
      hide Decode;
      PrependTwice(Decode(text[p + 3..]), done, [c]);
    }
  }

  /** urldecode: rewrite the buffer through two indices, the write index never ahead of the read index. */
  method UrlDecodeInPlace(buf: array<char>) returns (len: int)
    requires '\0' in buf[..]
    modifies buf
    ensures var text := TextOf(old(buf[..]));
      match Decode(text)
      case Text(d) => len == |d| <= |text| && buf[..] == d + ['\0'] + old(buf[..])[len + 1..]
      case Malformed => len == -1
    ensures len == -1 <==> !WellFormed(TextOf(old(buf[..])))
  {
    hide Decode, TextOf, WellFormed, Progress;
    ghost var before := buf[..];
    ghost var text := TextOf(before);
    TextOfHasEnd(before);
    DecodeWellFormed(text);
    ghost var done: seq<char> := [];
    Start(text);
    var p, out := 0, 0;
    while buf[p] != '\0'
      invariant 0 <= out <= p <= |text| < buf.Length
      invariant forall k :: out <= k < buf.Length ==> buf[k] == before[k]
      invariant buf[..out] == done && Progress(text, p, done)
      decreases |text| - p
    {
      assert p < |text| && text[p] == buf[p];
      Step(text, p, done);
      if buf[p] != '%' {
        done := done + [buf[p]];
        buf[out] := buf[p];
        out, p := out + 1, p + 1;
      } else if IsHex(buf[p + 1]) && IsHex(buf[p + 2]) {
        // The buffer still ends in a NUL that is not a digit, so neither read goes past it.
        assert EscapeAt(text, p) && text[p + 1] == buf[p + 1] && text[p + 2] == buf[p + 2];
        var c := (HexValue(buf[p + 1]) * 16 + HexValue(buf[p + 2])) as char;
        done := done + [c];
        buf[out] := c;
        out, p := out + 1, p + 3;
      } else {
        assert !EscapeAt(text, p);
        return -1;
      }
    }
    End(text, p, done);
    buf[out] := '\0';
    assert buf[..out] == done && buf[out + 1..] == before[out + 1..];
    assert buf[..] == buf[..out] + [buf[out]] + buf[out + 1..];
    assert buf[..] == done + ['\0'] + before[out + 1..];
    return out;
  }

  lemma Start(text: seq<char>)
    ensures Progress(text, 0, [])
  {
    assert text[0..] == text;
    if Decode(text).Text? { assert [] + Decode(text).text == Decode(text).text; }
  }

  lemma End(text: seq<char>, p: nat, done: seq<char>)
    requires p == |text| && Progress(text, p, done)
    ensures Decode(text) == Text(done)
  {
    assert text[p..] == [] && done + [] == done;
  }
}
