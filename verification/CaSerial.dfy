// Serial numbers as integers, as the text BN_bn2hex prints, and as keys of the serial index, which
// ignores leading zeros but compares what is left character by character.

module CaSerial {

  import opened Chars

  predicate AllHex(s: seq<char>)
  {
    forall k :: 0 <= k < |s| ==> IsHex(s[k])
  }

  predicate AllUpper(s: seq<char>)
  {
    forall k :: 0 <= k < |s| ==> IsUpperHex(s[k])
  }

  /** The value of hexadecimal digits in either case. */
  function Value(s: seq<char>): nat
    requires AllHex(s)
  {
    if s == [] then 0
    else
      assert IsHex(s[|s| - 1]);
      Value(s[..|s| - 1]) * 16 + HexValue(s[|s| - 1])
  }

  /** BN_bn2hex of a positive number: whole bytes, upper case. */
  function ByteText(n: nat): (s: seq<char>)
    ensures |s| >= 2 && |s| % 2 == 0 && AllUpper(s)
  {
    (if n < 256 then [] else ByteText(n / 256)) + [HexDigit(n / 16 % 16), HexDigit(n % 16)]
  }

  /** The serial field of a certificate: zero is written as two digits. */
  function SerialText(n: int): (s: seq<char>)
  {
    if n == 0 then "00" else if n < 0 then ['-'] + ByteText(-n) else ByteText(n)
  }

  /** BN_hex2bn of a serial field. */
  function Hex2Bn(s: seq<char>): int
    requires SerialFormat(s)
  {
    if s[0] == '-' then 0 - Value(s[1..]) else Value(s)
  }

  /** What the load check accepts: an optional sign and a positive even number of hexadecimal digits. */
  predicate SerialFormat(s: seq<char>)
  {
    var p := if s != [] && s[0] == '-' then s[1..] else s;
    |p| % 2 == 0 && |p| >= 2 && AllHex(p)
  }

  /** The serial part of the load check. */
  method CheckSerial(s: seq<char>) returns (ok: bool)
    ensures ok <==> SerialFormat(s)
  {
    var p, j := 0, |s|;
    if s != [] && s[0] == '-' {
      p, j := p + 1, j - 1;
    }
    if j % 2 == 1 || j < 2 { return false; }
    ghost var digits := s[p..];
    while p < |s|
      invariant |s| - j <= p <= |s|
      invariant forall k :: 0 <= k < p - (|s| - j) ==> IsHex(digits[k])
    {
      if !IsHex(s[p]) {
        assert digits[p - (|s| - j)] == s[p];
        return false;
      }
      p := p + 1;
    }
    return true;
  }

  /** The key under which a serial is found: leading zeros do not count. */
  function Key(s: seq<char>): seq<char>
  {
    if s != [] && s[0] == '0' then Key(s[1..]) else s
  }

  // ---- keys and values ----

  /** The digits of a number without leading zeros. */
  function Digits(n: nat): (s: seq<char>)
    ensures AllUpper(s) && (n > 0 ==> s != [] && s[0] != '0')
  {
    if n == 0 then [] else Digits(n / 16) + [HexDigit(n % 16)]
  }

  lemma {:induction false} KeyAppend(front: seq<char>, c: char)
    ensures Key(front + [c]) == if Key(front) == [] then Key([c]) else Key(front) + [c]
  {
    if front == [] {
      assert front + [c] == [c];
    } else if front[0] == '0' {
      KeyAppend(front[1..], c);
      assert (front + [c])[1..] == front[1..] + [c];
    }
  }

  lemma DigitIsZero(c: char)
    requires IsUpperHex(c)
    ensures HexDigit(HexValue(c)) == c && (HexValue(c) == 0 <==> c == '0')
  {}

  /** For upper-case digits the key is the number. */
  lemma {:induction false} KeyIsDigits(s: seq<char>)
    requires AllUpper(s)
    ensures AllHex(s) && Key(s) == Digits(Value(s))
  {
    if s != [] {
      var front, c := s[..|s| - 1], s[|s| - 1];
      KeyIsDigits(front);
      assert s == front + [c];
      KeyAppend(front, c);
      DigitIsZero(c);
      assert Value(s) == Value(front) * 16 + HexValue(c);
      assert Key([c]) == if c == '0' then [] else [c];
      assert Value(s) / 16 == Value(front) && Value(s) % 16 == HexValue(c);
    }
  }

  lemma {:induction false} ValueAppend(front: seq<char>, hi: char, lo: char)
    requires AllHex(front) && IsHex(hi) && IsHex(lo)
    ensures AllHex(front + [hi, lo])
    ensures Value(front + [hi, lo]) == Value(front) * 256 + HexValue(hi) * 16 + HexValue(lo)
  {
    var s := front + [hi, lo];
    assert s[..|s| - 1] == front + [hi];
    assert (front + [hi])[..|front|] == front;
  }

  lemma ByteSplit(n: nat)
    ensures n == n / 256 * 256 + n / 16 % 16 * 16 + n % 16
  {
    var m := n / 16;
    assert n / 256 == m / 16;
  }

  lemma ByteJoin(v: nat, hi: nat, lo: nat)
    requires hi < 16 && lo < 16
    ensures var n := v * 256 + hi * 16 + lo; n / 256 == v && n / 16 % 16 == hi && n % 16 == lo
  {
    var n := v * 256 + hi * 16 + lo;
    assert n / 16 == v * 16 + hi;
  }

  lemma {:induction false} ByteTextValue(n: nat)
    ensures AllHex(ByteText(n)) && Value(ByteText(n)) == n
  {
    var front := if n < 256 then [] else ByteText(n / 256);
    if n >= 256 { ByteTextValue(n / 256); }
    ValueAppend(front, HexDigit(n / 16 % 16), HexDigit(n % 16));
    ByteSplit(n);
    hide Value;
    assert Value([]) == 0 by { EmptyValue(); }
    assert ByteText(n) == front + [HexDigit(n / 16 % 16), HexDigit(n % 16)];
  }

  lemma EmptyValue()
    ensures Value([]) == 0
  {}

  /** The text of a serial is well formed, and reads back as the serial. */
  lemma SerialTextReads(n: int)
    ensures SerialFormat(SerialText(n)) && Hex2Bn(SerialText(n)) == n
  {
    if n == 0 {
      assert "00"[..1] == "0" && "0"[..0] == "";
    } else {
      var p := ByteText(if n < 0 then -n else n);
      ByteTextValue(if n < 0 then -n else n);
      assert IsUpperHex(p[0]);
      if n < 0 { assert SerialText(n)[1..] == p; }
    }
  }

  /** Whole bytes in upper case, with a sign before them, and two digits for zero. */
  lemma SerialTextExamples()
    ensures SerialText(0) == "00" && SerialText(10) == "0A" && SerialText(255) == "FF" && SerialText(256) == "0100"
    ensures SerialText(-1) == "-01"
  {
    assert ByteText(1) == "01";
    assert ByteText(256) == ByteText(1) + "00";
  }

  lemma KeyOfSerialText(n: nat)
    ensures Key(SerialText(n)) == Digits(n)
  {
    if n == 0 {
      assert Key("00") == Key("00"[1..]) == Key("0") == Key("0"[1..]) == "";
    } else {
      ByteTextValue(n);
      KeyIsDigits(ByteText(n));
    }
  }

  lemma {:induction false} DigitsInjective(m: nat, n: nat)
    requires Digits(m) == Digits(n)
    ensures m == n
  {
    if m > 0 && n > 0 {
      var a, b := Digits(m), Digits(n);
      assert a[..|a| - 1] == Digits(m / 16) && b[..|b| - 1] == Digits(n / 16);
      assert HexValue(a[|a| - 1]) == m % 16 && HexValue(b[|b| - 1]) == n % 16;
      DigitsInjective(m / 16, n / 16);
    }
  }

  /** Different serials have different keys. */
  lemma SerialKeysDiffer(m: int, n: int)
    requires Key(SerialText(m)) == Key(SerialText(n))
    ensures m == n
  {
    SerialTextReads(m);
    SerialTextReads(n);
    if m >= 0 && n >= 0 {
      KeyOfSerialText(m);
      KeyOfSerialText(n);
      DigitsInjective(m, n);
    } else {
      NegativeKey(m);
      NegativeKey(n);
    }
  }

  lemma NegativeKey(n: int)
    ensures if n < 0 then Key(SerialText(n)) == SerialText(n) && SerialText(n)[0] == '-'
            else Key(SerialText(n)) == [] || Key(SerialText(n))[0] != '-'
  {
    if n >= 0 {
      KeyOfSerialText(n);
    }
  }

  // ---- which serial fields are found under the number they stand for ----

  /** No lower-case digit, and no leading zero byte after a sign. */
  predicate Canonical(s: seq<char>)
    requires SerialFormat(s)
  {
    if s[0] == '-' then AllUpper(s[1..]) && !(s[1] == '0' && s[2] == '0') else AllUpper(s)
  }

  lemma {:induction false} KeyKeepsLower(s: seq<char>)
    requires AllHex(s) && AllUpper(Key(s))
    ensures AllUpper(s)
  {
    if s != [] && s[0] == '0' {
      KeyKeepsLower(s[1..]);
      assert forall k :: 1 <= k < |s| ==> s[k] == s[1..][k - 1];
    }
  }

  lemma ByteTextUnfold(n: nat)
    ensures ByteText(n) == (if n < 256 then [] else ByteText(n / 256)) + [HexDigit(n / 16 % 16), HexDigit(n % 16)]
  {}

  lemma {:induction false} ByteTextOfValue(p: seq<char>)
    requires AllUpper(p) && |p| % 2 == 0 && |p| >= 2
    ensures AllHex(p)
    ensures !(p[0] == '0' && p[1] == '0') ==> Value(p) > 0 && ByteText(Value(p)) == p
    decreases |p|
  {
    hide Value, ByteText;
    var front, hi, lo := p[..|p| - 2], p[|p| - 2], p[|p| - 1];
    assert p == front + [hi, lo];
    ValueAppend(front, hi, lo);
    DigitIsZero(hi);
    DigitIsZero(lo);
    ByteJoin(Value(front), HexValue(hi), HexValue(lo));
    ByteTextUnfold(Value(p));
    if |p| == 2 {
      EmptyValue();
      assert front == [];
    } else {
      ByteTextOfValue(front);
      assert front[0] == p[0] && front[1] == p[1];
    }
  }

  lemma {:induction false} ByteTextStart(n: nat)
    requires n > 0
    ensures !(ByteText(n)[0] == '0' && ByteText(n)[1] == '0')
  {
    if n >= 256 {
      ByteTextStart(n / 256);
    } else {
      DigitIsZero(ByteText(n)[0]);
      DigitIsZero(ByteText(n)[1]);
    }
  }

  lemma SerialTextSign(n: nat)
    ensures n > 0 ==> SerialText(0 - n) == ['-'] + ByteText(n)
    ensures n == 0 ==> SerialText(0 - n) == "00"
  {}

  lemma NegativeFound(p: seq<char>)
    requires AllHex(p) && |p| % 2 == 0 && |p| >= 2
    ensures SerialText(0 - Value(p)) == ['-'] + p <==> AllUpper(p) && !(p[0] == '0' && p[1] == '0')
  {
    hide Value, ByteText, SerialText;
    var n: int := Value(p);
    SerialTextSign(n);
    if AllUpper(p) { ByteTextOfValue(p); }
    if n == 0 {
      assert "00"[0] != (['-'] + p)[0];
    } else if SerialText(0 - n) == ['-'] + p {
      assert (['-'] + ByteText(n))[1..] == ByteText(n) && (['-'] + p)[1..] == p;
      ByteTextStart(n);
    }
  }

  /** A serial field is found by looking up the number it stands for exactly when it is canonical. */
  lemma FoundByValue(s: seq<char>)
    requires SerialFormat(s)
    ensures Key(SerialText(Hex2Bn(s))) == Key(s) <==> Canonical(s)
  {
    hide Value, Digits;
    var n := Hex2Bn(s);
    if s[0] == '-' {
      NegativeFound(s[1..]);
      NegativeKey(n);
      assert ['-'] + s[1..] == s;
      hide SerialText;
    } else {
      KeyOfSerialText(n);
      if Canonical(s) {
        KeyIsDigits(s);
      }
      if Key(SerialText(n)) == Key(s) {
        KeyKeepsLower(s);
      }
    }
  }

  lemma {:induction false} KeyIsSuffix(s: seq<char>)
    requires AllHex(s)
    ensures AllHex(Key(s))
  {
    if s != [] && s[0] == '0' { KeyIsSuffix(s[1..]); }
  }

  /** A field found under a number stands for that number. */
  lemma KeyDeterminesValue(s: seq<char>, n: int)
    requires SerialFormat(s) && Key(s) == Key(SerialText(n))
    ensures Hex2Bn(s) == n && Canonical(s)
  {
    NegativeKey(n);
    if s[0] == '-' {
      assert Key(s) == s;
      SerialTextReads(n);
    } else {
      KeyIsSuffix(s);
      hide Value, SerialText;
      assert n >= 0 by { assert Key(s) != [] ==> IsHex(Key(s)[0]); }
      KeyOfSerialText(n);
      KeyKeepsLower(s);
      KeyIsDigits(s);
      DigitsInjective(Value(s), n);
    }
    FoundByValue(s);
  }

  /** A well-formed field in lower case that is listed under 10 but not found under 10. */
  lemma LowerCaseExample()
    ensures SerialFormat("0a") && Hex2Bn("0a") == 10 && Key(SerialText(10)) != Key("0a")
  {
    assert "0a"[..1] == "0" && "0"[..0] == "";
    FoundByValue("0a");
    assert !IsUpperHex("0a"[1]);
  }
}
