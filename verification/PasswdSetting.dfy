// The salt argument of the SHA passwd algorithms: an optional "rounds=<N>$" and the salt proper,
// read with strtoul, clamped, and printed back into the output.

module PasswdSetting {
  import opened CString
  import opened Chars

  const ROUNDS_PREFIX: string := "rounds="
  const ROUNDS_DEFAULT := 5000
  const ROUNDS_MIN := 1000
  const ROUNDS_MAX := 999999999
  const SALT_LEN_MAX := 16

  predicate IsSpace(c: char) {
    c == ' ' || '\t' <= c <= '\r'
  }

  function DigitChar(v: int): (c: char)
    requires 0 <= v < 10
    ensures IsDigit(c) && c as int - '0' as int == v
  {
    ('0' as int + v) as char
  }

  /** printf's %u. */
  function ToDec(n: nat): (s: seq<char>)
    ensures |s| > 0 && forall k :: 0 <= k < |s| ==> IsDigit(s[k])
  {
    if n < 10 then [DigitChar(n)] else ToDec(n / 10) + [DigitChar(n % 10)]
  }

  function DecValue(s: seq<char>): nat
    requires forall k :: 0 <= k < |s| ==> IsDigit(s[k])
  {
    if s == [] then 0 else assert IsDigit(s[|s| - 1]); DecValue(s[..|s| - 1]) * 10 + (s[|s| - 1] as int - '0' as int)
  }

  function CountDigits(s: seq<char>): (n: nat)
    ensures n <= |s| && (forall k :: 0 <= k < n ==> IsDigit(s[k])) && (n < |s| ==> !IsDigit(s[n]))
  {
    if s == [] || !IsDigit(s[0]) then 0 else 1 + CountDigits(s[1..])
  }

  function CountSpaces(s: seq<char>): (n: nat)
    ensures n <= |s|
  {
    if s == [] || !IsSpace(s[0]) then 0 else 1 + CountSpaces(s[1..])
  }

  /** strtoul in base ten: the value, and where the end pointer is left. */
  function Strtoul(s: seq<char>): (r: (nat, nat))
    ensures r.0 <= ULONG_MAX && r.1 <= |s|
  {
    var sp := CountSpaces(s);
    var signed := sp < |s| && (s[sp] == '-' || s[sp] == '+');
    var from := if signed then sp + 1 else sp;
    var n := CountDigits(s[from..]);
    if n == 0 then (0, 0)
    else
      var v := DecValue(s[from..from + n]);
      (if v > ULONG_MAX then ULONG_MAX else if signed && s[sp] == '-' && v > 0 then ULONG_MAX + 1 - v else v, from + n)
  }

  function Clamp(n: nat): (rounds: nat)
    ensures ROUNDS_MIN <= rounds <= ROUNDS_MAX
  {
    if n > ROUNDS_MAX then ROUNDS_MAX else if n < ROUNDS_MIN then ROUNDS_MIN else n
  }

  datatype Setting = Bad | Setting(custom: bool, rounds: nat, salt: seq<char>)

  function ParseSetting(salt: seq<char>): (r: Setting)
    ensures r.Setting? ==> ROUNDS_MIN <= r.rounds <= ROUNDS_MAX && (IsText(salt) ==> IsText(r.salt))
  {
    if ROUNDS_PREFIX <= salt then
      var num := salt[|ROUNDS_PREFIX|..];
      var (value, end) := Strtoul(num);
      if end < |num| && num[end] == '$' then Setting(true, Clamp(value), num[end + 1..]) else Bad
    else Setting(false, ROUNDS_DEFAULT, salt)
  }

  /** What the output says about the setting: the clamped rounds if they were given, and the truncated salt. */
  function PrintSetting(setting: Setting): seq<char>
    requires setting.Setting?
  {
    (if setting.custom then ROUNDS_PREFIX + ToDec(setting.rounds) + ['$'] else [])
    + Truncate(setting.salt, SALT_LEN_MAX)
  }

  // ---- printing and reading back ----

  lemma {:induction false} DecValueToDec(n: nat)
    ensures DecValue(ToDec(n)) == n
  {
    if n < 10 {
      assert [DigitChar(n)][..0] == [];
    } else {
      DecValueToDec(n / 10);
      assert ToDec(n)[..|ToDec(n)| - 1] == ToDec(n / 10);
    }
  }

  function Pow10(k: nat): nat
  {
    if k == 0 then 1 else 10 * Pow10(k - 1)
  }

  lemma {:induction false} DecLength(n: nat, k: nat)
    requires k > 0 && n < Pow10(k)
    ensures |ToDec(n)| <= k
  {
    if n >= 10 {
      assert k > 1 by { assert Pow10(1) == 10 * Pow10(0); }
      DecLength(n / 10, k - 1);
    }
  }

  lemma {:induction false} CountDigitsOf(a: seq<char>, b: seq<char>)
    requires forall k :: 0 <= k < |a| ==> IsDigit(a[k])
    requires b != [] && !IsDigit(b[0])
    ensures CountDigits(a + b) == |a|
  {
    if a == [] {
      assert a + b == b;
    } else {
      CountDigitsOf(a[1..], b);
      assert (a + b)[1..] == a[1..] + b;
    }
  }

  lemma StrtoulToDec(n: nat, rest: seq<char>)
    ensures Strtoul(ToDec(n) + ['$'] + rest) == (if n > ULONG_MAX then ULONG_MAX else n, |ToDec(n)|)
  {
    var s := ToDec(n) + ['$'] + rest;
    assert s == ToDec(n) + (['$'] + rest);
    assert IsDigit(s[0]) by { assert s[0] == ToDec(n)[0]; }
    assert CountSpaces(s) == 0;
    CountDigitsOf(ToDec(n), ['$'] + rest);
    assert s[0..] == s && s[0..|ToDec(n)|] == ToDec(n);
    DecValueToDec(n);
  }

  lemma ParseCustom(rounds: nat, t: seq<char>)
    requires ROUNDS_MIN <= rounds <= ROUNDS_MAX
    ensures ParseSetting(ROUNDS_PREFIX + (ToDec(rounds) + ['$'] + t)) == Setting(true, rounds, t)
  {
    StrtoulToDec(rounds, t);
    hide Strtoul, ToDec;
    var num := ToDec(rounds) + ['$'] + t;
    var n := |ToDec(rounds)|;
    assert (ROUNDS_PREFIX + num)[|ROUNDS_PREFIX|..] == num;
    assert num[n] == '$' && num[n + 1..] == t;
  }

  /** strtoul skips blanks, and a minus sign subtracts from the next power of two. */
  lemma StrtoulSigns(n: nat, rest: seq<char>)
    ensures Strtoul([' '] + ToDec(n) + ['$'] + rest) == (if n > ULONG_MAX then ULONG_MAX else n, |ToDec(n)| + 1)
    ensures Strtoul(['-'] + ToDec(n) + ['$'] + rest) ==
      (if n > ULONG_MAX then ULONG_MAX else if n > 0 then ULONG_MAX + 1 - n else 0, |ToDec(n)| + 1)
  {
    var s, k := ToDec(n) + ['$'] + rest, |ToDec(n)|;
    StrtoulDigits(n, rest);
    hide ToDec, CountDigits, DecValue, CountSpaces;
    forall c: char | c == ' ' || c == '-' ensures
      var u := [c] + ToDec(n) + ['$'] + rest;
      u == [c] + s && u[0] == c && u[1..] == s && u[1..1 + k] == ToDec(n) && IsDigit(u[1]) &&
      CountSpaces(u) == if IsSpace(c) then 1 else 0
    {
      Prefixed(c, s);
      assert [c] + ToDec(n) + ['$'] + rest == [c] + s;
      assert ([c] + s)[1..1 + k] == s[..k];
    }
  }

  lemma Prefixed(c: char, s: seq<char>)
    requires s != [] && IsDigit(s[0])
    ensures ([c] + s)[0] == c && ([c] + s)[1..] == s
    ensures CountSpaces([c] + s) == if IsSpace(c) then 1 else 0
  {
    assert ([c] + s)[1..] == s;
    assert CountSpaces(s) == 0;
  }

  lemma StrtoulDigits(n: nat, rest: seq<char>)
    ensures var s := ToDec(n) + ['$'] + rest;
      IsDigit(s[0]) && CountDigits(s) == |ToDec(n)| && s[..|ToDec(n)|] == ToDec(n) && DecValue(ToDec(n)) == n
  {
    var s := ToDec(n) + ['$'] + rest;
    assert s == ToDec(n) + (['$'] + rest) && s[0] == ToDec(n)[0];
    CountDigitsOf(ToDec(n), ['$'] + rest);
    DecValueToDec(n);
  }

  lemma SettingParts(n: nat, t: seq<char>)
    ensures ParseSetting("rounds=" + (ToDec(n) + ['$'] + t)) == Setting(true, Clamp(if n > ULONG_MAX then ULONG_MAX else n), t)
  {
    StrtoulToDec(n, t);
    hide Strtoul, ToDec, Clamp;
    var num, k := ToDec(n) + ['$'] + t, |ToDec(n)|;
    assert ("rounds=" + num)[7..] == num;
    assert num[k] == '$' && num[k + 1..] == t;
  }

  /** The setting that a salt argument stands for, spelled out. */
  lemma SettingIs(n: nat, t: seq<char>)
    ensures !("rounds=" <= t) ==> ParseSetting(t) == Setting(false, 5000, t)
    ensures n < 1000 ==> ParseSetting("rounds=" + (ToDec(n) + ['$'] + t)) == Setting(true, 1000, t)
    ensures 1000 <= n <= 999999999 ==> ParseSetting("rounds=" + (ToDec(n) + ['$'] + t)) == Setting(true, n, t)
    ensures n > 999999999 ==> ParseSetting("rounds=" + (ToDec(n) + ['$'] + t)) == Setting(true, 999999999, t)
    ensures ParseSetting("rounds=" + t).Setting? ==> '$' in t
  {
    SettingParts(n, t);
    NeedsDollar(t);
    hide ToDec, Strtoul;
  }

  lemma NeedsDollar(t: seq<char>)
    ensures ParseSetting("rounds=" + t).Setting? ==> '$' in t
  {
    hide Strtoul;
    assert ("rounds=" + t)[7..] == t;
  }

  /** Reading back what was printed gives the same rounds and the same salt. */
  lemma ReparseSetting(salt: seq<char>)
    requires ParseSetting(salt).Setting?
    ensures var setting := ParseSetting(salt);
      ParseSetting(PrintSetting(setting)) ==
        Setting(setting.custom, setting.rounds, Truncate(setting.salt, SALT_LEN_MAX))
  {
    hide Strtoul, ToDec;
    var setting := ParseSetting(salt);
    var t := Truncate(setting.salt, SALT_LEN_MAX);
    if setting.custom {
      ParseCustom(setting.rounds, t);
      assert PrintSetting(setting) == ROUNDS_PREFIX + (ToDec(setting.rounds) + ['$'] + t);
    } else {
      assert PrintSetting(setting) == t;
      PlainSetting(salt, t);
    }
  }

  /** A salt without the prefix has none when it is cut short. */
  lemma PlainSetting(salt: seq<char>, t: seq<char>)
    requires ParseSetting(salt).Setting? && !ParseSetting(salt).custom && t <= salt
    ensures ParseSetting(t) == Setting(false, ParseSetting(salt).rounds, t)
  {
    hide Strtoul;
    assert ROUNDS_PREFIX <= t ==> ROUNDS_PREFIX <= salt;
  }

  /** The printed setting needs at most 17 characters for the rounds and 16 for the salt. */
  lemma PrintedLength(setting: Setting)
    requires setting.Setting? && setting.rounds <= ROUNDS_MAX
    ensures |PrintSetting(setting)| <= (if setting.custom then 17 else 0) + |Truncate(setting.salt, SALT_LEN_MAX)|
  {
    assert Pow10(9) == 1000000000 by {
      assert Pow10(3) == 10 * Pow10(2) == 100 * Pow10(1) == 1000 * Pow10(0);
      assert Pow10(6) == 10 * Pow10(5) == 100 * Pow10(4) == 1000 * Pow10(3);
      assert Pow10(9) == 10 * Pow10(8) == 100 * Pow10(7) == 1000 * Pow10(6);
    }
    DecLength(setting.rounds, 9);
  }
}
