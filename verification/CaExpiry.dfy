// The date comparison of the expiry pass: two-digit years, a century flag, and strcmp.

module CaExpiry {
  import opened Chars

  /** strcmp(a, b) <= 0. */
  predicate StrLe(a: seq<char>, b: seq<char>)
  {
    a == [] || (b != [] && (a[0] < b[0] || (a[0] == b[0] && StrLe(a[1..], b[1..]))))
  }

  /** strncmp(a, b, 2) <= 0 */
  predicate StrLe2(a: seq<char>, b: seq<char>)
  {
    StrLe(if |a| > 2 then a[..2] else a, if |b| > 2 then b[..2] else b)
  }

  /** The test of do_updatedb on a valid row: the date has passed. */
  predicate MarkedExpired(expDate: seq<char>, now: seq<char>)
  {
    var dbY2k := StrLe2(expDate, "49");
    var nowY2k := StrLe2(now, "49");
    if dbY2k == nowY2k then StrLe(expDate, now)
    else !dbY2k && nowY2k
  }

  // ---- what the dates mean ----

  function Two(s: seq<char>, k: nat): (v: int)
    requires k + 2 <= |s| && IsDigit(s[k]) && IsDigit(s[k + 1])
    ensures 0 <= v < 100
  {
    (s[k] as int - '0' as int) * 10 + (s[k + 1] as int - '0' as int)
  }

  /** YYMMDDHHMMSSZ. */
  predicate IsUtcTime(s: seq<char>)
  {
    |s| == 13 && s[12] == 'Z' && forall k :: 0 <= k < 12 ==> IsDigit(s[k])
  }

  /** YYYYMMDDHHMMSSZ. */
  predicate IsGeneralizedTime(s: seq<char>)
  {
    |s| == 15 && s[14] == 'Z' && forall k :: 0 <= k < 14 ==> IsDigit(s[k])
  }

  datatype Instant = Instant(year: int, month: int, day: int, hour: int, minute: int, second: int)

  /** The window of section 4.1.2.5.1 of RFC 5280: 50 to 99 are in the twentieth century. */
  function UtcInstant(s: seq<char>): Instant
    requires IsUtcTime(s)
  {
    var yy := Two(s, 0);
    Instant(if yy >= 50 then 1900 + yy else 2000 + yy, Two(s, 2), Two(s, 4), Two(s, 6), Two(s, 8), Two(s, 10))
  }

  function GeneralizedInstant(s: seq<char>): Instant
    requires IsGeneralizedTime(s)
  {
    Instant(Two(s, 0) * 100 + Two(s, 2), Two(s, 4), Two(s, 6), Two(s, 8), Two(s, 10), Two(s, 12))
  }

  /** Not later than. */
  predicate NotAfter(a: Instant, b: Instant)
  {
    a.year < b.year || (a.year == b.year &&
    (a.month < b.month || (a.month == b.month &&
    (a.day < b.day || (a.day == b.day &&
    (a.hour < b.hour || (a.hour == b.hour &&
    (a.minute < b.minute || (a.minute == b.minute && a.second <= b.second)))))))))
  }

  /** Comparing two digits as characters is comparing the number they stand for. */
  lemma PairStep(a: seq<char>, b: seq<char>, k: nat)
    requires k + 2 <= |a| && k + 2 <= |b|
    requires IsDigit(a[k]) && IsDigit(a[k + 1]) && IsDigit(b[k]) && IsDigit(b[k + 1])
    ensures StrLe(a[k..], b[k..]) <==>
            Two(a, k) < Two(b, k) || (Two(a, k) == Two(b, k) && StrLe(a[k + 2..], b[k + 2..]))
  {
    assert a[k..][1..] == a[k + 1..] && b[k..][1..] == b[k + 1..];
    assert a[k + 1..][1..] == a[k + 2..] && b[k + 1..][1..] == b[k + 2..];
  }

  lemma CenturyFlag(s: seq<char>)
    requires |s| >= 2 && IsDigit(s[0]) && IsDigit(s[1])
    ensures StrLe2(s, "49") <==> Two(s, 0) <= 49
  {
    var a, b := s[..2], "49";
    PairStep(a, b, 0);
    assert a[0..] == a && b[0..] == b && a[2..] == [] == b[2..];
    assert |s| == 2 ==> s == a;
  }

  /** For UTCTIME dates the flag and the string order together are the chronological order. */
  lemma ExpiryIsChronological(expDate: seq<char>, now: seq<char>)
    requires IsUtcTime(expDate) && IsUtcTime(now)
    ensures MarkedExpired(expDate, now) <==> NotAfter(UtcInstant(expDate), UtcInstant(now))
  {
    CenturyFlag(expDate);
    CenturyFlag(now);
    StringOrder(expDate, now);
  }

  lemma StringOrder(a: seq<char>, b: seq<char>)
    requires IsUtcTime(a) && IsUtcTime(b)
    ensures StrLe(a, b) <==>
      Two(a, 0) < Two(b, 0) || (Two(a, 0) == Two(b, 0) &&
      (Two(a, 2) < Two(b, 2) || (Two(a, 2) == Two(b, 2) &&
      (Two(a, 4) < Two(b, 4) || (Two(a, 4) == Two(b, 4) &&
      (Two(a, 6) < Two(b, 6) || (Two(a, 6) == Two(b, 6) &&
      (Two(a, 8) < Two(b, 8) || (Two(a, 8) == Two(b, 8) && Two(a, 10) <= Two(b, 10))))))))))
  {
    hide StrLe;
    PairStep(a, b, 0);
    PairStep(a, b, 2);
    PairStep(a, b, 4);
    PairStep(a, b, 6);
    PairStep(a, b, 8);
    PairStep(a, b, 10);
    assert a[0..] == a && b[0..] == b;
    assert a[12..] == ['Z'] == b[12..];
    StrLeSelf(['Z']);
  }

  lemma {:induction false} StrLeSelf(s: seq<char>)
    ensures StrLe(s, s)
  {
    if s != [] { StrLeSelf(s[1..]); }
  }

  // ---- GeneralizedTime dates ----

  /** What the pass takes a GeneralizedTime for: its first twelve digits, read as a UTCTIME. */
  function Misread(expDate: seq<char>): (utc: seq<char>)
    requires IsGeneralizedTime(expDate)
    ensures IsUtcTime(utc)
  {
    expDate[..12] + ['Z']
  }

  /** For every GeneralizedTime the pass marks by the misread date. */
  lemma MarkedByMisread(expDate: seq<char>, now: seq<char>)
    requires IsGeneralizedTime(expDate) && IsUtcTime(now)
    ensures MarkedExpired(expDate, now) <==> NotAfter(UtcInstant(Misread(expDate)), UtcInstant(now))
  {
    var utc := Misread(expDate);
    ExpiryIsChronological(utc, now);
    CenturyFlag(expDate);
    CenturyFlag(utc);
    StrLePrefix(expDate, utc, now, 12);
    assert utc[..12] == expDate[..12];
  }

  /** Below n characters only the first difference counts; a digit is below the Z that ends a UTCTIME. */
  lemma {:induction false} StrLePrefix(a: seq<char>, b: seq<char>, c: seq<char>, n: nat)
    requires n < |a| && n < |b| && n + 1 == |c| && a[..n] == b[..n]
    requires IsDigit(a[n]) && b[n..] == ['Z'] == c[n..]
    ensures StrLe(a, c) <==> StrLe(b, c)
  {
    if n == 0 {
      assert b == ['Z'] == c;
      StrLeSelf(b);
    } else {
      assert a[0] == a[..n][0] == b[..n][0] == b[0];
      assert a[1..][..n - 1] == a[..n][1..] && b[1..][..n - 1] == b[..n][1..];
      StrLePrefix(a[1..], b[1..], c[1..], n - 1);
    }
  }

  /** The time lies between the two instants, whichever is first: after exactly one of them has passed. */
  predicate Between(a: Instant, t: Instant, b: Instant)
  {
    (NotAfter(a, t) && !NotAfter(b, t)) || (NotAfter(b, t) && !NotAfter(a, t))
  }

  /**
   * For every GeneralizedTime and every current time: the pass is right exactly when the current time is not
   * between the date and its misreading. So from 2050 on it is right exactly before the misread date, and
   * for dates before 1950 exactly from the misread date on.
   */
  lemma GeneralizedTimeRightIff(expDate: seq<char>, now: seq<char>)
    requires IsGeneralizedTime(expDate) && IsUtcTime(now)
    ensures var date, misread, t := GeneralizedInstant(expDate), UtcInstant(Misread(expDate)), UtcInstant(now);
      var right := MarkedExpired(expDate, now) <==> NotAfter(date, t);
      (right <==> !Between(misread, t, date)) &&
      (date.year >= 2050 ==> (right <==> !NotAfter(misread, t))) &&
      (date.year < 1950 ==> (right <==> NotAfter(misread, t)))
  {
    MarkedByMisread(expDate, now);
  }

  /** The misread year comes from the century alone, and the misread month is the year within the century. */
  lemma MisreadParts(expDate: seq<char>)
    requires IsGeneralizedTime(expDate)
    ensures var date, misread := GeneralizedInstant(expDate), UtcInstant(Misread(expDate));
      misread.year == (if date.year / 100 >= 50 then 1900 else 2000) + date.year / 100 &&
      misread.month == date.year % 100 && misread.day == date.month
  {}

  /**
   * Between the months of real dates the misread month tells the years apart: the date counts as passed from
   * the misread year on if the century has just begun, and from the year after it if the year within the
   * century is no month.
   */
  lemma MarkedFromYear(expDate: seq<char>, now: seq<char>)
    requires IsGeneralizedTime(expDate) && IsUtcTime(now) && 1 <= UtcInstant(now).month <= 12
    ensures var date, misread := GeneralizedInstant(expDate), UtcInstant(Misread(expDate));
      (date.year % 100 == 0 ==> (MarkedExpired(expDate, now) <==> UtcInstant(now).year >= misread.year)) &&
      (date.year % 100 > 12 ==> (MarkedExpired(expDate, now) <==> UtcInstant(now).year > misread.year))
  {
    MarkedByMisread(expDate, now);
    MisreadParts(expDate);
  }

  /** A date of 2050 to 2099 lies after every UTCTIME, and counts as passed exactly from 2021 on. */
  lemma GeneralizedTimeMisread(expDate: seq<char>, now: seq<char>)
    requires IsGeneralizedTime(expDate) && 2050 <= GeneralizedInstant(expDate).year <= 2099
    requires IsUtcTime(now) && 1 <= UtcInstant(now).month <= 12
    ensures !NotAfter(GeneralizedInstant(expDate), UtcInstant(now))
    ensures MarkedExpired(expDate, now) <==> 2021 <= UtcInstant(now).year
  {
    MarkedFromYear(expDate, now);
    MisreadParts(expDate);
  }

  /** The date that stands for "no expiry" counts as passed from 2000 on. */
  lemma NoExpiryMisread(now: seq<char>)
    requires IsUtcTime(now) && 1 <= UtcInstant(now).month <= 12
    ensures MarkedExpired("99991231235959Z", now) <==> 2000 <= UtcInstant(now).year
    ensures !NotAfter(GeneralizedInstant("99991231235959Z"), UtcInstant(now))
  {
    MarkedFromYear("99991231235959Z", now);
    MisreadParts("99991231235959Z");
  }

  /** A date gone by that is not marked. */
  lemma MissedExample()
    ensures !MarkedExpired("20150101000000Z", "190101000000Z")
    ensures NotAfter(GeneralizedInstant("20150101000000Z"), UtcInstant("190101000000Z"))
  {
    MarkedFromYear("20150101000000Z", "190101000000Z");
    MisreadParts("20150101000000Z");
  }
}
