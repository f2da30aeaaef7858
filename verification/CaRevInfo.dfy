// Revocation information in the CA database: the printer make_revocation_str and the parser
// unpack_revinfo. Time and object identifier syntax are arbitrary predicates on text; a parsed value is
// represented by the text it was parsed from.

module CaRevInfo {
  import opened CString
  import opened Options

  datatype Syntax = Syntax(utcTime: seq<char> -> bool, generalizedTime: seq<char> -> bool, oid: seq<char> -> bool)

  datatype RevType = RevValid | RevNone | CrlReason | Hold | KeyCompromise | CaCompromise

  datatype RevInfo = RevInfo(time: seq<char>, reason: int, hold: Option<seq<char>>, invalidity: Option<seq<char>>)

  const NUM_REASONS: nat := 11
  const NOSTATUS := -1
  const KEYCOMPROMISE := 1
  const CACOMPROMISE := 2
  const CERTIFICATEHOLD := 6
  const REMOVEFROMCRL := 8

  /** The CRL reason strings, and three pseudo reasons. */
  function ReasonName(i: nat): (name: seq<char>)
    requires i < NUM_REASONS
  {
    match i
    case 0 => "unspecified"
    case 1 => "keyCompromise"
    case 2 => "CACompromise"
    case 3 => "affiliationChanged"
    case 4 => "superseded"
    case 5 => "cessationOfOperation"
    case 6 => "certificateHold"
    case 7 => "removeFromCRL"
    case 8 => "holdInstruction"
    case 9 => "keyTime"
    case _ => "CAkeyTime"
  }

  function Lower(c: char): char
  {
    if 'A' <= c <= 'Z' then (c as int + 32) as char else c
  }

  /** Letters are compared by their small form, all other characters as they are. */
  lemma LowerIs(c: char)
    ensures 'A' <= c <= 'Z' ==> 'a' <= Lower(c) <= 'z' && Lower(c) as int - 'a' as int == c as int - 'A' as int
    ensures c < 'A' || c > 'Z' ==> Lower(c) == c
  {}

  /** strcasecmp() == 0. */
  predicate SameNoCase(a: seq<char>, b: seq<char>)
  {
    |a| == |b| && forall k :: 0 <= k < |a| ==> Lower(a[k]) == Lower(b[k])
  }

  /** The first reason from i on with this name, or the limit. */
  function FindReason(s: seq<char>, i: nat, limit: nat): (r: nat)
    requires i <= limit <= NUM_REASONS
    ensures i <= r <= limit
    ensures r < limit ==> SameNoCase(s, ReasonName(r))
    ensures forall j :: i <= j < r ==> !SameNoCase(s, ReasonName(j))
    decreases limit - i
  {
    if i == limit || SameNoCase(s, ReasonName(i)) then i else FindReason(s, i + 1, limit)
  }

  lemma NamesDiffer(i: nat, j: nat)
    requires i < NUM_REASONS && j < NUM_REASONS && i != j
    ensures !SameNoCase(ReasonName(i), ReasonName(j))
  {
    var a, b := ReasonName(i), ReasonName(j);
    if |a| == |b| {
      assert Lower(a[0]) != Lower(b[0]);
    }
  }

  lemma SameTransitive(s: seq<char>, a: seq<char>, b: seq<char>)
    ensures SameNoCase(s, a) && SameNoCase(s, b) ==> SameNoCase(a, b)
  {}

  lemma NameFound(i: nat, s: seq<char>)
    requires i < NUM_REASONS && SameNoCase(s, ReasonName(i))
    ensures FindReason(s, 0, NUM_REASONS) == i
    ensures i < 8 ==> FindReason(s, 0, 8) == i
  {
    forall j: nat | j < NUM_REASONS && j != i ensures !SameNoCase(s, ReasonName(j)) {
      SameTransitive(s, ReasonName(i), ReasonName(j));
      NamesDiffer(i, j);
    }
  }

  function FirstIndex(s: seq<char>, c: char): (n: nat)
    ensures n <= |s| && (forall j :: 0 <= j < n ==> s[j] != c) && (n < |s| ==> s[n] == c)
  {
    if s == [] || s[0] == c then 0
    else
      var n := FirstIndex(s[1..], c);
      assert forall j :: 1 <= j < n + 1 ==> s[j] == s[1..][j - 1];
      1 + n
  }

  lemma FirstIndexAt(a: seq<char>, b: seq<char>, c: char)
    requires c !in a
    ensures FirstIndex(a + [c] + b, c) == |a|
  {
    var s := a + [c] + b;
    assert s[|a|] == c;
    assert forall j :: 0 <= j < |a| ==> s[j] == a[j];
  }

  lemma FirstIndexNone(a: seq<char>, c: char)
    requires c !in a
    ensures FirstIndex(a, c) == |a|
  {}

  // ---- the specifications ----

  /** The text made for a revocation at the time `now`. */
  function RevocationText(syn: Syntax, now: seq<char>, kind: RevType, arg: seq<char>): Option<seq<char>>
  {
    match kind
    case RevNone => Some(now)
    case RevValid => Some(now)
    case CrlReason =>
      var i := FindReason(arg, 0, 8);
      if i < 8 then Some(now + [','] + ReasonName(i)) else None
    case Hold => if syn.oid(arg) then Some(now + [','] + "holdInstruction" + [','] + arg) else None
    case KeyCompromise => if syn.generalizedTime(arg) then Some(now + [','] + "keyTime" + [','] + arg) else None
    case CaCompromise => if syn.generalizedTime(arg) then Some(now + [','] + "CAkeyTime" + [','] + arg) else None
  }

  /** The three fields of a revocation text: the last one is everything after the second comma. */
  function Fields(s: seq<char>): (seq<char>, Option<seq<char>>, Option<seq<char>>)
  {
    var p := FirstIndex(s, ',');
    if p == |s| then (s, None, None)
    else
      var rest := s[p + 1..];
      var q := FirstIndex(rest, ',');
      if q == |rest| then (s[..p], Some(rest), None) else (s[..p], Some(rest[..q]), Some(rest[q + 1..]))
  }

  /** What the parser answers for the given fields. */
  function Interpret(syn: Syntax, f: (seq<char>, Option<seq<char>>, Option<seq<char>>)): Option<RevInfo>
  {
    if !syn.utcTime(f.0) then None
    else if f.1.None? then Some(RevInfo(f.0, NOSTATUS, None, None))
    else
      var i := FindReason(f.1.value, 0, NUM_REASONS);
      if i == NUM_REASONS then None
      else if i == 7 then Some(RevInfo(f.0, REMOVEFROMCRL, None, None))
      else if i == 8 then
        if f.2.None? || !syn.oid(f.2.value) then None
        else Some(RevInfo(f.0, CERTIFICATEHOLD, f.2, None))
      else if i == 9 || i == 10 then
        if f.2.None? || !syn.generalizedTime(f.2.value) then None
        else Some(RevInfo(f.0, if i == 9 then KEYCOMPROMISE else CACOMPROMISE, None, f.2))
      else Some(RevInfo(f.0, i, None, None))
  }

  function Unpack(syn: Syntax, s: seq<char>): Option<RevInfo>
  {
    Interpret(syn, Fields(s))
  }

  /** The time at the start of a text is a UTCTIME, whatever follows. */
  predicate TimeReadable(syn: Syntax, s: seq<char>)
  {
    syn.utcTime(Fields(s).0)
  }

  /** What a revocation is meant to record. */
  function RecordOf(now: seq<char>, kind: RevType, arg: seq<char>): RevInfo
  {
    match kind
    case RevNone => RevInfo(now, NOSTATUS, None, None)
    case RevValid => RevInfo(now, NOSTATUS, None, None)
    case CrlReason =>
      var i := FindReason(arg, 0, 8);
      RevInfo(now, if i == 7 then REMOVEFROMCRL else i, None, None)
    case Hold => RevInfo(now, CERTIFICATEHOLD, Some(arg), None)
    case KeyCompromise => RevInfo(now, KEYCOMPROMISE, None, Some(arg))
    case CaCompromise => RevInfo(now, CACOMPROMISE, None, Some(arg))
  }

  // ---- printing and parsing agree ----

  lemma FieldsOne(now: seq<char>)
    requires ',' !in now
    ensures Fields(now) == (now, None, None)
  {
    FirstIndexNone(now, ',');
  }

  lemma FieldsTwo(now: seq<char>, reason: seq<char>)
    requires ',' !in now && ',' !in reason
    ensures Fields(now + [','] + reason) == (now, Some(reason), None)
  {
    var s := now + [','] + reason;
    FirstIndexAt(now, reason, ',');
    assert s[..|now|] == now && s[|now| + 1..] == reason;
    FirstIndexNone(reason, ',');
  }

  lemma FieldsThree(now: seq<char>, reason: seq<char>, arg: seq<char>)
    requires ',' !in now && ',' !in reason
    ensures Fields(now + [','] + reason + [','] + arg) == (now, Some(reason), Some(arg))
  {
    var rest := reason + [','] + arg;
    var s := now + [','] + rest;
    assert s == now + [','] + reason + [','] + arg;
    FirstIndexAt(now, rest, ',');
    assert s[..|now|] == now && s[|now| + 1..] == rest;
    FirstIndexAt(reason, arg, ',');
    assert rest[..|reason|] == reason && rest[|reason| + 1..] == arg;
  }

  /** The reason names are letters only. */
  predicate Letters(s: seq<char>)
  {
    forall k :: 0 <= k < |s| ==> 'A' <= s[k] <= 'z'
  }

  lemma EarlyNamesAreLetters(i: nat)
    requires i < 5
    ensures Letters(ReasonName(i))
  {
    match i
    case 0 => assert Letters("unspecified");
    case 1 => assert Letters("keyCompromise");
    case 2 => assert Letters("CACompromise");
    case 3 => assert Letters("affiliationChanged");
    case _ => assert Letters("superseded");
  }

  lemma LateNamesAreLetters(i: nat)
    requires 5 <= i < NUM_REASONS
    ensures Letters(ReasonName(i))
  {
    match i
    case 5 => assert Letters("cessationOfOperation");
    case 6 => assert Letters("certificateHold");
    case 7 => assert Letters("removeFromCRL");
    case 8 => assert Letters("holdInstruction");
    case 9 => assert Letters("keyTime");
    case _ => assert Letters("CAkeyTime");
  }

  lemma LettersOnly(s: seq<char>)
    requires Letters(s)
    ensures ',' !in s && IsText(s)
  {}

  lemma NamesHaveNoComma(i: nat)
    requires i < NUM_REASONS
    ensures ',' !in ReasonName(i) && IsText(ReasonName(i))
  {
    if i < 5 { EarlyNamesAreLetters(i); } else { LateNamesAreLetters(i); }
    hide ReasonName, Letters;
    LettersOnly(ReasonName(i));
  }

  lemma SameAsItself(s: seq<char>)
    ensures SameNoCase(s, s)
  {}

  /**
   * Every text that is made can be read back, exactly when the current time is a UTCTIME, and reading
   * gives the time, the reason and the argument of the revocation. The argument may contain commas.
   */
  lemma RoundTrip(syn: Syntax, now: seq<char>, kind: RevType, arg: seq<char>)
    requires ',' !in now && RevocationText(syn, now, kind, arg).Some?
    ensures Unpack(syn, RevocationText(syn, now, kind, arg).value) ==
            if syn.utcTime(now) then Some(RecordOf(now, kind, arg)) else None
  {
    hide FindReason, ReasonName, FirstIndex, Fields;
    match kind
    case RevNone => FieldsOne(now);
    case RevValid => FieldsOne(now);
    case CrlReason =>
      var i := FindReason(arg, 0, 8);
      NamesHaveNoComma(i);
      FieldsTwo(now, ReasonName(i));
      SameAsItself(ReasonName(i));
      NameFound(i, ReasonName(i));
    case Hold =>
      PseudoNames();
      FieldsThree(now, "holdInstruction", arg);
    case KeyCompromise =>
      PseudoNames();
      FieldsThree(now, "keyTime", arg);
    case CaCompromise =>
      PseudoNames();
      FieldsThree(now, "CAkeyTime", arg);
  }

  /** Every text that is made starts with the current time. */
  lemma TextTime(syn: Syntax, now: seq<char>, kind: RevType, arg: seq<char>)
    requires ',' !in now && RevocationText(syn, now, kind, arg).Some?
    ensures Fields(RevocationText(syn, now, kind, arg).value).0 == now
  {
    hide FindReason, ReasonName, FirstIndex, Fields;
    match kind
    case RevNone => FieldsOne(now);
    case RevValid => FieldsOne(now);
    case CrlReason =>
      NamesHaveNoComma(FindReason(arg, 0, 8));
      FieldsTwo(now, ReasonName(FindReason(arg, 0, 8)));
    case Hold =>
      PseudoNames();
      FieldsThree(now, "holdInstruction", arg);
    case KeyCompromise =>
      PseudoNames();
      FieldsThree(now, "keyTime", arg);
    case CaCompromise =>
      PseudoNames();
      FieldsThree(now, "CAkeyTime", arg);
  }

  /** From 2050 on the current time is a GeneralizedTime, and what is printed then cannot be read. */
  lemma NotReadBack()
    ensures var syn := Syntax(s => |s| == 13, s => |s| == 15, _ => true);
      RevocationText(syn, "20500101000000Z", RevNone, []) == Some("20500101000000Z") &&
      Unpack(syn, "20500101000000Z") == None
  {
    var syn := Syntax(s => |s| == 13, s => |s| == 15, _ => true);
    assert ',' !in "20500101000000Z";
    RoundTrip(syn, "20500101000000Z", RevNone, []);
  }

  lemma PseudoNames()
    ensures FindReason("holdInstruction", 0, NUM_REASONS) == 8 && ',' !in "holdInstruction"
    ensures FindReason("keyTime", 0, NUM_REASONS) == 9 && ',' !in "keyTime"
    ensures FindReason("CAkeyTime", 0, NUM_REASONS) == 10 && ',' !in "CAkeyTime"
  {
    hide SameNoCase, FindReason;
    assert ReasonName(8) == "holdInstruction" && ReasonName(9) == "keyTime" && ReasonName(10) == "CAkeyTime";
    SameAsItself("holdInstruction");
    NameFound(8, "holdInstruction");
    SameAsItself("keyTime");
    NameFound(9, "keyTime");
    SameAsItself("CAkeyTime");
    NameFound(10, "CAkeyTime");
  }

  /**
   * Whatever is read, the code is a CRLReason of section 5.3.1 of RFC 5280, never 7, or no status at all;
   * a hold instruction comes only with certificateHold and an invalidity date only with a compromise.
   */
  lemma ReasonsAreStandard(syn: Syntax, s: seq<char>)
    requires Unpack(syn, s).Some?
    ensures var info := Unpack(syn, s).value;
      (info.reason == NOSTATUS || 0 <= info.reason <= 6 || info.reason == REMOVEFROMCRL) &&
      (info.hold.Some? ==> info.reason == CERTIFICATEHOLD) &&
      (info.invalidity.Some? ==> info.reason == KEYCOMPROMISE || info.reason == CACOMPROMISE) &&
      (info.hold.None? || info.invalidity.None?) &&
      (info.reason == NOSTATUS ==> info.hold.None? && info.invalidity.None?)
  {
    hide Fields, FindReason;
  }

  // ---- what is accepted, and as what ----

  /** The CRLReason numbers of section 5.3.1 of RFC 5280, by name in either case. */
  predicate ReasonNumber(s: seq<char>, code: int)
  {
    (SameNoCase(s, "unspecified") && code == 0) || (SameNoCase(s, "keyCompromise") && code == 1) ||
    (SameNoCase(s, "CACompromise") && code == 2) || (SameNoCase(s, "affiliationChanged") && code == 3) ||
    (SameNoCase(s, "superseded") && code == 4) || (SameNoCase(s, "cessationOfOperation") && code == 5) ||
    (SameNoCase(s, "certificateHold") && code == 6) || (SameNoCase(s, "removeFromCRL") && code == 8)
  }

  ghost predicate IsReason(s: seq<char>)
  {
    exists code :: ReasonNumber(s, code)
  }

  /** The argument fits the kind of revocation. */
  ghost predicate ArgumentGood(syn: Syntax, kind: RevType, arg: seq<char>)
  {
    match kind
    case RevValid => true
    case RevNone => true
    case CrlReason => IsReason(arg)
    case Hold => syn.oid(arg)
    case KeyCompromise => syn.generalizedTime(arg)
    case CaCompromise => syn.generalizedTime(arg)
  }

  function Code(i: nat): int
  {
    if i == 7 then 8 else i
  }

  /** The names are listed in the order of their numbers, but for the last one. */
  lemma ReasonNumberIs(s: seq<char>, i: nat)
    requires i < 8
    ensures SameNoCase(s, ReasonName(i)) ==> ReasonNumber(s, Code(i))
  {
    hide SameNoCase;
  }

  lemma ReasonNumberFrom(s: seq<char>, code: int) returns (i: nat)
    requires ReasonNumber(s, code)
    ensures i < 8 && SameNoCase(s, ReasonName(i)) && code == Code(i)
  {
    hide SameNoCase;
    i := if code == 8 then 7 else code;
  }

  lemma IsReasonIff(s: seq<char>)
    ensures IsReason(s) <==> FindReason(s, 0, 8) < 8
    ensures forall code :: ReasonNumber(s, code) ==> FindReason(s, 0, 8) == FindReason(s, 0, NUM_REASONS) && code == Code(FindReason(s, 0, 8))
  {
    hide ReasonNumber, FindReason, SameNoCase;
    if FindReason(s, 0, 8) < 8 { ReasonNumberIs(s, FindReason(s, 0, 8)); }
    forall code | ReasonNumber(s, code)
      ensures FindReason(s, 0, 8) == FindReason(s, 0, NUM_REASONS) < 8 && code == Code(FindReason(s, 0, 8))
    {
      var i := ReasonNumberFrom(s, code);
      NameFound(i, s);
    }
  }

  /** A text is made exactly for a good argument. */
  lemma TextMadeIff(syn: Syntax, now: seq<char>, kind: RevType, arg: seq<char>)
    ensures RevocationText(syn, now, kind, arg).Some? <==> ArgumentGood(syn, kind, arg)
  {
    IsReasonIff(arg);
    hide FindReason, IsReason, ReasonNumber, ReasonName;
  }

  /** What a text is read as, spelled out over its three fields. */
  ghost predicate ReadAs(syn: Syntax, f: (seq<char>, Option<seq<char>>, Option<seq<char>>), info: RevInfo)
  {
    syn.utcTime(f.0) && info.time == f.0 &&
    if f.1.None? then info.reason == -1 && info.hold.None? && info.invalidity.None?
    else if SameNoCase(f.1.value, "holdInstruction") then
      f.2.Some? && syn.oid(f.2.value) && info.reason == 6 && info.hold == f.2 && info.invalidity.None?
    else if SameNoCase(f.1.value, "keyTime") then
      f.2.Some? && syn.generalizedTime(f.2.value) && info.reason == 1 && info.invalidity == f.2 && info.hold.None?
    else if SameNoCase(f.1.value, "CAkeyTime") then
      f.2.Some? && syn.generalizedTime(f.2.value) && info.reason == 2 && info.invalidity == f.2 && info.hold.None?
    else ReasonNumber(f.1.value, info.reason) && info.hold.None? && info.invalidity.None?
  }

  /** The parser reads exactly that, and nothing else. */
  lemma UnpackIff(syn: Syntax, s: seq<char>, info: RevInfo)
    ensures Unpack(syn, s) == Some(info) <==> ReadAs(syn, Fields(s), info)
  {
    hide Fields, FindReason, ReasonNumber, SameNoCase;
    var f := Fields(s);
    if f.1.Some? {
      var r, i := f.1.value, FindReason(f.1.value, 0, NUM_REASONS);
      IsReasonIff(r);
      if i < NUM_REASONS { Interpreted(r, i, info.reason); } else { NotInterpreted(r); }
    }
  }

  lemma Interpreted(r: seq<char>, i: nat, code: int)
    requires i < NUM_REASONS && SameNoCase(r, ReasonName(i))
    ensures SameNoCase(r, "holdInstruction") <==> i == 8
    ensures SameNoCase(r, "keyTime") <==> i == 9
    ensures SameNoCase(r, "CAkeyTime") <==> i == 10
    ensures i < 8 ==> (ReasonNumber(r, code) <==> code == Code(i))
  {
    hide SameNoCase, FindReason, ReasonNumber;
    assert ReasonName(8) == "holdInstruction" && ReasonName(9) == "keyTime" && ReasonName(10) == "CAkeyTime";
    NameFound(i, r);
    if SameNoCase(r, "holdInstruction") { NameFound(8, r); }
    if SameNoCase(r, "keyTime") { NameFound(9, r); }
    if SameNoCase(r, "CAkeyTime") { NameFound(10, r); }
    if i < 8 {
      ReasonNumberIs(r, i);
      IsReasonIff(r);
    }
  }

  lemma NotInterpreted(r: seq<char>)
    requires FindReason(r, 0, NUM_REASONS) == NUM_REASONS
    ensures !SameNoCase(r, "holdInstruction") && !SameNoCase(r, "keyTime") && !SameNoCase(r, "CAkeyTime") && !IsReason(r)
  {
    hide SameNoCase, FindReason, ReasonNumber;
    assert ReasonName(8) == "holdInstruction" && ReasonName(9) == "keyTime" && ReasonName(10) == "CAkeyTime";
    IsReasonIff(r);
    if code :| ReasonNumber(r, code) { var i := ReasonNumberFrom(r, code); }
  }

  /** What a revocation is read back as, spelled out by its kind. */
  lemma RecordOfIs(now: seq<char>, kind: RevType, arg: seq<char>)
    ensures RecordOf(now, RevNone, arg) == RevInfo(now, -1, None, None)
    ensures RecordOf(now, Hold, arg) == RevInfo(now, 6, Some(arg), None)
    ensures RecordOf(now, KeyCompromise, arg) == RevInfo(now, 1, None, Some(arg))
    ensures RecordOf(now, CaCompromise, arg) == RevInfo(now, 2, None, Some(arg))
    ensures forall code :: ReasonNumber(arg, code) ==> RecordOf(now, CrlReason, arg) == RevInfo(now, code, None, None)
  {
    IsReasonIff(arg);
    hide ReasonNumber, FindReason;
  }

  // ---- make_revocation_str ----

  method MakeRevocationStr(syn: Syntax, now: seq<char>, kind: RevType, arg: seq<char>) returns (str: array?<char>)
    requires IsText(now) && IsText(arg)
    ensures str == null <==> RevocationText(syn, now, kind, arg).None?
    // The allocation is exact: the text and its terminator fill it, nothing is cut off.
    ensures str != null ==> fresh(str)
    ensures str != null ==> Holds(str[..], RevocationText(syn, now, kind, arg).value)
    ensures str != null ==> str.Length == |RevocationText(syn, now, kind, arg).value| + 1
  {
    hide Holds, SameNoCase;
    var reason, other := None, None;
    match kind {
      case RevNone =>
      case RevValid =>
      case CrlReason =>
        var i := 0;
        while i < 8 && reason == None
          invariant 0 <= i <= 8
          invariant reason == None ==> FindReason(arg, 0, 8) == FindReason(arg, i, 8)
          invariant reason != None ==>
            i < 8 && FindReason(arg, 0, 8) == i && reason == Some(ReasonName(i))
          decreases 8 - i, if reason == None then 1 else 0
        {
          var same := Same(arg, ReasonName(i));
          if same {
            reason := Some(ReasonName(i));
          } else {
            i := i + 1;
          }
        }
        if reason == None { return null; }
        assert IsText(reason.value) by { NamesHaveNoComma(i); }
      case Hold =>
        if !syn.oid(arg) { return null; }
        reason, other := Some("holdInstruction"), Some(arg);
      case KeyCompromise =>
        if !syn.generalizedTime(arg) { return null; }
        reason, other := Some("keyTime"), Some(arg);
      case CaCompromise =>
        if !syn.generalizedTime(arg) { return null; }
        reason, other := Some("CAkeyTime"), Some(arg);
    }
    var i := |now| + 1;
    if reason != None {
      i := i + |reason.value| + 1;
    }
    if other != None {
      i := i + |other.value| + 1;
    }
    str := new char[i];
    Strlcpy(str, now);
    ghost var text := now;
    if reason != None {
      Append(str, [','], text);
      Append(str, reason.value, text + [',']);
      text := text + [','] + reason.value;
    }
    if other != None {
      Append(str, [','], text);
      Append(str, other.value, text + [',']);
      text := text + [','] + other.value;
    }
  }

  /** strcasecmp. */
  method Same(a: seq<char>, b: seq<char>) returns (same: bool)
    ensures same == SameNoCase(a, b)
  {
    if |a| != |b| { return false; }
    var k := 0;
    while k < |a|
      invariant 0 <= k <= |a| && forall j :: 0 <= j < k ==> Lower(a[j]) == Lower(b[j])
    {
      if Lower(a[k]) != Lower(b[k]) { return false; }
      k := k + 1;
    }
    return true;
  }

  // ---- unpack_revinfo ----

  /** strchr from an offset. */
  method Strchr(tmp: array<char>, at: nat, c: char, ghost text: seq<char>) returns (p: nat)
    requires at <= tmp.Length && Holds(tmp[at..], text) && c != '\0'
    ensures p == at + FirstIndex(text, c)
  {
    p := at;
    while tmp[p] != c && tmp[p] != '\0'
      invariant at <= p <= at + FirstIndex(text, c)
      decreases |text| - (p - at)
    {
      assert tmp[p] == tmp[at..][p - at];
      assert p - at < |text| ==> tmp[p] == text[p - at];
      p := p + 1;
    }
    assert tmp[p] == tmp[at..][p - at];
  }

  /** The C string at an offset. */
  method ReadAt(tmp: array<char>, at: nat, ghost text: seq<char>) returns (s: seq<char>)
    requires at <= tmp.Length && Holds(tmp[at..], text)
    ensures s == text
  {
    var p := at;
    while tmp[p] != '\0'
      invariant at <= p <= at + |text| && tmp[at..p] == text[..p - at]
      decreases |text| - (p - at)
    {
      assert tmp[p] == tmp[at..][p - at];
      p := p + 1;
    }
    assert tmp[p] == tmp[at..][p - at];
    s := tmp[at..p];
  }

  /**
   * unpack_revinfo. The time is handed out even when what follows it is malformed; a time that is malformed
   * itself is handed out empty.
   */
  method UnpackRevinfo(syn: Syntax, str: seq<char>) returns (info: Option<RevInfo>, revtm: Option<seq<char>>)
    requires IsText(str)
    ensures info == Unpack(syn, str)
    ensures revtm == if TimeReadable(syn, str) then Some(Fields(str).0) else None
  {
    hide Holds;
    var rtime, reasonStr, argStr := SplitRevinfo(str);
    info, revtm := None, None;
    if !syn.utcTime(rtime) { return; }
    revtm := Some(rtime);
    var reason := NOSTATUS;
    var hold, invalidity := None, None;
    if reasonStr.Some? {
      var i := 0;
      while i < NUM_REASONS && reason == NOSTATUS
        invariant 0 <= i <= NUM_REASONS && (reason == NOSTATUS || reason == i < NUM_REASONS)
        invariant reason == NOSTATUS ==> FindReason(reasonStr.value, 0, NUM_REASONS) == FindReason(reasonStr.value, i, NUM_REASONS)
        invariant reason != NOSTATUS ==> FindReason(reasonStr.value, 0, NUM_REASONS) == reason
        decreases NUM_REASONS - i, if reason == NOSTATUS then 1 else 0
      {
        var same := Same(reasonStr.value, ReasonName(i));
        if same {
          reason := i;
        } else {
          i := i + 1;
        }
      }
      if reason == NOSTATUS { return; }
      if reason == 7 {
        reason := REMOVEFROMCRL;
      } else if reason == 8 {
        if argStr.None? { return; }
        reason := CERTIFICATEHOLD;
        if !syn.oid(argStr.value) { return; }
        hold := argStr;
      } else if reason == 9 || reason == 10 {
        if argStr.None? || !syn.generalizedTime(argStr.value) { return; }
        invalidity := argStr;
        reason := if reason == 9 then KEYCOMPROMISE else CACOMPROMISE;
      }
    }
    info := Some(RevInfo(rtime, reason, hold, invalidity));
  }

  lemma CutHolds(buf: seq<char>, text: seq<char>, k: nat)
    requires Holds(buf, text) && k < |text|
    ensures Holds(buf[k := '\0'], text[..k]) && Holds(buf[k + 1..], text[k + 1..])
  {
    assert buf[..|text|] == text;
    assert buf[k + 1..][..|text| - (k + 1)] == buf[..|text|][k + 1..];
    assert buf[k := '\0'][..k] == buf[..|text|][..k];
  }

  /** strchr, and a NUL written over the comma. */
  method CutAt(tmp: array<char>, at: nat, ghost text: seq<char>) returns (found: bool, p: nat)
    requires at <= tmp.Length && Holds(tmp[at..], text)
    modifies tmp
    ensures p == at + FirstIndex(text, ',') < tmp.Length && (found <==> p < at + |text|)
    ensures tmp[..p] == old(tmp[..p])
    ensures Holds(tmp[at..], text[..p - at])
    ensures found ==> Holds(tmp[p + 1..], text[p - at + 1..])
  {
    p := Strchr(tmp, at, ',', text);
    assert forall k :: at <= k < tmp.Length ==> tmp[k] == tmp[at..][k - at];
    assert forall k :: 0 <= k < |text| ==> text[k] == tmp[at + k] && text[k] != '\0';
    found := tmp[p] != '\0';
    if found {
      CutHolds(tmp[at..], text, p - at);
      assert tmp[p + 1..] == tmp[at..][p - at + 1..];
      ghost var before := tmp[at..];
      tmp[p] := '\0';
      assert tmp[at..] == before[p - at := '\0'] && tmp[p + 1..] == before[p - at + 1..];
    }
  }

  /** A NUL written later does not disturb the text before it. */
  lemma HoldsBefore(a: seq<char>, b: seq<char>, p: nat, text: seq<char>)
    requires Holds(a, text) && p <= |a| == |b| && |text| < p && a[..p] == b[..p]
    ensures Holds(b, text)
  {
    assert b[..|text|] == a[..p][..|text|] && b[|text|] == a[..p][|text|];
  }

  method Strdup(str: seq<char>) returns (tmp: array<char>)
    requires IsText(str)
    ensures fresh(tmp) && tmp.Length == |str| + 1 && Holds(tmp[0..], str)
  {
    tmp := new char[|str| + 1](k requires 0 <= k <= |str| => if k < |str| then str[k] else '\0');
    assert tmp[0..] == str + ['\0'];
  }

  /** Cut a copy of the text at its first two commas by writing NULs. */
  method SplitRevinfo(str: seq<char>)
    returns (rtime: seq<char>, reasonStr: Option<seq<char>>, argStr: Option<seq<char>>)
    requires IsText(str)
    ensures (rtime, reasonStr, argStr) == Fields(str)
  {
    hide Holds, FirstIndex, IsText;
    var tmp := Strdup(str);
    reasonStr, argStr := None, None;
    var found, p := CutAt(tmp, 0, str);
    ghost var first := tmp[..];
    assert tmp[0..] == first;
    if found {
      ghost var rest := str[p + 1..];
      assert str[p - 0 + 1..] == rest && str[..p - 0] == str[..p];
      var more, q := CutAt(tmp, p + 1, rest);
      ghost var n := q - (p + 1);
      assert n == FirstIndex(rest, ',') && (!more ==> rest[..n] == rest);
      assert tmp[0..] == tmp[..];
      HoldsBefore(first, tmp[..], q, str[..p]);
      if more {
        var arg := ReadAt(tmp, q + 1, rest[n + 1..]);
        argStr := Some(arg);
      }
      var reason := ReadAt(tmp, p + 1, rest[..n]);
      reasonStr := Some(reason);
    }
    rtime := ReadAt(tmp, 0, str[..p]);
    assert !found ==> str[..p] == str;
  }
}
