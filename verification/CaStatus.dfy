// Two views of one database: the revocation list that the CA makes from it, and the answers that the
// OCSP responder gives from it.

module CaStatus {
  import opened CString
  import opened Options
  import opened CaRevInfo
  import opened CaDatabase
  import CaSerial

  // ---- the revocation list ----

  /** One entry of the list; no reason stands for the extension being absent. */
  datatype CrlEntry = CrlEntry(serial: int, time: seq<char>, reason: Option<int>, invalidity: Option<seq<char>>,
                               hold: Option<seq<char>>) {
    predicate HasExtension() { reason.Some? || invalidity.Some? || hold.Some? }
  }

  datatype Crl = Crl(entries: seq<CrlEntry>, version2: bool)

  predicate Listable(syn: Syntax, row: Row)
  {
    row.kind == 'R' ==> Unpack(syn, row.revDate).Some? && CaSerial.SerialFormat(row.serial)
  }

  ghost predicate AllListable(syn: Syntax, rows: seq<Row>)
  {
    forall i :: 0 <= i < |rows| ==> Listable(syn, rows[i])
  }

  function EntryFor(serial: int, info: RevInfo): CrlEntry
  {
    CrlEntry(serial, info.time, if info.reason == NOSTATUS then None else Some(info.reason), info.invalidity, info.hold)
  }

  function EntryOf(syn: Syntax, row: Row): CrlEntry
    requires row.kind == 'R' && Listable(syn, row)
  {
    EntryFor(CaSerial.Hex2Bn(row.serial), Unpack(syn, row.revDate).value)
  }

  /** The positions of the revoked rows. */
  function RevokedAt(rows: seq<Row>): (at: seq<nat>)
    ensures forall k :: 0 <= k < |at| ==> at[k] < |rows| && rows[at[k]].kind == 'R'
    ensures forall j, k :: 0 <= j < k < |at| ==> at[j] < at[k]
  {
    if rows == [] then []
    else
      var n := |rows| - 1;
      RevokedAt(rows[..n]) + if rows[n].kind == 'R' then [n] else []
  }

  lemma {:induction false} RevokedAtComplete(rows: seq<Row>, i: nat)
    requires i < |rows| && rows[i].kind == 'R'
    ensures i in RevokedAt(rows)
  {
    if i < |rows| - 1 { RevokedAtComplete(rows[..|rows| - 1], i); }
  }

  ghost function CrlEntries(syn: Syntax, rows: seq<Row>): (entries: seq<CrlEntry>)
    requires AllListable(syn, rows)
    ensures |entries| == |RevokedAt(rows)|
  {
    var at := RevokedAt(rows);
    seq(|at|, k requires 0 <= k < |at| => EntryOf(syn, rows[at[k]]))
  }

  /** make_revoked: 0 for a malformed text, 2 when the entry got extensions, otherwise 1. */
  method MakeRevoked(syn: Syntax, serial: int, str: seq<char>) returns (ret: int, entry: CrlEntry)
    requires IsText(str)
    ensures ret == 0 <==> Unpack(syn, str).None?
    ensures ret != 0 ==> entry == EntryFor(serial, Unpack(syn, str).value)
    ensures ret != 0 ==> ret == if entry.HasExtension() then 2 else 1
  {
    hide Unpack, Fields, IsText;
    var info, revtm := UnpackRevinfo(syn, str);
    entry := CrlEntry(serial, if revtm.Some? then revtm.value else [], None, None, None);
    if info.None? { return 0, entry; }
    UnpackTime(syn, str);
    ReasonsAreStandard(syn, str);
    if info.value.reason != NOSTATUS {
      entry := entry.(reason := Some(info.value.reason));
    }
    if info.value.invalidity.Some? {
      entry := entry.(invalidity := info.value.invalidity);
    }
    if info.value.hold.Some? {
      entry := entry.(hold := info.value.hold);
    }
    ret := if info.value.reason != NOSTATUS then 2 else 1;
  }

  /** The load check of ca_main: it stops at the first row that is not as it should be. */
  method LoadCheck(syn: Syntax, timeOk: seq<char> -> bool, rows: seq<Row>) returns (ok: bool, entry: nat)
    requires forall i :: 0 <= i < |rows| ==> IsText(rows[i].revDate)
    ensures ok <==> AllLoadOk(syn, timeOk, rows)
    ensures !ok ==> entry < |rows| && !LoadOk(syn, timeOk, rows[entry])
    ensures !ok ==> forall i :: 0 <= i < entry && i < |rows| ==> LoadOk(syn, timeOk, rows[i])
  {
    hide Unpack, CaSerial.SerialFormat, IsText;
    entry := 0;
    while entry < |rows|
      invariant 0 <= entry <= |rows| && forall i :: 0 <= i < entry ==> LoadOk(syn, timeOk, rows[i])
    {
      var pp := rows[entry];
      if pp.kind != 'R' && pp.revDate != [] { return false, entry; }
      if pp.kind == 'R' {
        var ret, r := MakeRevoked(syn, 0, pp.revDate);
        if ret == 0 { return false, entry; }
      }
      if !timeOk(pp.expDate) { return false, entry; }
      var format := CaSerial.CheckSerial(pp.serial);
      if !format { return false, entry; }
      entry := entry + 1;
    }
    return true, entry;
  }

  ghost predicate AnyExtension(entries: seq<CrlEntry>)
  {
    exists k :: 0 <= k < |entries| && entries[k].HasExtension()
  }

  lemma AnyExtensionAppend(entries: seq<CrlEntry>, r: CrlEntry)
    ensures AnyExtension(entries + [r]) <==> AnyExtension(entries) || r.HasExtension()
  {
    assert (entries + [r])[|entries|] == r;
    assert forall k :: 0 <= k < |entries| ==> (entries + [r])[k] == entries[k];
  }

  /** The list loop of ca_main: version 2 exactly when some entry or the list itself has an extension. */
  method MakeCrl(syn: Syntax, rows: seq<Row>, crlExt: bool, crlNumber: bool) returns (crl: Crl)
    requires AllListable(syn, rows) && forall i :: 0 <= i < |rows| ==> IsText(rows[i].revDate)
    ensures crl.entries == CrlEntries(syn, rows)
    ensures crl.version2 <==> crlExt || crlNumber || AnyExtension(crl.entries)
  {
    hide AnyExtension, Unpack, CaSerial.SerialFormat, CaSerial.Hex2Bn, IsText;
    var crlV2 := false;
    var entries := [];
    assert !AnyExtension([]) by { NoExtension(); }
    var i := 0;
    while i < |rows|
      invariant 0 <= i <= |rows|
      invariant entries == CrlEntries(syn, rows[..i])
      invariant crlV2 <==> AnyExtension(entries)
    {
      var pp := rows[i];
      assert Listable(syn, pp);
      EntriesStep(syn, rows, i);
      if pp.kind == 'R' {
        var j, r := MakeRevoked(syn, CaSerial.Hex2Bn(pp.serial), pp.revDate);
        AnyExtensionAppend(entries, r);
        entries := entries + [r];
        if j == 2 { crlV2 := true; }
      }
      i := i + 1;
    }
    assert rows[..i] == rows;
    if crlNumber { crlV2 := true; }
    crl := Crl(entries, crlExt || crlV2);
  }

  lemma NoExtension()
    ensures !AnyExtension([])
  {}

  lemma EntriesStep(syn: Syntax, rows: seq<Row>, i: nat)
    requires AllListable(syn, rows) && i < |rows|
    ensures CrlEntries(syn, rows[..i + 1]) ==
            CrlEntries(syn, rows[..i]) + if rows[i].kind == 'R' then [EntryOf(syn, rows[i])] else []
  {
    assert rows[..i + 1][..i] == rows[..i];
    assert Listable(syn, rows[i]);
  }

  // ---- the responder ----

  datatype CertStatus =
    | Unknown
    | Good
    | Revoked(time: seq<char>, reason: int, invalidity: Option<seq<char>>, hold: Option<seq<char>>)

  datatype CertId = CertId(digestKnown: bool, issuer: string, serial: int)

  datatype Response = MalformedRequest | InternalError | Successful(singles: seq<(CertId, CertStatus)>)

  /** lookup_serial. */
  function Lookup(t: Table, serial: int): (row: Option<Row>)
    requires Valid(t)
    ensures row.Some? ==> row.value in t.rows && SerialKey(row.value) == CaSerial.Key(CaSerial.SerialText(serial))
  {
    var key := CaSerial.Key(CaSerial.SerialText(serial));
    if key in t.serials then Some(t.rows[t.serials[key]]) else None
  }

  /** The status of a revoked row whose time can be read: what the text says, as far as it can be read. */
  function RevokedStatus(syn: Syntax, str: seq<char>): CertStatus
  {
    match Unpack(syn, str)
    case None => Revoked(Fields(str).0, NOSTATUS, None, None)
    case Some(info) => Revoked(info.time, info.reason, info.invalidity, if info.invalidity.Some? then None else info.hold)
  }

  /** The row leads to an answer: it is valid, or revoked at a time that can be read. */
  predicate Answerable(syn: Syntax, row: Row)
  {
    row.kind == 'V' || (row.kind == 'R' && TimeReadable(syn, row.revDate))
  }

  /** The answer for one certificate id; none at all for a row that leads to none. */
  function StatusOf(syn: Syntax, t: Table, issuerFound: bool, serial: int): Option<CertStatus>
    requires Valid(t)
  {
    var row := Lookup(t, serial);
    if !issuerFound || row.None? then Some(Unknown)
    else if !Answerable(syn, row.value) then None
    else if row.value.kind == 'V' then Some(Good)
    else Some(RevokedStatus(syn, row.value.revDate))
  }

  ghost predicate IssuerFound(ca: seq<string>, sameIssuer: (string, string) -> bool, id: CertId)
  {
    exists k :: 0 <= k < |ca| && sameIssuer(ca[k], id.issuer)
  }

  ghost function Singles(syn: Syntax, t: Table, ca: seq<string>, sameIssuer: (string, string) -> bool, ids: seq<CertId>)
    : seq<(CertId, CertStatus)>
    requires Valid(t)
  {
    if ids == [] then []
    else
      var id := ids[|ids| - 1];
      var status := StatusOf(syn, t, IssuerFound(ca, sameIssuer, id), id.serial);
      Singles(syn, t, ca, sameIssuer, ids[..|ids| - 1]) + if status.Some? then [(id, status.value)] else []
  }

  /** The answer for one id of the request. */
  method AnswerId(syn: Syntax, t: Table, ca: seq<string>, sameIssuer: (string, string) -> bool, id: CertId)
    returns (status: Option<CertStatus>)
    requires Valid(t) && forall i :: 0 <= i < |t.rows| ==> IsText(t.rows[i].revDate)
    ensures status == StatusOf(syn, t, IssuerFound(ca, sameIssuer, id), id.serial)
    ensures (forall k :: 0 <= k < |ca| ==> !sameIssuer(ca[k], id.issuer)) ==> status == Some(Unknown)
    ensures (exists k :: 0 <= k < |ca| && sameIssuer(ca[k], id.issuer)) ==> status == StatusOf(syn, t, true, id.serial)
  {
    var found := false;
    var jj := 0;
    while jj < |ca| && !found
      invariant 0 <= jj <= |ca|
      invariant found <==> exists k :: 0 <= k < jj && sameIssuer(ca[k], id.issuer)
    {
      if sameIssuer(ca[jj], id.issuer) { found := true; }
      jj := jj + 1;
    }
    assert found == IssuerFound(ca, sameIssuer, id);
    var inf := Lookup(t, id.serial);
    hide Valid, Lookup, Unpack, Fields, IssuerFound, IsText;
    status := None;
    if !found || inf.None? {
      status := Some(Unknown);
    } else if inf.value.kind == 'V' {
      status := Some(Good);
    } else if inf.value.kind == 'R' {
      var info, revtm := UnpackRevinfo(syn, inf.value.revDate);
      var reason := if info.Some? then info.value.reason else NOSTATUS;
      var inst := if info.Some? then info.value.hold else None;
      var invtm := if info.Some? then info.value.invalidity else None;
      if info.Some? { UnpackTime(syn, inf.value.revDate); }
      // An empty time cannot be converted: adding the answer fails, and nobody looks at that.
      if revtm.None? {
        status := None;
      } else if invtm.Some? {
        status := Some(Revoked(revtm.value, reason, invtm, None));
      } else if inst.Some? {
        status := Some(Revoked(revtm.value, reason, None, inst));
      } else {
        status := Some(Revoked(revtm.value, reason, None, None));
      }
    }
  }

  /** make_ocsp_response, with the outcome of signing as a parameter. */
  method MakeOcspResponse(syn: Syntax, t: Table, ca: seq<string>, sameIssuer: (string, string) -> bool,
                          ids: seq<CertId>, signOk: bool) returns (resp: Response)
    requires Valid(t) && forall i :: 0 <= i < |t.rows| ==> IsText(t.rows[i].revDate)
    ensures resp.MalformedRequest? <==> ids == []
    ensures resp.InternalError? <==> ids != [] && (!signOk || exists i :: 0 <= i < |ids| && !ids[i].digestKnown)
    ensures resp.Successful? ==> resp.singles == Singles(syn, t, ca, sameIssuer, ids)
  {
    hide Valid, StatusOf, IssuerFound, IsText;
    if |ids| <= 0 { return MalformedRequest; }
    var singles := [];
    var i := 0;
    while i < |ids|
      invariant 0 <= i <= |ids| && forall k :: 0 <= k < i ==> ids[k].digestKnown
      invariant singles == Singles(syn, t, ca, sameIssuer, ids[..i])
    {
      assert ids[..i + 1][..i] == ids[..i];
      if !ids[i].digestKnown { return InternalError; }
      var status := AnswerId(syn, t, ca, sameIssuer, ids[i]);
      if status.Some? {
        singles := singles + [(ids[i], status.value)];
      }
      i := i + 1;
    }
    assert ids[..i] == ids;
    resp := if signOk then Successful(singles) else InternalError;
  }

  lemma UnpackTime(syn: Syntax, str: seq<char>)
    requires Unpack(syn, str).Some?
    ensures TimeReadable(syn, str) && Unpack(syn, str).value.time == Fields(str).0
  {
    hide Fields, FindReason;
  }

  // ---- the two views agree ----

  ghost predicate RevokedCanonical(rows: seq<Row>)
    requires forall i :: 0 <= i < |rows| ==> CaSerial.SerialFormat(rows[i].serial)
  {
    forall i :: 0 <= i < |rows| && rows[i].kind == 'R' ==> CaSerial.Canonical(rows[i].serial)
  }

  /** The list has this serial once, with this status. */
  ghost predicate ListedOnce(entries: seq<CrlEntry>, serial: int, status: CertStatus)
  {
    exists k :: 0 <= k < |entries| && entries[k].serial == serial && SameData(entries[k], status) &&
      forall j :: 0 <= j < |entries| && j != k ==> entries[j].serial != serial
  }

  /** Same date, same reason or none, same invalidity date, same hold instruction. */
  predicate SameData(e: CrlEntry, status: CertStatus)
  {
    status.Revoked? && e.time == status.time && e.invalidity == status.invalidity && e.hold == status.hold &&
    e.reason == if status.reason == NOSTATUS then None else Some(status.reason)
  }

  ghost predicate Listed(entries: seq<CrlEntry>, serial: int)
  {
    exists k :: 0 <= k < |entries| && entries[k].serial == serial
  }

  /** For one serial: the responder says revoked exactly when it is listed, and then both say the same. */
  ghost predicate AgreeOn(syn: Syntax, t: Table, serial: int)
    requires Valid(t) && AllListable(syn, t.rows)
  {
    var entries, status := CrlEntries(syn, t.rows), StatusOf(syn, t, true, serial);
    if status.Some? && status.value.Revoked? then ListedOnce(entries, serial, status.value)
    else !Listed(entries, serial)
  }

  /** The position of the row that the responder finds for a serial. */
  ghost predicate FoundAt(t: Table, serial: int, j: nat)
    requires Valid(t)
  {
    var key := CaSerial.Key(CaSerial.SerialText(serial));
    key in t.serials && t.serials[key] == j
  }

  lemma FoundRow(t: Table, serial: int, j: nat)
    requires Valid(t) && FoundAt(t, serial, j)
    ensures j < |t.rows| && Lookup(t, serial) == Some(t.rows[j])
    ensures CaSerial.SerialFormat(t.rows[j].serial) ==>
      CaSerial.Hex2Bn(t.rows[j].serial) == serial && CaSerial.Canonical(t.rows[j].serial)
  {
    if CaSerial.SerialFormat(t.rows[j].serial) {
      CaSerial.KeyDeterminesValue(t.rows[j].serial, serial);
    }
  }

  /** A canonical row is the one found for its serial. */
  lemma CanonicalFound(t: Table, i: nat)
    requires Valid(t) && i < |t.rows| && CaSerial.SerialFormat(t.rows[i].serial)
    requires CaSerial.Canonical(t.rows[i].serial)
    ensures FoundAt(t, CaSerial.Hex2Bn(t.rows[i].serial), i)
  {
    CaSerial.FoundByValue(t.rows[i].serial);
    assert SerialKey(t.rows[i]) in t.serials;
  }

  lemma EntryOfRow(syn: Syntax, t: Table, i: nat) returns (k: nat)
    requires Valid(t) && AllListable(syn, t.rows) && i < |t.rows| && t.rows[i].kind == 'R'
    ensures k < |RevokedAt(t.rows)| && RevokedAt(t.rows)[k] == i
    ensures Listable(syn, t.rows[i]) && CrlEntries(syn, t.rows)[k] == EntryOf(syn, t.rows[i])
  {
    RevokedAtComplete(t.rows, i);
    k :| 0 <= k < |RevokedAt(t.rows)| && RevokedAt(t.rows)[k] == i;
    assert Listable(syn, t.rows[i]);
  }

  lemma RowOfEntry(syn: Syntax, t: Table, k: nat) returns (i: nat)
    requires Valid(t) && AllListable(syn, t.rows) && k < |CrlEntries(syn, t.rows)|
    ensures i < |t.rows| && t.rows[i].kind == 'R' && RevokedAt(t.rows)[k] == i
    ensures Listable(syn, t.rows[i]) && CrlEntries(syn, t.rows)[k] == EntryOf(syn, t.rows[i])
  {
    i := RevokedAt(t.rows)[k];
    assert Listable(syn, t.rows[i]);
  }

  lemma SameDataOf(syn: Syntax, row: Row)
    requires row.kind == 'R' && Listable(syn, row)
    ensures SameData(EntryOf(syn, row), RevokedStatus(syn, row.revDate)) && Answerable(syn, row)
  {
    UnpackTime(syn, row.revDate);
    ReasonsAreStandard(syn, row.revDate);
    hide Unpack;
  }

  lemma OnlyFoundListed(syn: Syntax, t: Table, n: int)
    requires Valid(t) && AllListable(syn, t.rows)
    requires forall i :: 0 <= i < |t.rows| ==> CaSerial.SerialFormat(t.rows[i].serial)
    requires RevokedCanonical(t.rows)
    ensures var entries := CrlEntries(syn, t.rows);
      forall k: nat :: k < |entries| && entries[k].serial == n ==> FoundAt(t, n, RevokedAt(t.rows)[k])
  {
    hide Valid, FoundAt, Listable, CaSerial.SerialFormat, CaSerial.Canonical, CaSerial.Hex2Bn;
    var entries := CrlEntries(syn, t.rows);
    forall k: nat | k < |entries| && entries[k].serial == n
      ensures FoundAt(t, n, RevokedAt(t.rows)[k])
    {
      var i := RowOfEntry(syn, t, k);
      CanonicalFound(t, i);
    }
  }

  lemma FoundListedOnce(syn: Syntax, t: Table, n: int, j: nat)
    requires Valid(t) && AllListable(syn, t.rows) && FoundAt(t, n, j) && j < |t.rows| && t.rows[j].kind == 'R'
    requires CaSerial.SerialFormat(t.rows[j].serial) && CaSerial.Hex2Bn(t.rows[j].serial) == n
    requires var entries := CrlEntries(syn, t.rows);
      forall k: nat :: k < |entries| && entries[k].serial == n ==> FoundAt(t, n, RevokedAt(t.rows)[k])
    ensures ListedOnce(CrlEntries(syn, t.rows), n, RevokedStatus(syn, t.rows[j].revDate))
  {
    var entries := CrlEntries(syn, t.rows);
    var k := EntryOfRow(syn, t, j);
    SameDataOf(syn, t.rows[j]);
    hide Valid, CrlEntries, RevokedStatus, SameData, AllListable, CaSerial.SerialFormat, CaSerial.Hex2Bn;
    assert entries[k].serial == n;
    assert forall m: nat :: m < |entries| && m != k ==> RevokedAt(t.rows)[m] != j;
  }

  lemma AgreeIfCanonical(syn: Syntax, t: Table, n: int)
    requires Valid(t) && AllListable(syn, t.rows)
    requires forall i :: 0 <= i < |t.rows| ==> CaSerial.SerialFormat(t.rows[i].serial)
    requires RevokedCanonical(t.rows)
    ensures AgreeOn(syn, t, n)
  {
    OnlyFoundListed(syn, t, n);
    var entries := CrlEntries(syn, t.rows);
    hide CrlEntries, RevokedStatus, SameData, ListedOnce, AllListable, CaSerial.SerialFormat, CaSerial.Hex2Bn;
    if Lookup(t, n).Some? {
      var j := t.serials[CaSerial.Key(CaSerial.SerialText(n))];
      FoundRow(t, n, j);
      if t.rows[j].kind == 'R' {
        SameDataOf(syn, t.rows[j]);
        FoundListedOnce(syn, t, n, j);
      } else {
        assert forall k: nat :: k < |entries| ==> RevokedAt(t.rows)[k] != j;
      }
    }
  }

  lemma DisagreeIfNot(syn: Syntax, t: Table, i: nat)
    requires Valid(t) && AllListable(syn, t.rows) && i < |t.rows| && t.rows[i].kind == 'R'
    requires forall i :: 0 <= i < |t.rows| ==> CaSerial.SerialFormat(t.rows[i].serial)
    requires !CaSerial.Canonical(t.rows[i].serial)
    ensures !AgreeOn(syn, t, CaSerial.Hex2Bn(t.rows[i].serial))
  {
    var n := CaSerial.Hex2Bn(t.rows[i].serial);
    var entries, status := CrlEntries(syn, t.rows), StatusOf(syn, t, true, n);
    var k := EntryOfRow(syn, t, i);
    assert entries[k].serial == n;
    assert Listed(entries, n);
    if status.Some? && status.value.Revoked? {
      var j := t.serials[CaSerial.Key(CaSerial.SerialText(n))];
      FoundRow(t, n, j);
      var m := EntryOfRow(syn, t, j);
      assert entries[m].serial == n && m != k;
    }
  }

  /**
   * The responder and the list agree on every serial exactly when the serial fields of the revoked rows
   * are canonical, which the load check does not demand.
   */
  lemma AgreeIffCanonical(syn: Syntax, timeOk: seq<char> -> bool, t: Table)
    requires Valid(t) && AllLoadOk(syn, timeOk, t.rows)
    ensures AllListable(syn, t.rows)
    ensures (forall i :: 0 <= i < |t.rows| ==> CaSerial.SerialFormat(t.rows[i].serial))
    ensures (forall n :: AgreeOn(syn, t, n)) <==> RevokedCanonical(t.rows)
  {
    assert forall i :: 0 <= i < |t.rows| ==> LoadOk(syn, timeOk, t.rows[i]) && Listable(syn, t.rows[i]);
    hide Valid, AgreeOn, AllLoadOk, Listable, CaSerial.Canonical, CaSerial.SerialFormat, CaSerial.Hex2Bn;
    if RevokedCanonical(t.rows) {
      forall n ensures AgreeOn(syn, t, n) { AgreeIfCanonical(syn, t, n); }
    } else {
      var i :| 0 <= i < |t.rows| && t.rows[i].kind == 'R' && !CaSerial.Canonical(t.rows[i].serial);
      DisagreeIfNot(syn, t, i);
    }
  }

  /** A revoked row written in lower case: it is listed under 10, and the responder does not know 10. */
  lemma LowerCaseDisagreement(syn: Syntax, timeOk: seq<char> -> bool, expDate: seq<char>, revDate: seq<char>)
    requires Unpack(syn, revDate).Some? && timeOk(expDate)
    ensures var row := Row('R', expDate, revDate, "0a", "/CN=x");
      var t := Table([row], map[CaSerial.Key("0a") := 0], map[], true);
      Valid(t) && AllLoadOk(syn, timeOk, t.rows) && AllListable(syn, t.rows) && Listed(CrlEntries(syn, t.rows), 10) &&
      StatusOf(syn, t, true, 10) == Some(Unknown)
  {
    var row := Row('R', expDate, revDate, "0a", "/CN=x");
    var t := Table([row], map[CaSerial.Key("0a") := 0], map[], true);
    CaSerial.LowerCaseExample();
    assert Listable(syn, row);
    assert Valid(t);
    var k := EntryOfRow(syn, t, 0);
    assert CrlEntries(syn, t.rows)[k].serial == 10;
  }

  /**
   * With canonical serials: V gives good, R with a readable time gives revoked, an absent serial unknown, and
   * any other row no answer.
   */
  lemma StatusMeaning(syn: Syntax, t: Table, n: int)
    requires Valid(t) && forall i :: 0 <= i < |t.rows| ==> CaSerial.SerialFormat(t.rows[i].serial)
    requires forall i :: 0 <= i < |t.rows| ==> CaSerial.Canonical(t.rows[i].serial)
    ensures var status := StatusOf(syn, t, true, n);
      (status == Some(Good) <==>
        exists i :: 0 <= i < |t.rows| && CaSerial.Hex2Bn(t.rows[i].serial) == n && t.rows[i].kind == 'V') &&
      (status == Some(Unknown) <==> forall i :: 0 <= i < |t.rows| ==> CaSerial.Hex2Bn(t.rows[i].serial) != n) &&
      ((status.Some? && status.value.Revoked?) <==>
        exists i :: 0 <= i < |t.rows| && CaSerial.Hex2Bn(t.rows[i].serial) == n && t.rows[i].kind == 'R' &&
                    TimeReadable(syn, t.rows[i].revDate)) &&
      (status == None <==>
        exists i :: 0 <= i < |t.rows| && CaSerial.Hex2Bn(t.rows[i].serial) == n && !Answerable(syn, t.rows[i]))
  {
    forall i: nat | i < |t.rows| && CaSerial.Hex2Bn(t.rows[i].serial) == n ensures FoundAt(t, n, i) {
      CanonicalFound(t, i);
    }
    if Lookup(t, n).Some? {
      FoundRow(t, n, t.serials[CaSerial.Key(CaSerial.SerialText(n))]);
    }
    hide CaSerial.Hex2Bn, CaSerial.SerialFormat, CaSerial.Canonical, Valid, Unpack, Fields;
  }

  /** Whatever the table holds, an id of an unknown issuer is answered with unknown. */
  lemma NoIssuerUnknown(syn: Syntax, t: Table, n: int)
    requires Valid(t)
    ensures StatusOf(syn, t, false, n) == Some(Unknown)
  {
    hide Valid, Lookup;
  }

  /** The answers are in the order of the ids, each with its own status. */
  lemma {:induction false} SinglesAppend(syn: Syntax, t: Table, ca: seq<string>, sameIssuer: (string, string) -> bool,
                                         ids: seq<CertId>, id: CertId)
    requires Valid(t)
    ensures var status := StatusOf(syn, t, IssuerFound(ca, sameIssuer, id), id.serial);
      Singles(syn, t, ca, sameIssuer, ids + [id]) ==
        Singles(syn, t, ca, sameIssuer, ids) + if status.Some? then [(id, status.value)] else []
    ensures Singles(syn, t, ca, sameIssuer, []) == []
  {
    hide Valid, StatusOf, IssuerFound;
    assert (ids + [id])[..|ids|] == ids;
  }

  /** A row revoked for good is read as its revocation by both sides, spelled out by kind. */
  ghost predicate BothSay(syn: Syntax, row: Row, time: seq<char>, reason: int, invalidity: Option<seq<char>>,
                          hold: Option<seq<char>>)
  {
    row.kind == 'R' && Listable(syn, row) && Answerable(syn, row) &&
    EntryOf(syn, row) == CrlEntry(CaSerial.Hex2Bn(row.serial), time, if reason == -1 then None else Some(reason),
                                  invalidity, hold) &&
    RevokedStatus(syn, row.revDate) == Revoked(time, reason, invalidity, hold)
  }

  lemma SaidAs(syn: Syntax, row: Row, info: RevInfo)
    requires row.kind == 'R' && Unpack(syn, row.revDate) == Some(info) && CaSerial.SerialFormat(row.serial)
    ensures BothSay(syn, row, info.time, info.reason, info.invalidity, info.hold)
  {
    UnpackTime(syn, row.revDate);
    ReasonsAreStandard(syn, row.revDate);
    hide Unpack, CaSerial.Hex2Bn, CaSerial.SerialFormat, TimeReadable;
  }

  lemma RevocationSaid(syn: Syntax, row: Row, now: seq<char>, kind: RevType, arg: seq<char>)
    requires row.kind == 'R' && RevocationText(syn, now, kind, arg) == Some(row.revDate)
    requires ',' !in now && syn.utcTime(now) && CaSerial.SerialFormat(row.serial)
    ensures kind == RevNone ==> BothSay(syn, row, now, -1, None, None)
    ensures kind == Hold ==> BothSay(syn, row, now, 6, None, Some(arg))
    ensures kind == KeyCompromise ==> BothSay(syn, row, now, 1, Some(arg), None)
    ensures kind == CaCompromise ==> BothSay(syn, row, now, 2, Some(arg), None)
    ensures forall code :: kind == CrlReason && ReasonNumber(arg, code) ==> BothSay(syn, row, now, code, None, None)
  {
    hide RecordOf, RevocationText, Unpack, ReasonNumber, CaSerial.SerialFormat, BothSay;
    RoundTrip(syn, now, kind, arg);
    RecordOfIs(now, kind, arg);
    SaidAs(syn, row, RecordOf(now, kind, arg));
  }

  /** Rows that the load check refuses, and one that it takes. */
  lemma LoadExamples(syn: Syntax, timeOk: seq<char> -> bool, row: Row)
    ensures row.kind != 'R' && row.revDate != [] ==> !LoadOk(syn, timeOk, row)
    ensures row.kind == 'R' && Unpack(syn, row.revDate).None? ==> !LoadOk(syn, timeOk, row)
    ensures !timeOk(row.expDate) ==> !LoadOk(syn, timeOk, row)
    ensures row.serial in {"", "-", "1", "-1", "101", "0g", "1-23"} ==> !LoadOk(syn, timeOk, row)
    ensures row.serial in {"01", "-01", "aF", "0123"} && timeOk(row.expDate) && row.kind == 'V' && row.revDate == [] ==>
      LoadOk(syn, timeOk, row)
  {
    hide Unpack;
  }

  /** An expired certificate: a request for its serial gets a response with no answer in it. */
  lemma ExpiredUnanswered(syn: Syntax, expDate: seq<char>, id: CertId, ca: seq<string>,
                          sameIssuer: (string, string) -> bool)
    requires IssuerFound(ca, sameIssuer, id)
    ensures var row := Row('E', expDate, [], CaSerial.SerialText(id.serial), "/CN=x");
      var t := Table([row], map[SerialKey(row) := 0], map[], false);
      Valid(t) && Singles(syn, t, ca, sameIssuer, [id]) == []
  {
    var row := Row('E', expDate, [], CaSerial.SerialText(id.serial), "/CN=x");
    var t := Table([row], map[SerialKey(row) := 0], map[], false);
    OneUnanswered(syn, t, row, id, ca, sameIssuer);
  }

  /** A certificate is answered for after its revocation exactly if the current time then was a UTCTIME. */
  lemma RevokedAnsweredIff(t: Table, syn: Syntax, now: seq<char>, cert: Cert, kind: RevType, arg: seq<char>)
    requires Valid(t) && RevokeTable(t, syn, now, cert, kind, arg).0 && kind != RevValid && ',' !in now
    ensures var u := RevokeTable(t, syn, now, cert, kind, arg).1;
      Valid(u) && (StatusOf(syn, u, true, cert.serial).Some? <==> syn.utcTime(now))
  {
    RevokeValid(t, syn, now, cert, kind, arg);
    RevokeExact(t, syn, now, cert, kind, arg);
    TextTime(syn, now, kind, arg);
    hide RevokeTable, RevocationText, Fields, StatusOf, Valid, RevokedAs;
    var u := RevokeTable(t, syn, now, cert, kind, arg).1;
    var i: nat :| i < |u.rows| && RevokedAs(u.rows[i], cert, RevocationText(syn, now, kind, arg));
    RowAnswered(u, syn, cert, i, RevocationText(syn, now, kind, arg));
  }

  lemma RowAnswered(t: Table, syn: Syntax, cert: Cert, i: nat, text: Option<seq<char>>)
    requires Valid(t) && i < |t.rows| && RevokedAs(t.rows[i], cert, text)
    ensures text.Some? && (StatusOf(syn, t, true, cert.serial).Some? <==> TimeReadable(syn, text.value))
  {
    hide TimeReadable, RevokedStatus, RowName, CaSerial.Key, CaSerial.SerialText;
    assert t.serials[SerialKey(NewRow(cert))] == i;
    assert Lookup(t, cert.serial) == Some(t.rows[i]);
  }

  lemma LateRow(syn: Syntax, row: Row)
    requires row.kind == 'R' && ',' !in row.revDate && !syn.utcTime(row.revDate)
    ensures !Answerable(syn, row)
  {
    FieldsOne(row.revDate);
  }

  /** A certificate revoked in 2050: a request for its serial gets a response with no answer in it. */
  lemma LateRevocationUnanswered(expDate: seq<char>, id: CertId, ca: seq<string>, sameIssuer: (string, string) -> bool)
    requires IssuerFound(ca, sameIssuer, id)
    ensures var syn := Syntax(s => |s| == 13, s => |s| == 15, _ => true);
      var row := Row('R', expDate, "20500101000000Z", CaSerial.SerialText(id.serial), "/CN=x");
      var t := Table([row], map[SerialKey(row) := 0], map[], false);
      Valid(t) && Singles(syn, t, ca, sameIssuer, [id]) == []
  {
    var syn := Syntax(s => |s| == 13, s => |s| == 15, _ => true);
    var row := Row('R', expDate, "20500101000000Z", CaSerial.SerialText(id.serial), "/CN=x");
    var t := Table([row], map[SerialKey(row) := 0], map[], false);
    hide Answerable, Singles, Valid;
    assert ',' !in "20500101000000Z";
    LateRow(syn, row);
    OneUnanswered(syn, t, row, id, ca, sameIssuer);
  }

  lemma OneUnanswered(syn: Syntax, t: Table, row: Row, id: CertId, ca: seq<string>, sameIssuer: (string, string) -> bool)
    requires t == Table([row], map[SerialKey(row) := 0], map[], false) && row.serial == CaSerial.SerialText(id.serial)
    requires IssuerFound(ca, sameIssuer, id) && !Answerable(syn, row)
    ensures Valid(t) && Singles(syn, t, ca, sameIssuer, [id]) == []
  {
    assert [id][..0] == [];
    assert StatusOf(syn, t, true, id.serial) == None;
    assert Singles(syn, t, ca, sameIssuer, []) == [];
  }

  /** If the id is found under a known issuer, its row leads to an answer. */
  ghost predicate LeadsToAnswer(syn: Syntax, t: Table, ca: seq<string>, sameIssuer: (string, string) -> bool, id: CertId)
    requires Valid(t)
  {
    IssuerFound(ca, sameIssuer, id) && Lookup(t, id.serial).Some? ==> Answerable(syn, Lookup(t, id.serial).value)
  }

  /** Every id is answered exactly when each that is found under a known issuer leads to an answer. */
  lemma {:induction false} AllAnswered(syn: Syntax, t: Table, ca: seq<string>, sameIssuer: (string, string) -> bool,
                                       ids: seq<CertId>)
    requires Valid(t)
    ensures |Singles(syn, t, ca, sameIssuer, ids)| <= |ids|
    ensures |Singles(syn, t, ca, sameIssuer, ids)| == |ids| <==>
      forall i :: 0 <= i < |ids| ==> LeadsToAnswer(syn, t, ca, sameIssuer, ids[i])
  {
    hide Valid, IssuerFound, Lookup, StatusOf, Singles, LeadsToAnswer;
    if ids == [] {
      NoSingles(syn, t, ca, sameIssuer);
    } else {
      var front, id := ids[..|ids| - 1], ids[|ids| - 1];
      assert ids == front + [id];
      AllAnswered(syn, t, ca, sameIssuer, front);
      SinglesAppend(syn, t, ca, sameIssuer, front, id);
      AnsweredIff(syn, t, ca, sameIssuer, id);
    }
  }

  lemma NoSingles(syn: Syntax, t: Table, ca: seq<string>, sameIssuer: (string, string) -> bool)
    requires Valid(t)
    ensures Singles(syn, t, ca, sameIssuer, []) == []
  {}

  lemma AnsweredIff(syn: Syntax, t: Table, ca: seq<string>, sameIssuer: (string, string) -> bool, id: CertId)
    requires Valid(t)
    ensures StatusOf(syn, t, IssuerFound(ca, sameIssuer, id), id.serial).Some? <==>
      LeadsToAnswer(syn, t, ca, sameIssuer, id)
  {
    hide Valid, IssuerFound, Lookup, StatusOf, Answerable;
    NotAnswered(syn, t, IssuerFound(ca, sameIssuer, id), id.serial);
  }

  lemma NotAnswered(syn: Syntax, t: Table, issuerFound: bool, serial: int)
    requires Valid(t)
    ensures StatusOf(syn, t, issuerFound, serial) == None <==>
      issuerFound && Lookup(t, serial).Some? && !Answerable(syn, Lookup(t, serial).value)
  {
    hide Valid, Lookup, RevokedStatus, Answerable;
  }
}
