// The CA's table of certificates with its two indexes, and the operations that change it: issue, revoke,
// add a valid certificate, and the expiry pass. A row is a value; the table is a sequence whose rows are
// overwritten in place.

module CaDatabase {
  import opened CString
  import opened Options
  import opened CaRevInfo
  import CaSerial
  import CaExpiry

  datatype Row = Row(kind: char, expDate: seq<char>, revDate: seq<char>, serial: seq<char>, name: seq<char>)

  /** The parts of a certificate that the database uses. */
  datatype Cert = Cert(serial: int, subject: seq<char>, notAfter: seq<char>)

  function SerialKey(row: Row): seq<char>
  {
    CaSerial.Key(row.serial)
  }

  /** An empty subject is replaced by the serial number. */
  function RowName(cert: Cert): seq<char>
  {
    if cert.subject == [] then CaSerial.SerialText(cert.serial) else cert.subject
  }

  function NewRow(cert: Cert): Row
  {
    Row('V', cert.notAfter, [], CaSerial.SerialText(cert.serial), RowName(cert))
  }

  // ---- what the load check demands, and what no operation may undo ----

  /** One row as ca_main accepts it when the index file is loaded. */
  predicate LoadOk(syn: Syntax, timeOk: seq<char> -> bool, row: Row)
  {
    (row.kind != 'R' ==> row.revDate == []) &&
    (row.kind == 'R' ==> Unpack(syn, row.revDate).Some?) &&
    timeOk(row.expDate) && CaSerial.SerialFormat(row.serial)
  }

  ghost predicate AllLoadOk(syn: Syntax, timeOk: seq<char> -> bool, rows: seq<Row>)
  {
    forall i :: 0 <= i < |rows| ==> LoadOk(syn, timeOk, rows[i])
  }

  ghost predicate UniqueSerials(rows: seq<Row>)
  {
    forall i, j :: 0 <= i < j < |rows| ==> SerialKey(rows[i]) != SerialKey(rows[j])
  }

  ghost predicate UniqueValidNames(rows: seq<Row>)
  {
    forall i, j :: 0 <= i < j < |rows| && rows[i].kind == 'V' == rows[j].kind ==> rows[i].name != rows[j].name
  }

  /** How one row may develop: its identity stays, V may become E, and any row but R may become R. */
  predicate RowDevelops(before: Row, after: Row)
  {
    after.serial == before.serial && after.name == before.name && after.expDate == before.expDate &&
    (after == before || (before.kind == 'V' && after.kind == 'E' && after.revDate == before.revDate) ||
     (before.kind != 'R' && after.kind == 'R'))
  }

  /** No row is lost, moved or rewritten against the rules. */
  ghost predicate Develops(before: seq<Row>, after: seq<Row>)
  {
    |before| <= |after| && forall i :: 0 <= i < |before| ==> RowDevelops(before[i], after[i])
  }

  lemma DevelopsTransitive(a: seq<Row>, b: seq<Row>, c: seq<Row>)
    requires Develops(a, b) && Develops(b, c)
    ensures Develops(a, c)
  {
    forall i | 0 <= i < |a| ensures RowDevelops(a[i], c[i]) {
      assert RowDevelops(a[i], b[i]) && RowDevelops(b[i], c[i]);
    }
  }

  /** A revoked row and its revocation text never change again. */
  lemma RevokedStays(before: seq<Row>, after: seq<Row>, i: nat)
    requires Develops(before, after) && i < |before| && before[i].kind == 'R'
    ensures after[i] == before[i]
  {
    assert RowDevelops(before[i], after[i]);
  }

  /** With rows in V, E and R only, the status moves only from V to E, V to R or E to R. */
  lemma StatusMoves(before: seq<Row>, after: seq<Row>, i: nat)
    requires Develops(before, after) && i < |before| && before[i].kind in {'V', 'E', 'R'}
    requires after[i].kind != before[i].kind
    ensures (before[i].kind, after[i].kind) in {('V', 'E'), ('V', 'R'), ('E', 'R')}
  {
    assert RowDevelops(before[i], after[i]);
  }

  // ---- the expiry pass as a function ----

  function Expire(row: Row, now: seq<char>): Row
  {
    if row.kind == 'V' && CaExpiry.MarkedExpired(row.expDate, now) then row.(kind := 'E') else row
  }

  function ExpireAll(rows: seq<Row>, now: seq<char>): (r: seq<Row>)
    ensures |r| == |rows| && forall i :: 0 <= i < |rows| ==> r[i] == Expire(rows[i], now)
  {
    if rows == [] then [] else ExpireAll(rows[..|rows| - 1], now) + [Expire(rows[|rows| - 1], now)]
  }

  /** In how many rows two tables of the same length differ. */
  function Changed(a: seq<Row>, b: seq<Row>): nat
    requires |a| == |b|
  {
    if a == [] then 0
    else Changed(a[..|a| - 1], b[..|b| - 1]) + if a[|a| - 1] != b[|b| - 1] then 1 else 0
  }

  function ChangedAt(a: seq<Row>, b: seq<Row>): set<nat>
    requires |a| == |b|
  {
    set i: nat | i < |a| && a[i] != b[i]
  }

  /** That is the number of places where they differ. */
  lemma {:induction false} ChangedIs(a: seq<Row>, b: seq<Row>)
    requires |a| == |b|
    ensures Changed(a, b) == |ChangedAt(a, b)|
  {
    if a != [] {
      var k: nat := |a| - 1;
      ChangedIs(a[..k], b[..k]);
      var front := ChangedAt(a[..k], b[..k]);
      assert k !in front;
      assert ChangedAt(a, b) == if a[k] != b[k] then front + {k} else front;
    }
  }

  lemma {:induction false} ChangedNone(a: seq<Row>)
    ensures Changed(a, a) == 0
  {
    if a != [] { ChangedNone(a[..|a| - 1]); }
  }

  /** A second pass at the same time changes nothing. */
  lemma ExpireTwice(rows: seq<Row>, now: seq<char>)
    ensures ExpireAll(ExpireAll(rows, now), now) == ExpireAll(rows, now)
    ensures Changed(ExpireAll(rows, now), ExpireAll(ExpireAll(rows, now), now)) == 0
  {
    var once := ExpireAll(rows, now);
    assert forall i :: 0 <= i < |rows| ==> Expire(once[i], now) == once[i];
    assert ExpireAll(once, now) == once;
    ChangedNone(once);
  }

  /** After the pass no valid row with a UTCTIME date has passed its date, and only such rows were changed. */
  lemma ExpireIsExact(rows: seq<Row>, now: seq<char>, i: nat)
    requires i < |rows| && CaExpiry.IsUtcTime(now) && CaExpiry.IsUtcTime(rows[i].expDate)
    ensures ExpireAll(rows, now)[i].kind == (
      if rows[i].kind == 'V' && CaExpiry.NotAfter(CaExpiry.UtcInstant(rows[i].expDate), CaExpiry.UtcInstant(now))
      then 'E' else rows[i].kind)
  {
    CaExpiry.ExpiryIsChronological(rows[i].expDate, now);
  }

  // ---- the table with its indexes, as a value ----

  datatype Table = Table(rows: seq<Row>, serials: map<seq<char>, nat>, names: map<seq<char>, nat>, uniqueSubject: bool)

  /** The serial index holds exactly the rows. */
  ghost predicate SerialsIndexed(t: Table)
  {
    (forall i :: 0 <= i < |t.rows| ==> SerialKey(t.rows[i]) in t.serials && t.serials[SerialKey(t.rows[i])] == i) &&
    (forall k :: k in t.serials ==> t.serials[k] < |t.rows| && SerialKey(t.rows[t.serials[k]]) == k)
  }

  /** The name index holds the valid rows, and keeps rows that were valid when they were entered. */
  ghost predicate NamesIndexed(t: Table)
  {
    (forall i :: 0 <= i < |t.rows| && t.rows[i].kind == 'V' ==>
      t.rows[i].name in t.names && t.names[t.rows[i].name] == i) &&
    (forall n :: n in t.names ==> t.names[n] < |t.rows| && t.rows[t.names[n]].name == n)
  }

  ghost predicate Valid(t: Table)
  {
    SerialsIndexed(t) && (t.uniqueSubject ==> NamesIndexed(t))
  }

  /** An indexed table passes the index construction again after it is saved and loaded. */
  lemma ValidIsUnique(t: Table)
    requires Valid(t)
    ensures UniqueSerials(t.rows) && (t.uniqueSubject ==> UniqueValidNames(t.rows))
  {}

  /** TXT_DB_insert of a row that is valid. */
  function InsertRow(t: Table, row: Row): Option<Table>
  {
    if SerialKey(row) in t.serials || (t.uniqueSubject && row.name in t.names) then None
    else Some(Table(t.rows + [row], t.serials[SerialKey(row) := |t.rows|],
                    if t.uniqueSubject then t.names[row.name := |t.rows|] else t.names, t.uniqueSubject))
  }

  lemma InsertValid(t: Table, row: Row)
    requires Valid(t) && InsertRow(t, row).Some? && row.kind == 'V'
    ensures Valid(InsertRow(t, row).value) && Develops(t.rows, InsertRow(t, row).value.rows)
  {
    hide SerialKey;
  }

  /** A row may change its status, away from V, without touching the indexes. */
  lemma SetRowValid(t: Table, i: nat, row: Row)
    requires Valid(t) && i < |t.rows|
    requires row.serial == t.rows[i].serial && row.name == t.rows[i].name
    requires row.kind == 'V' ==> t.rows[i].kind == 'V'
    ensures Valid(t.(rows := t.rows[i := row]))
  {
    assert SerialKey(row) == SerialKey(t.rows[i]);
    hide SerialKey;
  }

  /** The revocation of a certificate that has a row. */
  function RevokeRow(row: Row, syn: Syntax, now: seq<char>, cert: Cert, kind: RevType, arg: seq<char>): Option<Row>
  {
    if row.name != RowName(cert) || kind == RevValid || row.kind == 'R' then None
    else
      match RevocationText(syn, now, kind, arg)
      case None => None
      case Some(text) => Some(row.(kind := 'R', revDate := text))
  }

  /** Revoking in a table that has the serial, with whether it succeeds. */
  function RevokeFound(t: Table, syn: Syntax, now: seq<char>, cert: Cert, kind: RevType, arg: seq<char>): (bool, Table)
    requires SerialKey(NewRow(cert)) in t.serials && t.serials[SerialKey(NewRow(cert))] < |t.rows|
  {
    var i := t.serials[SerialKey(NewRow(cert))];
    match RevokeRow(t.rows[i], syn, now, cert, kind, arg)
    case None => (false, t)
    case Some(row) => (true, t.(rows := t.rows[i := row]))
  }

  /** Revoking or adding a certificate: one that is unknown is entered first, and the entry stays. */
  ghost function RevokeTable(t: Table, syn: Syntax, now: seq<char>, cert: Cert, kind: RevType, arg: seq<char>)
    : (bool, Table)
    requires Valid(t)
  {
    if SerialKey(NewRow(cert)) in t.serials then RevokeFound(t, syn, now, cert, kind, arg)
    else
      match InsertRow(t, NewRow(cert))
      case None => (false, t)
      case Some(u) => if kind == RevValid then (true, u) else RevokeFound(u, syn, now, cert, kind, arg)
  }

  lemma RevokeFoundValid(t: Table, syn: Syntax, now: seq<char>, cert: Cert, kind: RevType, arg: seq<char>)
    requires Valid(t) && SerialKey(NewRow(cert)) in t.serials
    ensures var u := RevokeFound(t, syn, now, cert, kind, arg).1; Valid(u) && Develops(t.rows, u.rows)
  {
    var i := t.serials[SerialKey(NewRow(cert))];
    var r := RevokeRow(t.rows[i], syn, now, cert, kind, arg);
    if r.Some? { SetRowValid(t, i, r.value); }
  }

  lemma RevokeValid(t: Table, syn: Syntax, now: seq<char>, cert: Cert, kind: RevType, arg: seq<char>)
    requires Valid(t)
    ensures var u := RevokeTable(t, syn, now, cert, kind, arg).1; Valid(u) && Develops(t.rows, u.rows)
  {
    hide RevokeFound, SerialKey, NewRow;
    if SerialKey(NewRow(cert)) in t.serials {
      RevokeFoundValid(t, syn, now, cert, kind, arg);
    } else {
      var u := InsertRow(t, NewRow(cert));
      if u.Some? {
        NewRowIsValid(cert);
        InsertValid(t, NewRow(cert));
        if kind != RevValid {
          RevokeFoundValid(u.value, syn, now, cert, kind, arg);
          DevelopsTransitive(t.rows, u.value.rows, RevokeFound(u.value, syn, now, cert, kind, arg).1.rows);
        }
      }
    }
  }

  /** The row of a certificate, revoked with the given text. */
  predicate RevokedAs(row: Row, cert: Cert, text: Option<seq<char>>)
  {
    row.kind == 'R' && SerialKey(row) == SerialKey(NewRow(cert)) && row.name == RowName(cert) && text == Some(row.revDate)
  }

  /** Going from one table to the other revoked the certificate with the given text. */
  ghost predicate Revokes(before: seq<Row>, after: seq<Row>, cert: Cert, text: Option<seq<char>>)
  {
    exists i :: 0 <= i < |after| && RevokedAs(after[i], cert, text) && (i < |before| ==> before[i].kind != 'R')
  }

  lemma RevokeFoundExact(t: Table, syn: Syntax, now: seq<char>, cert: Cert, kind: RevType, arg: seq<char>)
    requires Valid(t) && SerialKey(NewRow(cert)) in t.serials
    ensures var (ok, u) := RevokeFound(t, syn, now, cert, kind, arg);
      |u.rows| == |t.rows| && (!ok ==> u == t) &&
      (forall j :: 0 <= j < |t.rows| && SerialKey(t.rows[j]) != SerialKey(NewRow(cert)) ==> u.rows[j] == t.rows[j]) &&
      (ok ==> kind != RevValid && Revokes(t.rows, u.rows, cert, RevocationText(syn, now, kind, arg)))
  {
    hide RevocationText, NewRow, SerialKey, RowName;
    var i := t.serials[SerialKey(NewRow(cert))];
    var r := RevokeRow(t.rows[i], syn, now, cert, kind, arg);
    if r.Some? {
      SameSerialKey(t.rows[i], r.value);
      assert t.rows[i := r.value][i] == r.value;
    }
  }

  /**
   * What a revocation changes. Only the row of that serial can change, and at most one row is added, for a
   * serial that had none. Success leaves the certificate revoked with the text of this revocation, and
   * its row was not revoked before; an entry made on the way to a failure stays.
   */
  lemma RevokeExact(t: Table, syn: Syntax, now: seq<char>, cert: Cert, kind: RevType, arg: seq<char>)
    requires Valid(t)
    ensures var (ok, u) := RevokeTable(t, syn, now, cert, kind, arg);
      var key, text := SerialKey(NewRow(cert)), RevocationText(syn, now, kind, arg);
      (|u.rows| == |t.rows| || (|u.rows| == |t.rows| + 1 && key !in t.serials)) &&
      (forall j :: 0 <= j < |t.rows| && SerialKey(t.rows[j]) != key ==> u.rows[j] == t.rows[j]) &&
      (!ok ==> u.rows == t.rows || u.rows == t.rows + [NewRow(cert)]) &&
      (ok ==> if kind == RevValid then u.rows == t.rows + [NewRow(cert)] else Revokes(t.rows, u.rows, cert, text))
  {
    hide RevocationText, NewRow, SerialKey, RowName, RevokeFound, Revokes;
    var row := NewRow(cert);
    if SerialKey(row) in t.serials {
      RevokeFoundExact(t, syn, now, cert, kind, arg);
    } else if InsertRow(t, row).Some? {
      var u := InsertRow(t, row).value;
      NewRowIsValid(cert);
      InsertValid(t, row);
      assert forall j :: 0 <= j < |t.rows| ==> u.rows[j] == t.rows[j];
      hide Valid;
      if kind != RevValid {
        RevokeFoundExact(u, syn, now, cert, kind, arg);
        RevokesLonger(t.rows, row, RevokeFound(u, syn, now, cert, kind, arg).1.rows, cert,
                      RevocationText(syn, now, kind, arg));
      }
    }
  }

  lemma RevokesLonger(before: seq<Row>, row: Row, after: seq<Row>, cert: Cert, text: Option<seq<char>>)
    ensures Revokes(before + [row], after, cert, text) ==> Revokes(before, after, cert, text)
  {
    hide RevokedAs;
  }

  lemma SameSerialKey(a: Row, b: Row)
    ensures a.serial == b.serial ==> SerialKey(a) == SerialKey(b)
  {}

  /** A certificate is revoked once: a second revocation of any kind fails and changes nothing. */
  lemma RevokeOnce(t: Table, syn: Syntax, now: seq<char>, cert: Cert, kind: RevType, arg: seq<char>, later: seq<char>,
                   again: RevType, value: seq<char>)
    requires Valid(t) && RevokeTable(t, syn, now, cert, kind, arg).0 && kind != RevValid
    ensures var u := RevokeTable(t, syn, now, cert, kind, arg).1;
      Valid(u) && RevokeTable(u, syn, later, cert, again, value) == (false, u)
  {
    RevokeValid(t, syn, now, cert, kind, arg);
    RevokeExact(t, syn, now, cert, kind, arg);
    hide RevocationText, NewRow, SerialKey, RowName;
    var u := RevokeTable(t, syn, now, cert, kind, arg).1;
    hide RevokeTable;
    var i :| 0 <= i < |u.rows| && RevokedAs(u.rows[i], cert, RevocationText(syn, now, kind, arg));
    assert u.serials[SerialKey(NewRow(cert))] == i;
    FoundIsRevoked(u, syn, later, cert, again, value);
  }

  lemma FoundIsRevoked(t: Table, syn: Syntax, now: seq<char>, cert: Cert, kind: RevType, arg: seq<char>)
    requires Valid(t) && SerialKey(NewRow(cert)) in t.serials
    requires t.rows[t.serials[SerialKey(NewRow(cert))]].kind == 'R'
    ensures RevokeTable(t, syn, now, cert, kind, arg) == (false, t)
  {
    hide RevocationText;
  }

  lemma NewRowIsValid(cert: Cert)
    ensures NewRow(cert).kind == 'V'
  {}

  // ---- what succeeds ----

  /** The row of a new certificate, spelled out. */
  lemma NewRowIs(cert: Cert)
    ensures NewRow(cert) ==
      Row('V', cert.notAfter, [], CaSerial.SerialText(cert.serial),
          if cert.subject == [] then CaSerial.SerialText(cert.serial) else cert.subject)
  {
    hide CaSerial.SerialText;
  }

  /** The serial has no row, and where subjects are unique the name is not in its index. */
  ghost predicate Free(t: Table, cert: Cert)
  {
    (forall i :: 0 <= i < |t.rows| ==> SerialKey(t.rows[i]) != CaSerial.Key(CaSerial.SerialText(cert.serial))) &&
    (t.uniqueSubject ==>
      (if cert.subject == [] then CaSerial.SerialText(cert.serial) else cert.subject) !in t.names)
  }

  lemma InsertIff(t: Table, cert: Cert)
    requires Valid(t)
    ensures InsertRow(t, NewRow(cert)).Some? <==> Free(t, cert)
    ensures InsertRow(t, NewRow(cert)).Some? ==> InsertRow(t, NewRow(cert)).value.rows == t.rows + [NewRow(cert)]
  {
    NewRowIs(cert);
    var key := SerialKey(NewRow(cert));
    hide SerialKey, NewRow, CaSerial.SerialText, CaSerial.Key;
    KeyOfNewRow(cert);
    if key in t.serials { assert SerialKey(t.rows[t.serials[key]]) == key; }
  }

  lemma KeyOfNewRow(cert: Cert)
    ensures SerialKey(NewRow(cert)) == CaSerial.Key(CaSerial.SerialText(cert.serial))
  {}

  /** A certificate is issued exactly if it is free, accepted and signed; it is no hard failure to decline it. */
  lemma IssueIff(t: Table, cert: Cert, accepted: bool, signed: bool)
    requires Valid(t)
    ensures var (ok, u) := IssueTable(t, cert, accepted, signed);
      (ok == 1 <==> Free(t, cert) && accepted && signed) && (ok == 0 <==> Free(t, cert) && !accepted) &&
      (ok == -1 <==> !Free(t, cert) || (accepted && !signed)) && -1 <= ok <= 1 &&
      u.rows == if ok == 1 then t.rows + [NewRow(cert)] else t.rows
  {
    InsertIff(t, cert);
    hide Valid, Free, NewRow, InsertRow;
  }

  /** The certificate's serial has row i. */
  predicate HasRow(t: Table, cert: Cert, i: int)
  {
    0 <= i < |t.rows| && SerialKey(t.rows[i]) == CaSerial.Key(CaSerial.SerialText(cert.serial))
  }

  /** That row has the certificate's name and is not revoked. */
  predicate CanRevoke(t: Table, cert: Cert, i: int)
  {
    HasRow(t, cert, i) && t.rows[i].kind != 'R' &&
    t.rows[i].name == if cert.subject == [] then CaSerial.SerialText(cert.serial) else cert.subject
  }

  /**
   * When a revocation succeeds. With a row for the serial: it has the certificate's name and is not revoked,
   * expired or not, and the argument is good. Without one: the certificate is free, and is only to be added
   * or the argument is good.
   */
  ghost predicate Revocable(t: Table, syn: Syntax, cert: Cert, kind: RevType, arg: seq<char>)
  {
    if exists i :: HasRow(t, cert, i) then
      kind != RevValid && ArgumentGood(syn, kind, arg) && exists i :: CanRevoke(t, cert, i)
    else
      Free(t, cert) && (kind == RevValid || ArgumentGood(syn, kind, arg))
  }

  lemma RevokeIff(t: Table, syn: Syntax, now: seq<char>, cert: Cert, kind: RevType, arg: seq<char>)
    requires Valid(t)
    ensures RevokeTable(t, syn, now, cert, kind, arg).0 <==> Revocable(t, syn, cert, kind, arg)
  {
    TextMadeIff(syn, now, kind, arg);
    KeyOfNewRow(cert);
    NewRowIs(cert);
    InsertIff(t, cert);
    var row, key := NewRow(cert), SerialKey(NewRow(cert));
    hide RevocationText, ArgumentGood, SerialKey, NewRow, CaSerial.SerialText, CaSerial.Key;
    if key in t.serials {
      assert HasRow(t, cert, t.serials[key]);
      FoundIff(t, syn, now, cert, kind, arg);
    } else {
      NoRow(t, cert);
      if InsertRow(t, row).Some? {
        InsertValid(t, row);
        hide Valid;
      }
    }
  }

  lemma NoRow(t: Table, cert: Cert)
    requires Valid(t) && SerialKey(NewRow(cert)) !in t.serials
    ensures forall i :: !HasRow(t, cert, i)
  {
    KeyOfNewRow(cert);
    hide SerialKey, NewRow, CaSerial.SerialText, CaSerial.Key;
  }

  lemma FoundIff(t: Table, syn: Syntax, now: seq<char>, cert: Cert, kind: RevType, arg: seq<char>)
    requires Valid(t) && SerialKey(NewRow(cert)) in t.serials
    ensures RevokeFound(t, syn, now, cert, kind, arg).0 <==>
      kind != RevValid && ArgumentGood(syn, kind, arg) && exists i :: CanRevoke(t, cert, i)
  {
    TextMadeIff(syn, now, kind, arg);
    KeyOfNewRow(cert);
    NewRowIs(cert);
    var j := t.serials[SerialKey(NewRow(cert))];
    assert RowName(cert) == NewRow(cert).name;
    hide RevocationText, ArgumentGood, SerialKey, NewRow, RowName, CaSerial.SerialText, CaSerial.Key;
    assert HasRow(t, cert, j) && forall i :: HasRow(t, cert, i) ==> i == j;
    assert CanRevoke(t, cert, j) <==> t.rows[j].kind != 'R' && t.rows[j].name == RowName(cert);
  }

  // ---- runs ----

  datatype Op =
    | Issue(cert: Cert, accepted: bool, signed: bool)
    | Revoke(cert: Cert, kind: RevType, arg: seq<char>, now: seq<char>)
    | UpdateDb(now: seq<char>)

  /**
   * The end of do_body: -1 for a clash or a failed signature, 0 when the operator declines, 1 when the row
   * was added. A clash is reported before the operator is asked.
   */
  function IssueTable(t: Table, cert: Cert, accepted: bool, signed: bool): (int, Table)
  {
    match InsertRow(t, NewRow(cert))
    case None => (-1, t)
    case Some(u) => if !accepted then (0, t) else if !signed then (-1, t) else (1, u)
  }

  ghost function Apply(syn: Syntax, t: Table, op: Op): Table
    requires Valid(t)
  {
    match op
    case Issue(cert, accepted, signed) => IssueTable(t, cert, accepted, signed).1
    case Revoke(cert, kind, arg, now) => RevokeTable(t, syn, now, cert, kind, arg).1
    case UpdateDb(now) => t.(rows := ExpireAll(t.rows, now))
  }

  lemma ExpireValid(t: Table, now: seq<char>)
    requires Valid(t)
    ensures Valid(t.(rows := ExpireAll(t.rows, now))) && Develops(t.rows, ExpireAll(t.rows, now))
  {
    hide SerialKey, Expire;
    var u := t.(rows := ExpireAll(t.rows, now));
    forall i | 0 <= i < |t.rows|
      ensures SerialKey(u.rows[i]) == SerialKey(t.rows[i]) && u.rows[i].name == t.rows[i].name
      ensures u.rows[i].kind == 'V' ==> t.rows[i].kind == 'V'
      ensures RowDevelops(t.rows[i], u.rows[i])
    {
      ExpireDevelops(t.rows[i], now);
    }
  }

  lemma ExpireDevelops(row: Row, now: seq<char>)
    ensures var r := Expire(row, now);
      RowDevelops(row, r) && SerialKey(r) == SerialKey(row) && r.name == row.name && (r.kind == 'V' ==> row.kind == 'V')
  {
    hide CaExpiry.MarkedExpired;
  }

  lemma ApplyValid(syn: Syntax, t: Table, op: Op)
    requires Valid(t)
    ensures Valid(Apply(syn, t, op)) && Develops(t.rows, Apply(syn, t, op).rows)
    ensures Apply(syn, t, op).uniqueSubject == t.uniqueSubject
  {
    hide Valid, SerialKey;
    match op
    case Issue(cert, _, _) =>
      if InsertRow(t, NewRow(cert)).Some? { InsertValid(t, NewRow(cert)); }
    case Revoke(cert, kind, arg, now) => RevokeValid(t, syn, now, cert, kind, arg);
    case UpdateDb(now) => ExpireValid(t, now);
  }

  /** What an operation must be given for the saved table to load again. */
  predicate OpLoadable(syn: Syntax, timeOk: seq<char> -> bool, op: Op)
  {
    match op
    case Issue(cert, _, _) => timeOk(cert.notAfter)
    case Revoke(cert, _, _, now) => timeOk(cert.notAfter) && syn.utcTime(now) && ',' !in now
    case UpdateDb(_) => true
  }

  lemma NewRowLoadOk(syn: Syntax, timeOk: seq<char> -> bool, cert: Cert)
    requires timeOk(cert.notAfter)
    ensures LoadOk(syn, timeOk, NewRow(cert))
  {
    CaSerial.SerialTextReads(cert.serial);
  }

  lemma RevokeFoundLoadOk(syn: Syntax, timeOk: seq<char> -> bool, t: Table, now: seq<char>, cert: Cert, kind: RevType,
                          arg: seq<char>)
    requires Valid(t) && SerialKey(NewRow(cert)) in t.serials
    requires AllLoadOk(syn, timeOk, t.rows) && syn.utcTime(now) && ',' !in now
    ensures AllLoadOk(syn, timeOk, RevokeFound(t, syn, now, cert, kind, arg).1.rows)
  {
    hide LoadOk, RevokeRow, SerialKey, NewRow;
    var i := t.serials[SerialKey(NewRow(cert))];
    RevokedRowLoadOk(syn, timeOk, t.rows[i], now, cert, kind, arg);
  }

  /** The text of a revocation loads, because it can be read back. */
  lemma RevokedRowLoadOk(syn: Syntax, timeOk: seq<char> -> bool, row: Row, now: seq<char>, cert: Cert, kind: RevType,
                         arg: seq<char>)
    requires LoadOk(syn, timeOk, row) && syn.utcTime(now) && ',' !in now
    ensures RevokeRow(row, syn, now, cert, kind, arg).Some? ==>
      LoadOk(syn, timeOk, RevokeRow(row, syn, now, cert, kind, arg).value)
  {
    hide RevocationText, Unpack, CaSerial.SerialFormat;
    if RevocationText(syn, now, kind, arg).Some? {
      RoundTrip(syn, now, kind, arg);
    }
  }

  lemma RevokeLoadOk(syn: Syntax, timeOk: seq<char> -> bool, t: Table, now: seq<char>, cert: Cert, kind: RevType,
                     arg: seq<char>)
    requires Valid(t) && AllLoadOk(syn, timeOk, t.rows)
    requires timeOk(cert.notAfter) && syn.utcTime(now) && ',' !in now
    ensures AllLoadOk(syn, timeOk, RevokeTable(t, syn, now, cert, kind, arg).1.rows)
  {
    NewRowLoadOk(syn, timeOk, cert);
    NewRowIsValid(cert);
    hide LoadOk, NewRow, SerialKey, RevokeFound;
    if SerialKey(NewRow(cert)) in t.serials {
      RevokeFoundLoadOk(syn, timeOk, t, now, cert, kind, arg);
    } else if InsertRow(t, NewRow(cert)).Some? {
      InsertValid(t, NewRow(cert));
      var u := InsertRow(t, NewRow(cert)).value;
      assert AllLoadOk(syn, timeOk, u.rows);
      if kind != RevValid {
        RevokeFoundLoadOk(syn, timeOk, u, now, cert, kind, arg);
      }
    }
  }

  lemma ApplyLoadOk(syn: Syntax, timeOk: seq<char> -> bool, t: Table, op: Op)
    requires Valid(t) && AllLoadOk(syn, timeOk, t.rows) && OpLoadable(syn, timeOk, op)
    ensures AllLoadOk(syn, timeOk, Apply(syn, t, op).rows)
  {
    hide RevokeTable, LoadOk, NewRow, SerialKey, Expire;
    match op
    case Issue(cert, accepted, signed) =>
      NewRowLoadOk(syn, timeOk, cert);
    case Revoke(cert, kind, arg, now) =>
      RevokeLoadOk(syn, timeOk, t, now, cert, kind, arg);
    case UpdateDb(now) =>
      forall i | 0 <= i < |t.rows| ensures LoadOk(syn, timeOk, ExpireAll(t.rows, now)[i]) {
        ExpireLoadOk(syn, timeOk, t.rows[i], now);
      }
  }

  lemma ExpireLoadOk(syn: Syntax, timeOk: seq<char> -> bool, row: Row, now: seq<char>)
    requires LoadOk(syn, timeOk, row)
    ensures LoadOk(syn, timeOk, Expire(row, now))
  {
    hide Unpack, CaSerial.SerialFormat, CaExpiry.MarkedExpired;
  }

  ghost function Run(syn: Syntax, t: Table, ops: seq<Op>): (u: Table)
    requires Valid(t)
    ensures Valid(u) && u.uniqueSubject == t.uniqueSubject
  {
    if ops == [] then t
    else
      var u := Run(syn, t, ops[..|ops| - 1]);
      ApplyValid(syn, u, ops[|ops| - 1]);
      Apply(syn, u, ops[|ops| - 1])
  }

  /**
   * Over any sequence of operations no row is lost or rewritten against the rules, serials stay unique,
   * and the valid rows keep distinct names where that is configured.
   */
  lemma {:induction false} RunKeepsRows(syn: Syntax, t: Table, ops: seq<Op>)
    requires Valid(t)
    ensures Develops(t.rows, Run(syn, t, ops).rows)
    ensures UniqueSerials(Run(syn, t, ops).rows)
    ensures t.uniqueSubject ==> UniqueValidNames(Run(syn, t, ops).rows)
  {
    ValidIsUnique(Run(syn, t, ops));
    hide Valid, UniqueSerials, UniqueValidNames, Apply;
    if ops != [] {
      var u := Run(syn, t, ops[..|ops| - 1]);
      RunKeepsRows(syn, t, ops[..|ops| - 1]);
      ApplyValid(syn, u, ops[|ops| - 1]);
      DevelopsTransitive(t.rows, u.rows, Run(syn, t, ops).rows);
    }
  }

  /** Every table reached from one that loads will load again: a row has a revocation text exactly when it is R. */
  lemma {:induction false} RunLoadsAgain(syn: Syntax, timeOk: seq<char> -> bool, t: Table, ops: seq<Op>)
    requires Valid(t) && AllLoadOk(syn, timeOk, t.rows)
    requires forall i :: 0 <= i < |ops| ==> OpLoadable(syn, timeOk, ops[i])
    ensures AllLoadOk(syn, timeOk, Run(syn, t, ops).rows)
  {
    hide Valid, AllLoadOk, Apply, OpLoadable;
    if ops != [] {
      var front := ops[..|ops| - 1];
      assert forall i :: 0 <= i < |front| ==> front[i] == ops[i];
      RunLoadsAgain(syn, timeOk, t, front);
      ApplyLoadOk(syn, timeOk, Run(syn, t, front), ops[|ops| - 1]);
    }
  }

  /** So the rows of every run carry a revocation text exactly when they are R. */
  lemma RunRevocationText(syn: Syntax, timeOk: seq<char> -> bool, t: Table, ops: seq<Op>, i: nat)
    requires Valid(t) && AllLoadOk(syn, timeOk, t.rows) && !syn.utcTime([])
    requires forall k :: 0 <= k < |ops| ==> OpLoadable(syn, timeOk, ops[k])
    requires i < |Run(syn, t, ops).rows|
    ensures var row := Run(syn, t, ops).rows[i]; row.revDate != [] <==> row.kind == 'R'
  {
    RunLoadsAgain(syn, timeOk, t, ops);
    hide Valid, Run, OpLoadable, LoadOk;
    RevocationTextIffRevoked(syn, timeOk, Run(syn, t, ops).rows[i]);
  }

  ghost predicate StatusesOk(rows: seq<Row>)
  {
    forall i :: 0 <= i < |rows| ==> rows[i].kind in {'V', 'E', 'R'}
  }

  lemma RevokeStatuses(t: Table, syn: Syntax, now: seq<char>, cert: Cert, kind: RevType, arg: seq<char>)
    requires Valid(t) && StatusesOk(t.rows)
    ensures StatusesOk(RevokeTable(t, syn, now, cert, kind, arg).1.rows)
  {
    NewRowIsValid(cert);
    hide RevocationText, NewRow, SerialKey;
    if SerialKey(NewRow(cert)) !in t.serials && InsertRow(t, NewRow(cert)).Some? {
      assert StatusesOk(InsertRow(t, NewRow(cert)).value.rows);
    }
  }

  lemma ExpireStatuses(rows: seq<Row>, now: seq<char>)
    requires StatusesOk(rows)
    ensures StatusesOk(ExpireAll(rows, now))
  {
    hide Expire;
    forall i | 0 <= i < |rows| ensures ExpireAll(rows, now)[i].kind in {'V', 'E', 'R'} { ExpireAt(rows[i], now); }
  }

  /** No run brings in another status. */
  lemma {:induction false} RunStatuses(syn: Syntax, t: Table, ops: seq<Op>)
    requires Valid(t) && StatusesOk(t.rows)
    ensures StatusesOk(Run(syn, t, ops).rows)
  {
    if ops != [] {
      RunStatuses(syn, t, ops[..|ops| - 1]);
      var u := Run(syn, t, ops[..|ops| - 1]);
      hide Valid, Apply, StatusesOk;
      ApplyStatuses(syn, u, ops[|ops| - 1]);
    }
  }

  lemma ApplyStatuses(syn: Syntax, t: Table, op: Op)
    requires Valid(t) && StatusesOk(t.rows)
    ensures StatusesOk(Apply(syn, t, op).rows)
  {
    hide Valid, RevokeTable, SerialKey, ExpireAll;
    match op
    case Issue(cert, _, _) => NewRowIsValid(cert); hide NewRow;
    case Revoke(cert, kind, arg, now) => RevokeStatuses(t, syn, now, cert, kind, arg);
    case UpdateDb(now) => ExpireStatuses(t.rows, now);
  }

  /** Over any run a revoked row never changes, and a status moves only from V to E, V to R or E to R. */
  lemma RunStatusMoves(syn: Syntax, t: Table, ops: seq<Op>, i: nat)
    requires Valid(t) && StatusesOk(t.rows) && i < |t.rows|
    ensures i < |Run(syn, t, ops).rows|
    ensures var before, after := t.rows[i], Run(syn, t, ops).rows[i];
      (before.kind == 'R' ==> after == before) &&
      (after.kind != before.kind ==> (before.kind, after.kind) in {('V', 'E'), ('V', 'R'), ('E', 'R')})
  {
    RunKeepsRows(syn, t, ops);
    hide Valid, Run, RowDevelops;
    if t.rows[i].kind == 'R' { RevokedStays(t.rows, Run(syn, t, ops).rows, i); }
    if Run(syn, t, ops).rows[i].kind != t.rows[i].kind { StatusMoves(t.rows, Run(syn, t, ops).rows, i); }
  }

  /** Loadable rows carry a revocation text exactly when they are revoked, if an empty text is no time. */
  lemma RevocationTextIffRevoked(syn: Syntax, timeOk: seq<char> -> bool, row: Row)
    requires LoadOk(syn, timeOk, row) && !syn.utcTime([])
    ensures row.revDate != [] <==> row.kind == 'R'
  {
    assert Fields([]).0 == [];
  }

  // ---- the database object ----

  class CaDb {
    const uniqueSubject: bool
    var rows: seq<Row>
    var serialIndex: map<seq<char>, nat>
    var nameIndex: map<seq<char>, nat>

    function View(): Table
      reads this
    {
      Table(rows, serialIndex, nameIndex, uniqueSubject)
    }

    constructor (rows: seq<Row>, uniqueSubject: bool)
      ensures this.rows == rows && this.uniqueSubject == uniqueSubject
    {
      this.rows := rows;
      this.uniqueSubject := uniqueSubject;
      serialIndex, nameIndex := map[], map[];
    }

    /** index_index: build both indexes; a clash is refused. */
    method IndexIndex() returns (ok: bool)
      modifies this`serialIndex, this`nameIndex
      ensures ok <==> UniqueSerials(rows) && (uniqueSubject ==> UniqueValidNames(rows))
      ensures ok ==> Valid(View())
    {
      ok, serialIndex := IndexSerials(rows, uniqueSubject);
      if ok && uniqueSubject {
        ok, nameIndex := IndexNames(rows, serialIndex);
      }
    }

    /** TXT_DB_insert. */
    method Insert(row: Row) returns (ok: bool)
      modifies this
      ensures View() == if InsertRow(old(View()), row).Some? then InsertRow(old(View()), row).value else old(View())
      ensures ok <==> InsertRow(old(View()), row).Some?
    {
      if SerialKey(row) in serialIndex { return false; }
      if uniqueSubject && row.name in nameIndex { return false; }
      serialIndex := serialIndex[SerialKey(row) := |rows|];
      if uniqueSubject {
        nameIndex := nameIndex[row.name := |rows|];
      }
      rows := rows + [row];
      return true;
    }

    /** The clash check, the operator's answer, the signature and the insertion at the end of do_body. */
    method IssueCert(cert: Cert, accepted: bool, signed: bool) returns (ok: int)
      modifies this
      ensures (ok, View()) == IssueTable(old(View()), cert, accepted, signed)
      ensures Valid(old(View())) ==>
        (ok == 1 <==> Free(old(View()), cert) && accepted && signed) && (ok == 0 <==> Free(old(View()), cert) && !accepted)
    {
      if Valid(View()) { IssueIff(View(), cert, accepted, signed); }
      hide Free, Valid;
      var row := NewRow(cert);
      if uniqueSubject && row.name in nameIndex { return -1; }
      if SerialKey(row) in serialIndex { return -1; }
      if !accepted { return 0; }
      if !signed { return -1; }
      var inserted := Insert(row);
      ok := if inserted then 1 else -1;
    }

    /**
     * do_revoke. A certificate that is not in the table is entered first and then, unless it was only to
     * be added as valid, the revocation is tried once more. The retry finds the new row, so it does not
     * retry again: that is the termination measure.
     */
    method RevokeCert(syn: Syntax, now: seq<char>, cert: Cert, kind: RevType, arg: seq<char>) returns (ok: bool)
      requires Valid(View()) && IsText(now) && IsText(arg)
      modifies this
      ensures (ok, View()) == RevokeTable(old(View()), syn, now, cert, kind, arg)
      ensures ok <==> Revocable(old(View()), syn, cert, kind, arg)
      decreases if SerialKey(NewRow(cert)) in serialIndex then 0 else 1
    {
      RevokeIff(View(), syn, now, cert, kind, arg);
      hide RevocationText, Revocable;
      var row := NewRow(cert);
      var key := SerialKey(row);
      if key !in serialIndex {
        ghost var before := View();
        ok := Insert(row);
        if !ok { return; }
        if kind == RevValid { return; }
        InsertValid(before, row);
        ok := RevokeCert(syn, now, cert, kind, arg);
        return;
      }
      hide SerialKey, NewRow, RowName;
      var i := serialIndex[key];
      if rows[i].name != RowName(cert) { return false; }
      if kind == RevValid { return false; }
      if rows[i].kind == 'R' { return false; }
      var revStr := MakeRevocationStr(syn, now, kind, arg);
      if revStr == null { return false; }
      HoldsText(revStr[..], RevocationText(syn, now, kind, arg).value);
      rows := rows[i := rows[i].(kind := 'R', revDate := revStr[..revStr.Length - 1])];
      return true;
    }

    /**
     * do_updatedb. The current time is asked for as a UTCTIME, which there is none of outside 1950 to 2049;
     * then the pass fails before it looks at a row.
     */
    method UpdateIndex(time: Option<seq<char>>) returns (cnt: int)
      modifies this`rows
      ensures time.None? ==> cnt == -1 && rows == old(rows)
      ensures time.Some? ==> rows == ExpireAll(old(rows), time.value) && cnt == Changed(old(rows), rows)
      ensures time.Some? ==> cnt == |set i: nat | i < |rows| && rows[i] != old(rows)[i]|
    {
      hide *;
      if time.None? { return -1; }
      var now := time.value;
      cnt := 0;
      ghost var before, after := rows, ExpireAll(rows, now);
      NothingChanged();
      var i := 0;
      while i < |rows|
        invariant 0 <= i <= |rows| == |before|
        invariant forall k :: 0 <= k < i ==> rows[k] == after[k]
        invariant forall k :: i <= k < |rows| ==> rows[k] == before[k]
        invariant cnt == Changed(before[..i], after[..i])
      {
        ChangedLast(before[..i], after[..i], before[i], after[i]);
        assert before[..i + 1] == before[..i] + [before[i]] && after[..i + 1] == after[..i] + [after[i]];
        if rows[i].kind == 'V' && CaExpiry.MarkedExpired(rows[i].expDate, now) {
          rows := rows[i := rows[i].(kind := 'E')];
          cnt := cnt + 1;
        }
        ExpireAt(before[i], now);
        i := i + 1;
      }
      assert before[..i] == before && after[..i] == after && rows == after;
      ChangedPlaces(before, after);
    }
  }

  lemma ChangedPlaces(a: seq<Row>, b: seq<Row>)
    requires |a| == |b|
    ensures Changed(a, b) == |set i: nat | i < |b| && b[i] != a[i]|
  {
    ChangedIs(a, b);
    assert ChangedAt(a, b) == set i: nat | i < |b| && b[i] != a[i];
  }

  lemma NothingChanged()
    ensures Changed([], []) == 0
  {}

  lemma ExpireAt(row: Row, now: seq<char>)
    ensures Expire(row, now) ==
      if row.kind == 'V' && CaExpiry.MarkedExpired(row.expDate, now) then row.(kind := 'E') else row
  {
    hide CaExpiry.MarkedExpired;
  }

  lemma ChangedLast(a: seq<Row>, b: seq<Row>, x: Row, y: Row)
    requires |a| == |b|
    ensures Changed(a + [x], b + [y]) == Changed(a, b) + if x != y then 1 else 0
  {
    assert (a + [x])[..|a|] == a && (b + [y])[..|b|] == b;
  }

  method IndexSerials(rows: seq<Row>, uniqueSubject: bool) returns (ok: bool, index: map<seq<char>, nat>)
    ensures ok <==> UniqueSerials(rows)
    ensures ok ==> SerialsIndexed(Table(rows, index, map[], uniqueSubject))
  {
    hide SerialKey;
    index := map[];
    var i := 0;
    while i < |rows|
      invariant 0 <= i <= |rows|
      invariant forall j :: 0 <= j < i ==> SerialKey(rows[j]) in index && index[SerialKey(rows[j])] == j
      invariant forall k :: k in index ==> index[k] < i && SerialKey(rows[index[k]]) == k
    {
      if SerialKey(rows[i]) in index {
        assert SerialKey(rows[index[SerialKey(rows[i])]]) == SerialKey(rows[i]);
        return false, index;
      }
      index := index[SerialKey(rows[i]) := i];
      i := i + 1;
    }
    return true, index;
  }

  method IndexNames(rows: seq<Row>, serials: map<seq<char>, nat>) returns (ok: bool, index: map<seq<char>, nat>)
    ensures ok <==> UniqueValidNames(rows)
    ensures ok ==> NamesIndexed(Table(rows, serials, index, true))
  {
    index := map[];
    var i := 0;
    while i < |rows|
      invariant 0 <= i <= |rows|
      invariant forall j :: 0 <= j < i && rows[j].kind == 'V' ==> rows[j].name in index && index[rows[j].name] == j
      invariant forall n :: n in index ==> index[n] < i && rows[index[n]].name == n && rows[index[n]].kind == 'V'
    {
      if rows[i].kind == 'V' {
        if rows[i].name in index {
          assert rows[index[rows[i].name]].name == rows[i].name;
          return false, index;
        }
        index := index[rows[i].name := i];
      }
      i := i + 1;
    }
    return true, index;
  }
}
