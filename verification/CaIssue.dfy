// A whole issuing run in serial mode: the certificates, the saved files, and the two rotations that make
// them live. The disk is observed after every file operation, so that a run may stop anywhere.

module CaIssue {
  import opened Options
  import opened CaRevInfo
  import opened CaDatabase
  import CaSerial

  /** One request. Rejected and Broken ones never reach the database. */
  datatype Request =
    | Rejected
    | Broken
    | Wanted(subject: seq<char>, notAfter: seq<char>, accepted: bool, signed: bool)

  // ---- certifying in memory ----

  datatype Batch = Batch(hard: bool, table: Table, issued: seq<Cert>)

  /** The requests in order, each certificate taking the next serial; a hard failure ends the run. */
  function Certify(t: Table, serial: int, requests: seq<Request>): Batch
  {
    if requests == [] then Batch(false, t, [])
    else
      var b := Certify(t, serial, requests[..|requests| - 1]);
      if b.hard then b else CertifyOne(b, serial, requests[|requests| - 1])
  }

  function CertifyOne(b: Batch, serial: int, request: Request): Batch
  {
    match request
    case Rejected => b
    case Broken => b.(hard := true)
    case Wanted(subject, notAfter, accepted, signed) =>
      var cert := Cert(serial + |b.issued|, subject, notAfter);
      var (ok, u) := IssueTable(b.table, cert, accepted, signed);
      if ok < 0 then b.(hard := true) else if ok == 0 then b else Batch(false, u, b.issued + [cert])
  }

  function NewRows(issued: seq<Cert>): (rows: seq<Row>)
    ensures |rows| == |issued| && forall i :: 0 <= i < |issued| ==> rows[i] == NewRow(issued[i])
  {
    if issued == [] then [] else NewRows(issued[..|issued| - 1]) + [NewRow(issued[|issued| - 1])]
  }

  lemma CertifyOneStep(b: Batch, serial: int, request: Request)
    ensures var c := CertifyOne(b, serial, request);
      c.table.uniqueSubject == b.table.uniqueSubject &&
      ((c.issued == b.issued && c.table == b.table) ||
       (|c.issued| == |b.issued| + 1 && c.issued[..|b.issued|] == b.issued &&
        c.issued[|b.issued|].serial == serial + |b.issued| &&
        c.table.rows == b.table.rows + [NewRow(c.issued[|b.issued|])]))
  {
    hide SerialKey;
  }

  /** What the induction of CertifySerials carries from one request to the next. */
  ghost predicate InStep(t: Table, serial: int, b: Batch)
  {
    (forall i :: 0 <= i < |b.issued| ==> b.issued[i].serial == serial + i) &&
    b.table.rows == t.rows + NewRows(b.issued) && b.table.uniqueSubject == t.uniqueSubject
  }

  lemma InStepNext(t: Table, serial: int, a: Batch, request: Request)
    requires InStep(t, serial, a)
    ensures InStep(t, serial, CertifyOne(a, serial, request))
  {
    CertifyOneStep(a, serial, request);
    var b := CertifyOne(a, serial, request);
    hide CertifyOne, NewRow, NewRows;
    if |a.issued| != |b.issued| {
      var c := b.issued[|a.issued|];
      assert b.issued == a.issued + [c];
      NewRowsStep(a.issued, c);
      assert t.rows + NewRows(a.issued) + [NewRow(c)] == t.rows + (NewRows(a.issued) + [NewRow(c)]);
    } else {
      assert b.issued == a.issued;
    }
  }

  /** The certificates have consecutive serials from the first, and their rows are added in that order. */
  lemma {:induction false} CertifySerials(t: Table, serial: int, requests: seq<Request>)
    ensures var b := Certify(t, serial, requests);
      (forall i :: 0 <= i < |b.issued| ==> b.issued[i].serial == serial + i) &&
      b.table.rows == t.rows + NewRows(b.issued) && b.table.uniqueSubject == t.uniqueSubject
  {
    if requests == [] {
      assert t.rows + [] == t.rows;
    } else {
      var front, last := requests[..|requests| - 1], requests[|requests| - 1];
      CertifySerials(t, serial, front);
      CertifyUnfold(t, serial, requests);
      InStepNext(t, serial, Certify(t, serial, front), last);
      hide Certify, CertifyOne, NewRows;
    }
  }

  lemma CertifyUnfold(t: Table, serial: int, requests: seq<Request>)
    requires requests != []
    ensures var b := Certify(t, serial, requests[..|requests| - 1]);
      Certify(t, serial, requests) == if b.hard then b else CertifyOne(b, serial, requests[|requests| - 1])
  {}

  lemma NewRowsStep(issued: seq<Cert>, cert: Cert)
    ensures NewRows(issued + [cert]) == NewRows(issued) + [NewRow(cert)]
  {
    assert (issued + [cert])[..|issued|] == issued;
  }

  /** A request that is rejected, declined or broken uses no serial. */
  lemma RejectionUsesNoSerial(t: Table, serial: int, requests: seq<Request>, last: Request)
    requires last.Rejected? || last.Broken? || (last.Wanted? && !(last.accepted && last.signed))
    ensures Certify(t, serial, requests + [last]).issued == Certify(t, serial, requests).issued
    ensures Certify(t, serial, requests + [last]).table == Certify(t, serial, requests).table
  {
    assert (requests + [last])[..|requests|] == requests;
  }

  /**
   * What one more request comes to after a run without a hard failure: a certificate for the next serial
   * exactly if it is free, accepted and signed, and a hard failure exactly if it is broken, not free, or
   * accepted and not signed.
   */
  lemma OneMore(t: Table, serial: int, requests: seq<Request>, last: Request)
    requires Valid(t) && !Certify(t, serial, requests).hard
    ensures var b, c := Certify(t, serial, requests), Certify(t, serial, requests + [last]);
      Valid(b.table) &&
      match last
      case Rejected => c == b
      case Broken => c.hard && c.issued == b.issued
      case Wanted(subject, notAfter, accepted, signed) =>
        var cert := Cert(serial + |b.issued|, subject, notAfter);
        var free := Free(b.table, cert);
        (c.hard <==> !free || (accepted && !signed)) &&
        c.issued == (if free && accepted && signed then b.issued + [cert] else b.issued) &&
        c.table.rows == if free && accepted && signed then b.table.rows + [NewRow(cert)] else b.table.rows
  {
    var b := Certify(t, serial, requests);
    CertifyMore(t, serial, requests, last);
    CertifyValid(t, serial, requests);
    hide Certify, Valid, Free, NewRow, IssueTable;
    if last.Wanted? {
      IssueIff(b.table, Cert(serial + |b.issued|, last.subject, last.notAfter), last.accepted, last.signed);
    }
  }

  lemma CertifyMore(t: Table, serial: int, requests: seq<Request>, last: Request)
    ensures var b := Certify(t, serial, requests);
      Certify(t, serial, requests + [last]) == if b.hard then b else CertifyOne(b, serial, last)
  {
    hide CertifyOne;
    assert (requests + [last])[..|requests|] == requests;
  }

  lemma {:induction false} CertifyValid(t: Table, serial: int, requests: seq<Request>)
    requires Valid(t)
    ensures Valid(Certify(t, serial, requests).table)
  {
    if requests != [] {
      var b := Certify(t, serial, requests[..|requests| - 1]);
      CertifyUnfold(t, serial, requests);
      CertifyValid(t, serial, requests[..|requests| - 1]);
      hide Certify, Valid, NewRow;
      CertifyOneValid(b, serial, requests[|requests| - 1]);
    }
  }

  lemma CertifyOneValid(b: Batch, serial: int, request: Request)
    requires Valid(b.table)
    ensures Valid(CertifyOne(b, serial, request).table)
  {
    hide Valid, NewRow, InsertRow;
    if request.Wanted? {
      var cert := Cert(serial + |b.issued|, request.subject, request.notAfter);
      NewRowIsValid(cert);
      if InsertRow(b.table, NewRow(cert)).Some? { InsertValid(b.table, NewRow(cert)); }
    }
  }

  // ---- serials in use ----

  /** Every row has a serial below the next one. */
  ghost predicate AllBelow(rows: seq<Row>, serial: int)
  {
    forall i :: 0 <= i < |rows| ==>
      CaSerial.SerialFormat(rows[i].serial) && CaSerial.Hex2Bn(rows[i].serial) < serial
  }

  lemma AllBelowMonotone(rows: seq<Row>, serial: int, higher: int)
    requires AllBelow(rows, serial) && serial <= higher
    ensures AllBelow(rows, higher)
  {
    hide CaSerial.SerialFormat, CaSerial.Hex2Bn;
  }

  /** The rows of a run stay below the serial that the run leaves behind. */
  lemma CertifyBelow(t: Table, serial: int, requests: seq<Request>)
    requires AllBelow(t.rows, serial)
    ensures var b := Certify(t, serial, requests); AllBelow(b.table.rows, serial + |b.issued|)
  {
    var b := Certify(t, serial, requests);
    CertifySerials(t, serial, requests);
    forall i | 0 <= i < |b.table.rows|
      ensures CaSerial.SerialFormat(b.table.rows[i].serial)
      ensures CaSerial.Hex2Bn(b.table.rows[i].serial) < serial + |b.issued|
    {
      if i >= |t.rows| {
        CaSerial.SerialTextReads(b.issued[i - |t.rows|].serial);
      }
    }
  }

  /** While all rows are below the next serial, the "already issued" clash cannot happen. */
  lemma NoSerialClash(t: Table, cert: Cert)
    requires Valid(t) && AllBelow(t.rows, cert.serial)
    ensures SerialKey(NewRow(cert)) !in t.serials
  {
    var key := SerialKey(NewRow(cert));
    if key in t.serials {
      CaSerial.KeyDeterminesValue(t.rows[t.serials[key]].serial, cert.serial);
    }
  }

  /** What one operation adds to the table: nothing, or one row with the serial of its certificate. */
  lemma ApplyAdds(syn: Syntax, t: Table, op: Op)
    requires Valid(t)
    ensures var rows := Apply(syn, t, op).rows;
      |rows| == |t.rows| || (!op.UpdateDb? && |rows| == |t.rows| + 1 &&
        rows[|t.rows|].serial == CaSerial.SerialText(op.cert.serial))
    ensures forall i :: 0 <= i < |t.rows| ==> Apply(syn, t, op).rows[i].serial == t.rows[i].serial
  {
    ApplyValid(syn, t, op);
    assert forall i :: 0 <= i < |t.rows| ==> RowDevelops(t.rows[i], Apply(syn, t, op).rows[i]);
    hide Valid, SerialKey, RevokeTable, RowDevelops;
    match op
    case Issue(cert, _, _) =>
    case Revoke(cert, kind, arg, now) => RevokeAdds(syn, t, now, cert, kind, arg);
    case UpdateDb(now) =>
  }

  lemma RevokeAdds(syn: Syntax, t: Table, now: seq<char>, cert: Cert, kind: RevType, arg: seq<char>)
    requires Valid(t)
    ensures var rows := RevokeTable(t, syn, now, cert, kind, arg).1.rows;
      |rows| == |t.rows| || (|rows| == |t.rows| + 1 && rows[|t.rows|].serial == CaSerial.SerialText(cert.serial))
  {
    hide SerialKey, RevokeRow;
    var row := NewRow(cert);
    if SerialKey(row) !in t.serials && InsertRow(t, row).Some? {
      var u := InsertRow(t, row).value;
      InsertValid(t, row);
      RevokeFoundValid(u, syn, now, cert, kind, arg);
      assert RowDevelops(u.rows[|t.rows|], RevokeFound(u, syn, now, cert, kind, arg).1.rows[|t.rows|]);
    }
  }

  /** An operation keeps all rows below the next serial if and only if it adds no row, or one below it. */
  lemma ApplyBelowIff(syn: Syntax, t: Table, op: Op, next: int)
    requires Valid(t) && AllBelow(t.rows, next)
    ensures AllBelow(Apply(syn, t, op).rows, next) <==>
      |Apply(syn, t, op).rows| == |t.rows| || (!op.UpdateDb? && op.cert.serial < next)
  {
    ApplyAdds(syn, t, op);
    if !op.UpdateDb? { CaSerial.SerialTextReads(op.cert.serial); }
    hide Apply, CaSerial.SerialFormat, CaSerial.Hex2Bn, CaSerial.SerialText, Valid, AllBelow;
    BelowAfter(t.rows, Apply(syn, t, op).rows, next);
  }

  lemma BelowAfter(rows: seq<Row>, after: seq<Row>, next: int)
    requires AllBelow(rows, next) && |rows| <= |after| <= |rows| + 1
    requires forall i :: 0 <= i < |rows| ==> after[i].serial == rows[i].serial
    ensures AllBelow(after, next) <==>
      (|after| > |rows| ==> CaSerial.SerialFormat(after[|rows|].serial) && CaSerial.Hex2Bn(after[|rows|].serial) < next)
  {
    hide CaSerial.SerialFormat, CaSerial.Hex2Bn;
  }

  /** So after operations on certificates below the next serial, issuing with it does not clash. */
  lemma {:induction false} RunNoSerialClash(syn: Syntax, t: Table, ops: seq<Op>, cert: Cert)
    requires Valid(t) && AllBelow(t.rows, cert.serial)
    requires forall k :: 0 <= k < |ops| ==> ops[k].UpdateDb? || ops[k].cert.serial < cert.serial
    ensures AllBelow(Run(syn, t, ops).rows, cert.serial) && SerialKey(NewRow(cert)) !in Run(syn, t, ops).serials
  {
    hide AllBelow, Apply, Valid, SerialKey, NewRow;
    if ops != [] {
      var front := ops[..|ops| - 1];
      assert forall k :: 0 <= k < |front| ==> front[k] == ops[k];
      RunNoSerialClash(syn, t, front, cert);
      ApplyAdds(syn, Run(syn, t, front), ops[|ops| - 1]);
      ApplyBelowIff(syn, Run(syn, t, front), ops[|ops| - 1], cert.serial);
    }
    NoSerialClash(Run(syn, t, ops), cert);
  }

  /** A certificate added as valid ahead of the serial file makes the issue that reaches its serial fail. */
  lemma AddedAheadClashes(t: Table, syn: Syntax, now: seq<char>, ahead: Cert, arg: seq<char>, cert: Cert)
    requires Valid(t) && InsertRow(t, NewRow(ahead)).Some? && cert.serial == ahead.serial
    ensures var (ok, u) := RevokeTable(t, syn, now, ahead, RevValid, arg);
      ok && IssueTable(u, cert, true, true) == (-1, u)
  {
    assert SerialKey(NewRow(cert)) == SerialKey(NewRow(ahead));
  }

  // ---- the disk ----

  datatype Slot = Live | New | Old

  datatype Disk = Disk(serial: map<Slot, int>, index: map<Slot, seq<Row>>, attr: map<Slot, bool>)

  datatype Errno = Done | NoEntry | Denied

  function Move<T>(m: map<Slot, T>, from: Slot, to: Slot): map<Slot, T>
    requires from in m
  {
    (m - {from})[to := m[from]]
  }

  lemma MoveIs<T>(m: map<Slot, T>, from: Slot, to: Slot, other: Slot)
    requires from in m && from != to && other != from && other != to
    ensures var r := Move(m, from, to);
      from !in r && to in r && r[to] == m[from] && (other in r <==> other in m) && (other in m ==> r[other] == m[other])
  {}

  /** The live index holds no serial at or above the live serial file, as far as both files are there. */
  ghost predicate Safe(d: Disk)
  {
    Live in d.serial && Live in d.index ==> AllBelow(d.index[Live], d.serial[Live])
  }

  /** A disk as the serial rotation may leave it at any moment: the index untouched. */
  ghost predicate SerialInMotion(d: Disk, start: Disk, old_: int, new_: int)
  {
    d.index == start.index && (Live in d.serial ==> d.serial[Live] == old_ || d.serial[Live] == new_)
  }

  /** A disk as the index rotation may leave it at any moment: the serial untouched. */
  ghost predicate IndexInMotion(d: Disk, start: Disk, old_: seq<Row>, new_: seq<Row>)
  {
    d.serial == start.serial && (Live in d.index ==> d.index[Live] == old_ || d.index[Live] == new_)
  }

  /** The observations after `was` all satisfy p. */
  ghost predicate Grown(was: seq<Disk>, seen: seq<Disk>, p: Disk -> bool)
  {
    was <= seen && forall k :: |was| <= k < |seen| ==> p(seen[k])
  }

  class Store {
    var disk: Disk
    ghost var seen: seq<Disk>       // the disk after every file operation so far
    ghost var refused: nat          // how many operations were refused for reasons outside the program

    constructor (disk: Disk)
      ensures this.disk == disk && seen == [disk] && refused == 0
    {
      this.disk := disk;
      seen := [disk];
      refused := 0;
    }

    // rename() of one kind of file. It fails when the source is missing, and may fail for other reasons.

    method RenameSerial(from: Slot, to: Slot, ghost was: seq<Disk>, ghost p: Disk -> bool) returns (r: Errno)
      requires from != to && Grown(was, seen, p)
      modifies this
      ensures r == Done ==> from in old(disk.serial) && disk == old(disk).(serial := Move(old(disk.serial), from, to))
      ensures r != Done ==> disk == old(disk)
      ensures r == NoEntry ==> from !in disk.serial
      ensures p(disk) ==> Grown(was, seen, p)
      ensures refused == old(refused) + if r == Denied then 1 else 0
    {
      var denied: bool := *;
      if from !in disk.serial { r := NoEntry; }
      else if denied {
        r := Denied;
        refused := refused + 1;
      }
      else {
        disk := disk.(serial := Move(disk.serial, from, to));
        r := Done;
      }
      seen := seen + [disk];
    }

    method RenameIndex(from: Slot, to: Slot, ghost was: seq<Disk>, ghost p: Disk -> bool) returns (r: Errno)
      requires from != to && Grown(was, seen, p)
      modifies this
      ensures r == Done ==> from in old(disk.index) && disk == old(disk).(index := Move(old(disk.index), from, to))
      ensures r != Done ==> disk == old(disk)
      ensures r == NoEntry ==> from !in disk.index
      ensures p(disk) ==> Grown(was, seen, p)
      ensures refused == old(refused) + if r == Denied then 1 else 0
    {
      var denied: bool := *;
      if from !in disk.index { r := NoEntry; }
      else if denied {
        r := Denied;
        refused := refused + 1;
      }
      else {
        disk := disk.(index := Move(disk.index, from, to));
        r := Done;
      }
      seen := seen + [disk];
    }

    method RenameAttr(from: Slot, to: Slot, ghost was: seq<Disk>, ghost p: Disk -> bool) returns (r: Errno)
      requires from != to && Grown(was, seen, p)
      modifies this
      ensures r == Done ==> from in old(disk.attr) && disk == old(disk).(attr := Move(old(disk.attr), from, to))
      ensures r != Done ==> disk == old(disk)
      ensures r == NoEntry ==> from !in disk.attr
      ensures p(disk) ==> Grown(was, seen, p)
      ensures refused == old(refused) + if r == Denied then 1 else 0
    {
      var denied: bool := *;
      if from !in disk.attr { r := NoEntry; }
      else if denied {
        r := Denied;
        refused := refused + 1;
      }
      else {
        disk := disk.(attr := Move(disk.attr, from, to));
        r := Done;
      }
      seen := seen + [disk];
    }

    /** save_serial to the new file. */
    method SaveSerial(serial: int, ghost was: seq<Disk>, ghost p: Disk -> bool) returns (ok: bool)
      requires Grown(was, seen, p)
      modifies this
      ensures disk == if ok then old(disk).(serial := old(disk.serial)[New := serial]) else old(disk)
      ensures refused == old(refused) + if ok then 0 else 1
      ensures p(disk) ==> Grown(was, seen, p)
    {
      ok := *;
      if ok { disk := disk.(serial := disk.serial[New := serial]); } else { refused := refused + 1; }
      seen := seen + [disk];
    }

    /** save_index to the new files: first the rows, then the attributes. */
    method SaveIndex(rows: seq<Row>, uniqueSubject: bool, ghost was: seq<Disk>, ghost p: Disk -> bool)
      returns (ok: bool)
      requires Grown(was, seen, p) && p(disk)
      requires forall d: Disk :: d.serial == disk.serial && d.index == disk.index[New := rows] ==> p(d)
      modifies this
      ensures disk.serial == old(disk.serial) && Grown(was, seen, p) && p(disk)
      ensures disk.index == old(disk.index) || disk.index == old(disk.index)[New := rows]
      ensures ok ==> disk.index == old(disk.index)[New := rows] && disk.attr == old(disk.attr)[New := uniqueSubject]
      ensures refused == old(refused) + if ok then 0 else 1
    {
      ok := *;
      if !ok {
        seen, refused := seen + [disk], refused + 1;
        return;
      }
      disk := disk.(index := disk.index[New := rows]);
      seen := seen + [disk];
      ok := *;
      if ok { disk := disk.(attr := disk.attr[New := uniqueSubject]); } else { refused := refused + 1; }
      seen := seen + [disk];
    }

    /** Writing the certificates, which are files of their own. */
    method WriteCertificates() returns (ok: bool)
      modifies this`refused
      ensures refused == old(refused) + if ok then 0 else 1
    {
      ok := *;
      if !ok { refused := refused + 1; }
    }

    /** rotate_serial: at every moment the live file has the old or the new number, or is absent. */
    method RotateSerial(ghost was: seq<Disk>, ghost p: Disk -> bool) returns (ok: bool)
      requires Live in disk.serial && New in disk.serial && Grown(was, seen, p)
      requires forall d :: SerialInMotion(d, disk, disk.serial[Live], disk.serial[New]) ==> p(d)
      modifies this
      ensures Grown(was, seen, p) && disk.index == old(disk.index) && disk.attr == old(disk.attr)
      ensures ok ==> Live in disk.serial && disk.serial[Live] == old(disk.serial[New])
      ensures !ok && Live in disk.serial ==> disk.serial[Live] == old(disk.serial[Live])
      ensures refused >= old(refused) && (refused == old(refused) ==> ok)
    {
      hide Grown;
      ghost var start, o, n := disk, disk.serial[Live], disk.serial[New];
      var r := RenameSerial(Live, Old, was, p);
      assert SerialInMotion(disk, start, o, n);
      if r == Denied { return false; }
      r := RenameSerial(New, Live, was, p);
      assert SerialInMotion(disk, start, o, n);
      if r != Done {
        r := RenameSerial(Old, Live, was, p);
        assert SerialInMotion(disk, start, o, n);
        return false;
      }
      return true;
    }

    /** rotate_index: the rows first, then the attributes, undoing what was done when a step fails. */
    method RotateIndex(ghost was: seq<Disk>, ghost p: Disk -> bool) returns (ok: bool)
      requires Live in disk.index && New in disk.index && Grown(was, seen, p)
      requires forall d :: IndexInMotion(d, disk, disk.index[Live], disk.index[New]) ==> p(d)
      modifies this
      ensures Grown(was, seen, p) && disk.serial == old(disk.serial)
      ensures ok ==> Live in disk.index && disk.index[Live] == old(disk.index[New])
      ensures refused >= old(refused) && (refused == old(refused) && New in old(disk.attr) ==> ok)
    {
      hide Grown;
      ghost var start, o, n := disk, disk.index[Live], disk.index[New];
      var r := RenameIndex(Live, Old, was, p);
      assert IndexInMotion(disk, start, o, n);
      if r == Denied { return false; }
      r := RenameIndex(New, Live, was, p);
      assert IndexInMotion(disk, start, o, n);
      if r != Done {
        r := RenameIndex(Old, Live, was, p);
        assert IndexInMotion(disk, start, o, n);
        return false;
      }
      r := RenameAttr(Live, Old, was, p);
      assert IndexInMotion(disk, start, o, n);
      ok := r != Denied;
      if ok {
        r := RenameAttr(New, Live, was, p);
        assert IndexInMotion(disk, start, o, n);
        ok := r == Done;
        if !ok {
          r := RenameAttr(Old, Live, was, p);
          assert IndexInMotion(disk, start, o, n);
        }
      }
      if !ok {
        r := RenameIndex(Live, New, was, p);
        assert IndexInMotion(disk, start, o, n);
        r := RenameIndex(Old, Live, was, p);
        assert IndexInMotion(disk, start, o, n);
      }
    }
  }

  // ---- the run ----

  datatype Outcome = Committed | NothingIssued | Canceled | Failed(rotating: bool)

  /** The certifying loop: the serial is incremented after each certificate only. */
  method CertifyAll(db: CaDb, first: int, requests: seq<Request>)
    returns (hard: bool, serial: int, ghost issued: seq<Cert>)
    modifies db
    ensures Batch(hard, db.View(), issued) == Certify(old(db.View()), first, requests)
    ensures serial == first + |issued|
  {
    serial, issued, hard := first, [], false;
    var i := 0;
    while i < |requests|
      invariant 0 <= i <= |requests| && !hard && serial == first + |issued|
      invariant Batch(false, db.View(), issued) == Certify(old(db.View()), first, requests[..i])
    {
      assert requests[..i + 1][..i] == requests[..i];
      ghost var before := Batch(false, db.View(), issued);
      match requests[i] {
        case Rejected =>
        case Broken => hard := true;
        case Wanted(subject, notAfter, accepted, signed) =>
          var cert := Cert(serial, subject, notAfter);
          var j := db.IssueCert(cert, accepted, signed);
          if j < 0 {
            hard := true;
          } else if j > 0 {
            serial := serial + 1;
            issued := issued + [cert];
          }
      }
      i := i + 1;
      if hard {
        CertifyHard(old(db.View()), first, requests, i);
        return;
      }
    }
    assert requests[..i] == requests;
  }

  /** A hard failure is final. */
  lemma {:induction false} CertifyHard(t: Table, serial: int, requests: seq<Request>, n: nat)
    requires n <= |requests| && Certify(t, serial, requests[..n]).hard
    ensures Certify(t, serial, requests) == Certify(t, serial, requests[..n])
    decreases |requests| - n
  {
    if n == |requests| {
      assert requests[..n] == requests;
    } else {
      assert requests[..n + 1][..n] == requests[..n];
      CertifyHard(t, serial, requests, n + 1);
    }
  }

  lemma SafeDuringSerial(d: Disk, start: Disk, serial: int, next: int)
    requires SerialInMotion(d, start, serial, next) && serial <= next
    requires Live in start.index && AllBelow(start.index[Live], serial)
    ensures Safe(d)
  {
    AllBelowMonotone(start.index[Live], serial, next);
  }

  lemma SafeDuringIndex(d: Disk, start: Disk, before: seq<Row>, after: seq<Row>)
    requires IndexInMotion(d, start, before, after) && Live in start.serial
    requires AllBelow(before, start.serial[Live]) && AllBelow(after, start.serial[Live])
    ensures Safe(d)
  {}

  /**
   * The issuing run of ca_main. `commit` is the operator's answer when there is one to give.
   * At no point where the run could stop does the live index hold a serial at or above the live serial
   * file.
   */
  method IssueRun(db: CaDb, store: Store, requests: seq<Request>, commit: bool)
    returns (outcome: Outcome, ghost issued: seq<Cert>)
    requires Live in store.disk.serial && Live in store.disk.index && Safe(store.disk)
    requires db.rows == store.disk.index[Live]
    modifies db, store
    ensures old(store.seen) <= store.seen
    ensures forall k :: |old(store.seen)| <= k < |store.seen| ==> Safe(store.seen[k])
    ensures var b := Certify(old(db.View()), old(store.disk.serial[Live]), requests);
      db.View() == b.table && issued == b.issued &&
      (b.hard ==> outcome == Failed(false)) &&
      (outcome == NothingIssued <==> !b.hard && b.issued == []) &&
      (outcome == Canceled <==> !b.hard && b.issued != [] && !commit)
    // If nothing is refused the run is committed whenever it should be, and fails on a hard failure only.
    ensures store.refused == old(store.refused) ==>
      var b := Certify(old(db.View()), old(store.disk.serial[Live]), requests);
      (outcome.Committed? <==> !b.hard && b.issued != [] && commit) && (outcome.Failed? <==> b.hard)
    // Before the rotation nothing live has changed.
    ensures !outcome.Committed? && outcome != Failed(true) ==>
      Live in store.disk.serial && store.disk.serial[Live] == old(store.disk.serial[Live]) &&
      Live in store.disk.index && store.disk.index[Live] == old(store.disk.index[Live])
    // A committed run leaves the first serial plus the number of certificates, and the new rows.
    ensures outcome.Committed? ==>
      Live in store.disk.serial && store.disk.serial[Live] == old(store.disk.serial[Live]) + |issued| &&
      Live in store.disk.index && store.disk.index[Live] == old(store.disk.index[Live]) + NewRows(issued)
  {
    hide AllBelow, Certify, CaSerial.SerialFormat, NewRow;
    ghost var p := (d: Disk) => Safe(d);
    ghost var was := store.seen;
    ghost var before := db.View();
    var first := store.disk.serial[Live];
    var hard, serial;
    hard, serial, issued := CertifyAll(db, first, requests);
    CertifySerials(before, first, requests);
    CertifyBelow(before, first, requests);
    if hard { return Failed(false), issued; }
    if serial == first { return NothingIssued, issued; }
    if !commit { return Canceled, issued; }
    var ok := store.SaveSerial(serial, was, p);
    if !ok { return Failed(false), issued; }
    ok := store.SaveIndex(db.rows, db.uniqueSubject, was, p);
    if !ok { return Failed(false), issued; }
    var written := store.WriteCertificates();
    if !written { return Failed(false), issued; }
    ghost var start := store.disk;
    forall d | SerialInMotion(d, start, first, serial) ensures p(d) { SafeDuringSerial(d, start, first, serial); }
    ok := store.RotateSerial(was, p);
    if !ok { return Failed(true), issued; }
    ghost var turned := store.disk;
    AllBelowMonotone(before.rows, first, serial);
    forall d | IndexInMotion(d, turned, before.rows, db.rows) ensures p(d) {
      SafeDuringIndex(d, turned, before.rows, db.rows);
    }
    ok := store.RotateIndex(was, p);
    if !ok { return Failed(true), issued; }
    // save_serial wrote the number that the rotation made live.
    return Committed, issued;
  }
}
