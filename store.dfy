/** The service's state: the four collections it writes and the handlers that
    change them. Each handler runs as one atomic sequential step; the acting
    user and the clock reading `now` are parameters. */
module Inventory {
  import opened Domain
  import opened Queries

  class Store {
    var equipments: seq<Equipment>
    var loans: seq<Loan>
    var history: seq<HistoryEntry>
    var notifications: seq<Notification>
    /** The accounts; only read, to find the admins. */
    const users: seq<User>
    /** The next fresh id: every inserted document takes one. */
    var nextId: nat

    /** Asset tags are unique, equipment and loan ids are distinct and fresh,
        and a loan is Devolvido exactly when its return date is recorded. */
    ghost predicate Valid()
      reads this
    {
      Registry(equipments, loans, nextId)
    }

    constructor (users: seq<User>)
      ensures Valid()
      ensures equipments == [] && loans == [] && history == [] && notifications == []
      ensures this.users == users
    {
      this.users := users;
      equipments, loans, history, notifications := [], [], [], [];
      nextId := 0;
    }

    /** `create_history_entry`: appends one entry with a fresh id. */
    method Record(equipmentId: nat, action: Action, description: Description, user: string, now: int)
      requires Valid()
      modifies this`history, this`nextId
      ensures Valid()
      ensures history == old(history) + [HistoryEntry(old(nextId), equipmentId, action, description, user, now)]
      ensures nextId == old(nextId) + 1
    {
      history := history + [HistoryEntry(nextId, equipmentId, action, description, user, now)];
      nextId := nextId + 1;
    }

    /** `create_notification`: appends one unread notification with a fresh id. */
    method Notify(userId: string, message: Message, kind: NotificationKind, now: int)
      requires Valid()
      modifies this`notifications, this`nextId
      ensures Valid()
      ensures notifications == old(notifications) + [Notification(old(nextId), userId, message, kind, false, now)]
      ensures nextId == old(nextId) + 1
    {
      notifications := notifications + [Notification(nextId, userId, message, kind, false, now)];
      nextId := nextId + 1;
    }

    /** `create_equipment`: a tag already in the registry is refused with 400
        and nothing is written; otherwise one record and one `created` entry
        are added. */
    method CreateEquipment(req: EquipmentCreate, actor: User, now: int) returns (res: Result<Equipment>)
      requires Valid()
      modifies this`equipments, this`history, this`nextId
      ensures Valid()
      ensures res.Err? <==> HasTag(old(equipments), req.numeroPatrimonio)
      ensures res.Err? ==> res.error == BadRequest(TagExists) && unchanged(this)
      ensures res.Ok? ==>
        && res.value == NewEquipment(req, old(nextId), now)
        && equipments == old(equipments) + [res.value]
        && history == old(history) + [HistoryEntry(old(nextId) + 1, old(nextId), Created,
                                                   CreatedManually(req.numeroPatrimonio), actor.username, now)]
        && nextId == old(nextId) + 2
    {
      if TagIndex(equipments, req.numeroPatrimonio).Some? {
        return Err(BadRequest(TagExists));
      }
      var e := NewEquipment(req, nextId, now);
      equipments := equipments + [e];
      nextId := nextId + 1;
      Record(e.id, Created, CreatedManually(req.numeroPatrimonio), actor.username, now);
      res := Ok(e);
    }

    /** `update_equipment`: an unknown id gives 404; otherwise the supplied
        fields overwrite the record, one `updated` entry is added, and the
        record is read back. */
    method UpdateEquipment(id: nat, u: EquipmentUpdate, actor: User, now: int) returns (res: Result<Equipment>)
      requires Valid()
      modifies this`equipments, this`history, this`nextId
      ensures Valid()
      ensures res.Err? <==> EquipmentIndex(old(equipments), id).None?
      ensures res.Err? ==> res.error == NotFound(EquipmentId(id)) && unchanged(this)
      ensures res.Ok? ==>
        var k := EquipmentIndex(old(equipments), id).value;
        && res.value == ApplyUpdate(old(equipments)[k], u, now)
        && equipments == old(equipments)[k := res.value]
        && history == old(history) + [HistoryEntry(old(nextId), id, Updated, Edited, actor.username, now)]
        && nextId == old(nextId) + 1
    {
      var found := EquipmentIndex(equipments, id);
      if found.None? {
        return Err(NotFound(EquipmentId(id)));
      }
      var k := found.value;
      equipments := equipments[k := ApplyUpdate(equipments[k], u, now)];
      Record(id, Updated, Edited, actor.username, now);
      // the handler reads the record back by id: the same one, ids being distinct
      res := Ok(equipments[k]);
    }

    /** `delete_equipment`: only an admin may delete (403); an unknown id gives
        404. Open loans are not checked and no history entry is written. */
    method DeleteEquipment(id: nat, actor: User) returns (res: Result<()>)
      requires Valid()
      modifies this`equipments
      ensures Valid()
      ensures actor.role != AdminRole ==> res == Err(Forbidden)
      ensures actor.role == AdminRole && EquipmentIndex(old(equipments), id).None? ==> res == Err(NotFound(EquipmentId(id)))
      ensures res.Ok? <==> actor.role == AdminRole && EquipmentIndex(old(equipments), id).Some?
      ensures res.Err? ==> unchanged(this)
      ensures res.Ok? ==>
        var k := EquipmentIndex(old(equipments), id).value;
        equipments == old(equipments)[..k] + old(equipments)[k + 1..]
    {
      if actor.role != AdminRole {
        return Err(Forbidden);
      }
      var found := EquipmentIndex(equipments, id);
      if found.None? {
        return Err(NotFound(EquipmentId(id)));
      }
      var k := found.value;
      RemoveKeepsRegistry(equipments, k, nextId);
      equipments := equipments[..k] + equipments[k + 1..];
      res := Ok(());
    }

    /** `upload_termo`: an unknown id gives 404, a file that is not a PDF 400;
        otherwise the document reference is stored and one `termo_uploaded`
        entry is added. */
    method UploadTermo(id: nat, file: Upload, actor: User, now: int) returns (res: Result<()>)
      requires Valid()
      modifies this`equipments, this`history, this`nextId
      ensures Valid()
      ensures res.Ok? <==> EquipmentIndex(old(equipments), id).Some? && file.contentType == PdfContentType
      ensures EquipmentIndex(old(equipments), id).None? ==> res == Err(NotFound(EquipmentId(id)))
      ensures EquipmentIndex(old(equipments), id).Some? && file.contentType != PdfContentType ==> res == Err(BadRequest(NotPdf))
      ensures res.Err? ==> unchanged(this)
      ensures res.Ok? ==>
        && EquipmentIndex(old(equipments), id).Some? && file.contentType == PdfContentType
        && var k := EquipmentIndex(old(equipments), id).value;
           && equipments == old(equipments)[k := old(equipments)[k].(termoResponsabilidade := Some(file.content), updatedAt := now)]
           && history == old(history) + [HistoryEntry(old(nextId), id, TermoUploaded, TermoAttached, actor.username, now)]
           && nextId == old(nextId) + 1
    {
      var found := EquipmentIndex(equipments, id);
      if found.None? {
        return Err(NotFound(EquipmentId(id)));
      }
      if file.contentType != PdfContentType {
        return Err(BadRequest(NotPdf));
      }
      var k := found.value;
      equipments := equipments[k := equipments[k].(termoResponsabilidade := Some(file.content), updatedAt := now)];
      Record(id, TermoUploaded, TermoAttached, actor.username, now);
      res := Ok(());
    }

    /** The first loop of the loan handlers: checks the listed tags in order,
        before anything is written. */
    method CheckLoanable(tags: seq<string>) returns (err: Option<Error>)
      ensures err == LoanCheck(equipments, tags)
    {
      var i := 0;
      while i < |tags|
        invariant 0 <= i <= |tags|
        invariant LoanCheck(equipments, tags) == LoanCheck(equipments, tags[i..])
      {
        var found := TagIndex(equipments, tags[i]);
        if found.None? {
          return Some(NotFound(EquipmentTag(tags[i])));
        }
        if equipments[found.value].status == Emprestado {
          return Some(BadRequest(AlreadyLoaned(tags[i])));
        }
        assert tags[i..][1..] == tags[i + 1..];
        i := i + 1;
      }
      return None;
    }

    /** The state after the per-tag loop has handled the first `i` tags,
        starting from `eqs0`, `history0` and `id0`. */
    ghost predicate Stamped(eqs0: seq<Equipment>, history0: seq<HistoryEntry>, id0: nat, tags: seq<string>, i: nat,
                            status: string, action: Action, description: Description, user: string, now: int)
      reads this
    {
      StampedState(equipments, history, nextId, eqs0, history0, id0, tags, i, status, action, description, user, now)
    }

    /** One step of the per-tag loop: the equipment found for the `i`th tag
        gets the new status and one history entry. */
    method StampTag(ghost eqs0: seq<Equipment>, ghost history0: seq<HistoryEntry>, ghost id0: nat,
                    tags: seq<string>, i: nat, k: nat,
                    status: string, action: Action, description: Description, user: string, now: int)
      requires Valid() && Stamped(eqs0, history0, id0, tags, i, status, action, description, user, now)
      requires i < |tags| && TagIndex(equipments, tags[i]) == Some(k)
      modifies this`equipments, this`history, this`nextId
      ensures Valid() && Stamped(eqs0, history0, id0, tags, i + 1, status, action, description, user, now)
    {
      StampAdvance(equipments, history, nextId, eqs0, history0, id0, tags, i, k,
                   status, action, description, user, now);
      equipments := equipments[k := equipments[k].(status := status, updatedAt := now)];
      Record(equipments[k].id, action, description, user, now);
    }

    /** The per-tag loop of the loan and return handlers: sets the status of
        the equipment carrying each listed tag and records one entry for it.
        At a tag no equipment carries, the handler's read-back finds nothing
        and it fails; the loop stops there. Returns how many tags it handled. */
    method SetStatusEach(tags: seq<string>, status: string, action: Action, description: Description,
                         user: string, now: int) returns (done: nat)
      requires Valid()
      modifies this`equipments, this`history, this`nextId
      ensures Valid()
      ensures done == FirstMissing(old(equipments), tags)
      ensures equipments == StatusSet(old(equipments), tags[..done], status, now)
      ensures history == old(history) + Logged(old(equipments), tags[..done], old(nextId), action, description, user, now)
      ensures nextId == old(nextId) + done
    {
      ghost var eqs0, history0, id0 := equipments, history, nextId;
      assert StatusSet(eqs0, tags[..0], status, now) == eqs0;
      var i := 0;
      while i < |tags| && TagIndex(equipments, tags[i]).Some?
        invariant Valid() && Stamped(eqs0, history0, id0, tags, i, status, action, description, user, now)
      {
        StampTag(eqs0, history0, id0, tags, i, TagIndex(equipments, tags[i]).value, status, action, description, user, now);
        i := i + 1;
      }
      StatusSetKeepsRegistry(eqs0, tags[..i], status, now, nextId);
      FirstMissingAt(eqs0, tags, i);
      done := i;
    }

    /** Stores a new Pendente loan under the next fresh id. */
    method InsertLoan(req: LoanCreate, now: int) returns (loan: Loan)
      requires Valid()
      modifies this`loans, this`nextId
      ensures Valid()
      ensures loan == NewLoan(req, old(nextId), now)
      ensures loans == old(loans) + [loan] && nextId == old(nextId) + 1
    {
      loan := NewLoan(req, nextId, now);
      InsertLoanKeepsRegistry(loans, loan, nextId);
      loans := loans + [loan];
      nextId := nextId + 1;
    }

    /** The part both loan handlers share: check every listed tag, then store
        the loan as Pendente with no return date and mark every listed
        equipment Emprestado with one `loaned` entry per tag. */
    method OpenLoan(req: LoanCreate, user: string, description: Description, now: int) returns (res: Result<Loan>)
      requires Valid()
      modifies this`loans, this`equipments, this`history, this`nextId
      ensures Valid()
      ensures res.Err? <==> LoanCheck(old(equipments), req.equipments).Some?
      ensures res.Err? ==> res.error == LoanCheck(old(equipments), req.equipments).value && unchanged(this)
      ensures res.Ok? ==>
        var eqs0, id := old(equipments), old(nextId);
        && res.value == NewLoan(req, id, now)
        && loans == old(loans) + [res.value]
        && equipments == StatusSet(eqs0, req.equipments, Emprestado, now)
        && history == old(history) + Logged(eqs0, req.equipments, id + 1, Loaned, description, user, now)
        && nextId == id + 1 + |req.equipments|
    {
      var err := CheckLoanable(req.equipments);
      if err.Some? {
        return Err(err.value);
      }
      var loan := InsertLoan(req, now);
      LoanablePassesAll(equipments, req.equipments);
      var done := SetStatusEach(req.equipments, Emprestado, Loaned, description, user, now);
      assert req.equipments[..done] == req.equipments;
      res := Ok(loan);
    }

    /** `create_loan`: the staff path; the acting user is notified. */
    method CreateLoan(req: LoanCreate, actor: User, now: int) returns (res: Result<Loan>)
      requires Valid()
      modifies this
      ensures Valid()
      ensures res.Err? <==> LoanCheck(old(equipments), req.equipments).Some?
      ensures res.Err? ==> res.error == LoanCheck(old(equipments), req.equipments).value && unchanged(this)
      ensures res.Ok? ==>
        var eqs0, id, n := old(equipments), old(nextId), |req.equipments|;
        && res.value == NewLoan(req, id, now)
        && loans == old(loans) + [res.value]
        && equipments == StatusSet(eqs0, req.equipments, Emprestado, now)
        && history == old(history) + Logged(eqs0, req.equipments, id + 1, Loaned,
                                            LoanedTo(req.nomeSolicitante), actor.username, now)
        && notifications == old(notifications) + [Notification(id + 1 + n, actor.id,
                                                  LoanCreatedFor(req.nomeSolicitante, n), LoanCreated, false, now)]
        && nextId == id + n + 2
    {
      res := OpenLoan(req, actor.username, LoanedTo(req.nomeSolicitante), now);
      if res.Ok? {
        Notify(actor.id, LoanCreatedFor(req.nomeSolicitante, |req.equipments|), LoanCreated, now);
      }
    }

    /** One notification per recipient, in order. */
    method NotifyEach(recipients: seq<User>, message: Message, kind: NotificationKind, now: int)
      requires Valid()
      modifies this`notifications, this`nextId
      ensures Valid()
      ensures notifications == old(notifications) + Notices(recipients, old(nextId), message, kind, now)
      ensures nextId == old(nextId) + |recipients|
    {
      ghost var id0 := nextId;
      var i := 0;
      while i < |recipients|
        invariant 0 <= i <= |recipients|
        invariant Valid()
        invariant notifications == old(notifications) + Notices(recipients[..i], id0, message, kind, now)
        invariant nextId == id0 + i
      {
        Notify(recipients[i].id, message, kind, now);
        assert Notices(recipients[..i + 1], id0, message, kind, now)
            == Notices(recipients[..i], id0, message, kind, now)
               + [Notification(id0 + i, recipients[i].id, message, kind, false, now)];
        i := i + 1;
      }
      assert recipients[..i] == recipients;
    }

    /** `create_public_loan_request`: the same checks and writes as the staff
        path, recorded as made by the public form; every admin is notified. */
    method CreatePublicLoanRequest(req: LoanCreate, now: int) returns (res: Result<Loan>)
      requires Valid()
      modifies this
      ensures Valid()
      ensures res.Err? <==> LoanCheck(old(equipments), req.equipments).Some?
      ensures res.Err? ==> res.error == LoanCheck(old(equipments), req.equipments).value && unchanged(this)
      ensures res.Ok? ==>
        var eqs0, id, n := old(equipments), old(nextId), |req.equipments|;
        && res.value == NewLoan(req, id, now)
        && loans == old(loans) + [res.value]
        && equipments == StatusSet(eqs0, req.equipments, Emprestado, now)
        && history == old(history) + Logged(eqs0, req.equipments, id + 1, Loaned,
                                            LoanedToPublic(req.nomeSolicitante), PublicRequester, now)
        && notifications == old(notifications) + Notices(Admins(users), id + 1 + n,
                                                         PublicRequestFrom(req.nomeSolicitante, n), LoanCreated, now)
        && nextId == id + 1 + n + |Admins(users)|
    {
      var admins := Admins(users);
      res := OpenLoan(req, PublicRequester, LoanedToPublic(req.nomeSolicitante), now);
      if res.Ok? {
        NotifyEach(admins, PublicRequestFrom(req.nomeSolicitante, |req.equipments|), LoanCreated, now);
      }
    }

    /** `return_loan`: an unknown loan gives 404 and a Devolvido one 400, with
        nothing written. Otherwise the loan is stored as Devolvido with the
        return date, and each listed equipment is set to Disponível, whatever
        its status, with one `returned` entry. A listed tag that no equipment
        carries any more makes the handler fail at that point, after the loan
        and the earlier tags were written and before the notification. */
    method ReturnLoan(id: nat, returnDate: int, actor: User, now: int) returns (res: Result<()>)
      requires Valid()
      modifies this
      ensures Valid()
      ensures LoanIndex(old(loans), id).None? ==> res == Err(NotFound(LoanId(id))) && unchanged(this)
      ensures (LoanIndex(old(loans), id).Some? && old(loans)[LoanIndex(old(loans), id).value].statusDevolucao == Devolvido)
                ==> res == Err(BadRequest(AlreadyReturned)) && unchanged(this)
      ensures LoanIndex(old(loans), id).Some? && old(loans)[LoanIndex(old(loans), id).value].statusDevolucao != Devolvido ==>
        var k := LoanIndex(old(loans), id).value;
        var loan := old(loans)[k];
        var tags := loan.equipments;
        var done := FirstMissing(old(equipments), tags);
        && loans == old(loans)[k := loan.(dataDevolucaoReal := Some(returnDate), statusDevolucao := Devolvido)]
        && equipments == StatusSet(old(equipments), tags[..done], Disponivel, now)
        && history == old(history) + Logged(old(equipments), tags[..done], old(nextId), Returned,
                                            ReturnedBy(loan.nomeSolicitante), actor.username, now)
        && (done == |tags| ==>
              && res == Ok(())
              && notifications == old(notifications) + [Notification(old(nextId) + done, actor.id,
                                     LoanReturnedBy(loan.nomeSolicitante, |tags|), LoanReturned, false, now)]
              && nextId == old(nextId) + done + 1)
        && (done < |tags| ==>
              && res == Err(ServerError)
              && notifications == old(notifications)
              && nextId == old(nextId) + done)
    {
      var found := LoanIndex(loans, id);
      if found.None? {
        return Err(NotFound(LoanId(id)));
      }
      var k := found.value;
      var loan := loans[k];
      if loan.statusDevolucao == Devolvido {
        return Err(BadRequest(AlreadyReturned));
      }
      loans := loans[k := loan.(dataDevolucaoReal := Some(returnDate), statusDevolucao := Devolvido)];
      var done := SetStatusEach(loan.equipments, Disponivel, Returned, ReturnedBy(loan.nomeSolicitante), actor.username, now);
      if done < |loan.equipments| {
        return Err(ServerError);
      }
      Notify(actor.id, LoanReturnedBy(loan.nomeSolicitante, |loan.equipments|), LoanReturned, now);
      res := Ok(());
    }

    /** `get_loans`: the loans matching the query, each returned and stored as
        Atrasado if it was Pendente and past its due date. The query is
        applied to the stored statuses, before the rewrite. */
    method ListLoans(statusFilter: string, search: string, re: Matcher, now: int) returns (r: seq<Loan>)
      requires Valid()
      modifies this`loans
      ensures Valid()
      ensures r == RefreshAll(MatchingLoans(old(loans), statusFilter, search, re), now)
      ensures loans == RefreshMatching(old(loans), statusFilter, search, re, now)
    {
      var found := MatchingLoans(loans, statusFilter, search, re);
      ghost var loans0 := loans;
      assert RefreshIn(loans0, found[..0], now) == loans0;
      r := [];
      var i := 0;
      while i < |found|
        invariant 0 <= i <= |found|
        invariant loans == RefreshIn(loans0, found[..i], now)
        invariant r == RefreshAll(found[..i], now)
        modifies this`loans
      {
        assert found[i] in found;
        assert found[..i + 1] == found[..i] + [found[i]];
        var loan := RefreshListed(loans0, found[..i], found[i], now);
        RefreshAllStep(found, i, now);
        r := r + [loan];
        i := i + 1;
      }
      assert found[..i] == found;
      RefreshInKeepsRegistry(loans0, found, now, nextId);
    }

    /** One pass of the listing loop: the listed loan `loan` is returned
        refreshed, and stored as Atrasado when it is overdue. */
    method RefreshListed(ghost loans0: seq<Loan>, ghost listed: seq<Loan>, loan: Loan, now: int) returns (shown: Loan)
      requires LoanIdsFresh(loans0, nextId)
      requires loans == RefreshIn(loans0, listed, now) && loan in loans0
      modifies this`loans
      ensures shown == Refreshed(loan, now)
      ensures loans == RefreshIn(loans0, listed + [loan], now)
    {
      ghost var j :| 0 <= j < |loans0| && loans0[j] == loan;
      RefreshInExtend(loans0, listed, j, now, nextId);
      shown := loan;
      if loan.statusDevolucao == Pendente && now > loan.dataPrevistaDevolucao {
        RefreshInLookup(loans0, listed, j, now, nextId);
        var k := LoanIndex(loans, loan.id).value;
        loans := loans[k := loans[k].(statusDevolucao := Atrasado)];
        shown := loan.(statusDevolucao := Atrasado);
      }
    }

    /** `mark_notification_read`: no error for an unknown id or someone else's
        notification; only the read flag can change. */
    method MarkNotificationRead(id: nat, actor: User)
      requires Valid()
      modifies this`notifications
      ensures Valid()
      ensures notifications == MarkRead(old(notifications), id, actor.id)
    {
      notifications := MarkRead(notifications, id, actor.id);
    }

    /** `import_equipments`: a file whose name is not .xlsx/.xls, or that
        lacks a required column, is refused with 400 before any row is read.
        Otherwise each row whose tag is already in the registry (including a
        row inserted earlier in the same file) is counted as an error, and
        every other row is inserted with one `created` entry. */
    method ImportEquipments(filename: string, columns: set<string>, rows: seq<ImportRow>, actor: User, now: int)
      returns (res: Result<ImportReport>)
      requires Valid()
      modifies this`equipments, this`history, this`nextId
      ensures Valid()
      ensures !IsSpreadsheetName(filename) ==> res == Err(BadRequest(NotSpreadsheet))
      ensures IsSpreadsheetName(filename) && MissingColumnsOf(columns) != [] ==>
                res == Err(BadRequest(MissingColumns(MissingColumnsOf(columns))))
      ensures res.Err? ==> unchanged(this)
      ensures IsSpreadsheetName(filename) && MissingColumnsOf(columns) == [] ==>
        var eqs0, id0 := old(equipments), old(nextId);
        var accepted := AcceptedRows(eqs0, rows);
        && res == Ok(ReportOf(eqs0, rows))
        && equipments == eqs0 + Inserted(accepted, id0, now)
        && history == old(history) + ImportLogged(accepted, id0, actor.username, now)
        && nextId == id0 + 2 * |accepted|
    {
      if !IsSpreadsheetName(filename) {
        return Err(BadRequest(NotSpreadsheet));
      }
      var missing := MissingColumnsOf(columns);
      if missing != [] {
        return Err(BadRequest(MissingColumns(missing)));
      }
      var report := ImportRows(rows, actor.username, now);
      res := Ok(report);
    }

    /** The row loop of the import and its report: every row is handled in
        order, and at most `MaxReportedErrors` row errors are reported. */
    method ImportRows(rows: seq<ImportRow>, user: string, now: int) returns (report: ImportReport)
      requires Valid()
      modifies this`equipments, this`history, this`nextId
      ensures Valid()
      ensures report == ReportOf(old(equipments), rows)
      ensures ImportApplied(old(equipments), old(history), old(nextId), AcceptedRows(old(equipments), rows), user, now)
    {
      ghost var eqs0, history0, id0 := equipments, history, nextId;
      assert rows[..0] == [];
      var successCount, errors := 0, [];
      var i := 0;
      while i < |rows|
        invariant Valid() && ImportedSoFar(eqs0, history0, id0, rows, i, successCount, errors, user, now)
      {
        successCount, errors := ImportOne(eqs0, history0, id0, rows, i, successCount, errors, user, now);
        i := i + 1;
      }
      assert rows[..i] == rows;
      var reported := if |errors| <= MaxReportedErrors then errors else errors[..MaxReportedErrors];
      report := ImportReport(successCount, |errors|, reported);
    }

    /** The state after the import has inserted the rows `accepted`, starting
        from `eqs0`, `history0` and `id0`. */
    ghost predicate ImportApplied(eqs0: seq<Equipment>, history0: seq<HistoryEntry>, id0: nat,
                             accepted: seq<ImportRow>, user: string, now: int)
      reads this
    {
      && TagsUnique(eqs0) && EquipmentIdsFresh(eqs0, id0)
      && equipments == eqs0 + Inserted(accepted, id0, now)
      && history == history0 + ImportLogged(accepted, id0, user, now)
      && nextId == id0 + 2 * |accepted|
    }

    /** The state after the import loop has handled the first `i` rows, with
        the counters it keeps. */
    ghost predicate ImportedSoFar(eqs0: seq<Equipment>, history0: seq<HistoryEntry>, id0: nat, rows: seq<ImportRow>,
                                  i: nat, successCount: nat, errors: seq<ImportError>, user: string, now: int)
      reads this
    {
      && i <= |rows|
      && successCount == |AcceptedRows(eqs0, rows[..i])|
      && errors == RejectedRows(eqs0, rows[..i])
      && ImportApplied(eqs0, history0, id0, AcceptedRows(eqs0, rows[..i]), user, now)
    }

    /** One pass of the import loop: the `i`th row is inserted, with one
        `created` entry, unless its tag is already in the registry, in which
        case it is reported as an error. */
    method ImportOne(ghost eqs0: seq<Equipment>, ghost history0: seq<HistoryEntry>, ghost id0: nat,
                     rows: seq<ImportRow>, i: nat, successCount: nat, errors: seq<ImportError>, user: string, now: int)
      returns (successCount': nat, errors': seq<ImportError>)
      requires i < |rows|
      requires Valid() && ImportedSoFar(eqs0, history0, id0, rows, i, successCount, errors, user, now)
      modifies this`equipments, this`history, this`nextId
      ensures Valid() && ImportedSoFar(eqs0, history0, id0, rows, i + 1, successCount', errors', user, now)
    {
      ghost var accepted := AcceptedRows(eqs0, rows[..i]);
      ImportStep(eqs0, rows, i);
      var row := rows[i];
      RowAcceptedLive(eqs0, rows, i, id0, now);
      if TagIndex(equipments, row.numeroPatrimonio).Some? {
        return successCount, errors + [TagAlreadyExists(i + 2, row.numeroPatrimonio)];
      }
      ImportKeepsTagsUnique(eqs0, rows[..i + 1], id0, now);
      InsertImported(eqs0, history0, id0, accepted, row, user, now);
      successCount', errors' := successCount + 1, errors;
    }

    /** Inserts the record of an accepted row and its `created` entry. */
    method InsertImported(ghost eqs0: seq<Equipment>, ghost history0: seq<HistoryEntry>, ghost id0: nat,
                          ghost accepted: seq<ImportRow>, row: ImportRow, user: string, now: int)
      requires Valid() && ImportApplied(eqs0, history0, id0, accepted, user, now)
      requires TagsUnique(eqs0 + Inserted(accepted + [row], id0, now))
      modifies this`equipments, this`history, this`nextId
      ensures Valid() && ImportApplied(eqs0, history0, id0, accepted + [row], user, now)
    {
      var e := FromRow(row, nextId, now);
      InsertedAppend(accepted, row, id0, user, now);
      InsertedIdsFresh(eqs0, accepted + [row], id0, now, nextId + 1);
      equipments := equipments + [e];
      nextId := nextId + 1;
      assert equipments == eqs0 + Inserted(accepted + [row], id0, now);
      Record(e.id, Created, Imported(row.numeroPatrimonio), user, now);
    }
  }
}
