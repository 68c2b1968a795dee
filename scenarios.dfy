/** The handlers called on concrete stores, pinning down behaviour one might
    expect to be otherwise. Each method starts from an empty store and its
    contract states the proved outcome of its calls. */
module Scenarios {
  import opened Domain
  import opened Queries
  import opened Inventory

  const Admin: User := User("u1", "ana", AdminRole)

  /** A creation request for a notebook with asset tag `tag` and status `status`. */
  function Item(tag: string, status: string): (r: EquipmentCreate)
    ensures r.numeroPatrimonio == tag && r.status == Some(status)
  {
    EquipmentCreate(tag, "SN-" + tag, "Dell", "Latitude", "Notebook", "TI", None, Some(status))
  }

  /** A loan request by Bruno for the tags `tags`. */
  function Request(tags: seq<string>): (r: LoanCreate)
    ensures r.equipments == tags
  {
    LoanCreate(10, "Bruno", "RH", 20, tags)
  }

  /** Only Emprestado blocks a loan: an item under maintenance is lent, and
      returning it sets it to Disponível, not back to Manutenção. */
  method MaintenanceLentAndReleased() returns (lent: Result<Loan>, returned: Result<()>, status: string)
    ensures lent.Ok? && returned.Ok?
    ensures status == Disponivel
  {
    var s := new Store([Admin]);
    var created := s.CreateEquipment(Item("P1", Manutencao), Admin, 1);
    assert s.equipments[0].status == Manutencao;
    assert TagIndex(s.equipments, "P1") == Some(0);
    lent := s.CreateLoan(Request(["P1"]), Admin, 2);
    assert s.equipments[0].status == Emprestado;
    returned := s.ReturnLoan(lent.value.id, 30, Admin, 31);
    status := s.equipments[0].status;
  }

  /** Deleting does not look at open loans: an admin deletes a lent item,
      and returning the loan then fails with 500 after the loan itself has
      already been stored as returned. */
  method DeleteWhileLent() returns (deleted: Result<()>, returned: Result<()>, stored: LoanStatus)
    ensures deleted.Ok? && returned == Err(ServerError)
    ensures stored == Devolvido
  {
    var s := new Store([Admin]);
    var created := s.CreateEquipment(Item("P1", Disponivel), Admin, 1);
    assert TagIndex(s.equipments, "P1") == Some(0);
    var lent := s.CreateLoan(Request(["P1"]), Admin, 2);
    assert |s.equipments| == 1 && s.equipments[0].id == created.value.id;
    assert EquipmentIndex(s.equipments, created.value.id) == Some(0);
    deleted := s.DeleteEquipment(created.value.id, Admin);
    assert s.equipments == [];
    returned := s.ReturnLoan(lent.value.id, 30, Admin, 31);
    stored := s.loans[0].statusDevolucao;
  }

  /** A loan may list the same tag twice: both copies pass the check, and
      each gets its own history entry and counts in the notification. */
  method DuplicateTagLoan() returns (lent: Result<Loan>, loanEntries: nat, message: Message)
    ensures lent.Ok?
    ensures loanEntries == 2 && message == LoanCreatedFor("Bruno", 2)
  {
    var s := new Store([Admin]);
    var created := s.CreateEquipment(Item("P1", Disponivel), Admin, 1);
    assert TagIndex(s.equipments, "P1") == Some(0);
    lent := s.CreateLoan(Request(["P1", "P1"]), Admin, 2);
    loanEntries := |s.history| - 1;
    message := s.notifications[0].message;
  }

  /** The edit form may set any status: an item edited to Emprestado is then
      refused for loan although no loan holds it. */
  method EditedToLent() returns (updated: Result<Equipment>, lent: Result<Loan>, loanCount: nat)
    ensures updated.Ok?
    ensures lent == Err(BadRequest(AlreadyLoaned("P1"))) && loanCount == 0
  {
    var s := new Store([Admin]);
    var created := s.CreateEquipment(Item("P1", Disponivel), Admin, 1);
    assert EquipmentIndex(s.equipments, created.value.id) == Some(0);
    updated := s.UpdateEquipment(created.value.id, EquipmentUpdate(None, None, None, None, None, None, Some(Emprestado)), Admin, 2);
    assert TagIndex(s.equipments, "P1") == Some(0);
    lent := s.CreateLoan(Request(["P1"]), Admin, 3);
    loanCount := |s.loans|;
  }

  /** A spreadsheet row for a notebook with asset tag `tag`. */
  function Row(tag: string): (r: ImportRow)
    ensures r.numeroPatrimonio == tag
  {
    ImportRow(tag, "SN-" + tag, "Dell", "Latitude", "Notebook", "TI", None, Disponivel)
  }

  /** A tag already in the registry and a tag repeated within the file are
      both reported, by spreadsheet line; the other rows are inserted. */
  method ImportWithDuplicates() returns (res: Result<ImportReport>, total: nat)
    ensures res == Ok(ImportReport(2, 2, [TagAlreadyExists(3, "P1"), TagAlreadyExists(5, "P3")]))
    ensures total == 3
  {
    var s := new Store([Admin]);
    var created := s.CreateEquipment(Item("P1", Disponivel), Admin, 1);
    var rows := [Row("P2"), Row("P1"), Row("P3"), Row("P3")];
    DuplicatesReport(s.equipments, rows);
    ghost var accepted := AcceptedRows(s.equipments, rows);
    var columns := set c <- RequiredColumns;
    assert EndsWith("a.xlsx", ".xlsx");
    NoMissingColumns(columns);
    res := s.ImportEquipments("a.xlsx", columns, rows, Admin, 2);
    assert |s.equipments| == 1 + |accepted|;
    total := |s.equipments|;
  }

  /** The import's outcome for the rows of `ImportWithDuplicates`, against a
      registry holding only P1. */
  lemma DuplicatesReport(eqs: seq<Equipment>, rows: seq<ImportRow>)
    requires |eqs| == 1 && eqs[0].numeroPatrimonio == "P1"
    requires rows == [Row("P2"), Row("P1"), Row("P3"), Row("P3")]
    ensures AcceptedRows(eqs, rows) == [Row("P2"), Row("P3")]
    ensures RejectedRows(eqs, rows) == [TagAlreadyExists(3, "P1"), TagAlreadyExists(5, "P3")]
    ensures ReportOf(eqs, rows) == ImportReport(2, 2, [TagAlreadyExists(3, "P1"), TagAlreadyExists(5, "P3")])
  {
    assert RowAccepted(eqs, rows, 0) && !RowAccepted(eqs, rows, 1);
    assert RowAccepted(eqs, rows, 2) && !RowAccepted(eqs, rows, 3);
    AcceptSkipAcceptSkip(eqs, rows);
  }

  /** Four rows of which the first and third are accepted: the import
      inserts those two and reports the others by line. */
  lemma AcceptSkipAcceptSkip(eqs: seq<Equipment>, rows: seq<ImportRow>)
    requires |rows| == 4
    requires RowAccepted(eqs, rows, 0) && !RowAccepted(eqs, rows, 1)
    requires RowAccepted(eqs, rows, 2) && !RowAccepted(eqs, rows, 3)
    ensures AcceptedRows(eqs, rows) == [rows[0], rows[2]]
    ensures RejectedRows(eqs, rows)
         == [TagAlreadyExists(3, rows[1].numeroPatrimonio), TagAlreadyExists(5, rows[3].numeroPatrimonio)]
  {
    assert rows[..0] == [];
    ImportStep(eqs, rows, 0);
    ImportStep(eqs, rows, 1);
    ImportStep(eqs, rows, 2);
    ImportStep(eqs, rows, 3);
    assert rows[..4] == rows;
  }
}