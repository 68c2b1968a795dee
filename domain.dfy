/** Records of the equipment-and-loan service: the stored documents of the
    four collections (equipments, loans, equipment_history, notifications),
    the request bodies of the handlers, and the error exits they raise. */
module Domain {

  datatype Option<+T> = None | Some(value: T) {
    function GetOr(default: T): T {
      if Some? then value else default
    }
  }

  /** What a 404 exit names as missing. */
  datatype Subject = EquipmentId(id: nat) | EquipmentTag(tag: string) | LoanId(id: nat)

  /** Why a 400 exit was raised. */
  datatype Reason =
    | TagExists
    | AlreadyLoaned(tag: string)
    | AlreadyReturned
    | NotPdf
    | NotSpreadsheet
    | MissingColumns(columns: seq<string>)

  /** The HTTP exits of the handlers: 404, 400, 403, and 500 for an exception
      the handler does not catch. */
  datatype Error = NotFound(subject: Subject) | BadRequest(reason: Reason) | Forbidden | ServerError

  datatype Result<+T> = Ok(value: T) | Err(error: Error)

  // Equipment statuses. The field is free text in the service; these are the
  // values its handlers write or test.
  const Disponivel: string := "Disponível"
  const EmUso: string := "Em uso"
  const Emprestado: string := "Emprestado"
  const Manutencao: string := "Manutenção"
  const Baixado: string := "Baixado"

  const AdminRole: string := "admin"
  /** The history author recorded for loans made through the public request form. */
  const PublicRequester: string := "Sistema - Solicitação Pública"
  const PdfContentType: string := "application/pdf"

  /** An authenticated account; authentication itself is not modelled. */
  datatype User = User(id: string, username: string, role: string)

  datatype Equipment = Equipment(
    id: nat,
    numeroPatrimonio: string,
    numeroSerie: string,
    marca: string,
    modelo: string,
    tipoEquipamento: string,
    departamentoAtual: string,
    responsavelAtual: Option<string>,
    termoResponsabilidade: Option<string>,  // opaque reference to the attached PDF
    status: string,
    createdAt: int,
    updatedAt: int)

  /** Body of the create request; `status` is None when the client omits it. */
  datatype EquipmentCreate = EquipmentCreate(
    numeroPatrimonio: string,
    numeroSerie: string,
    marca: string,
    modelo: string,
    tipoEquipamento: string,
    departamentoAtual: string,
    responsavelAtual: Option<string>,
    status: Option<string>)

  /** Body of the update request: every field optional, and no asset tag. */
  datatype EquipmentUpdate = EquipmentUpdate(
    numeroSerie: Option<string>,
    marca: Option<string>,
    modelo: Option<string>,
    tipoEquipamento: Option<string>,
    departamentoAtual: Option<string>,
    responsavelAtual: Option<string>,
    status: Option<string>)

  datatype LoanStatus = Pendente | Devolvido | Atrasado {
    /** The text stored in `status_devolucao` and matched by the list filter. */
    function Name(): string {
      match this
      case Pendente => "Pendente"
      case Devolvido => "Devolvido"
      case Atrasado => "Atrasado"
    }
  }

  /** A loan; dates are instants on one integer clock. */
  datatype Loan = Loan(
    id: nat,
    dataEmprestimo: int,
    nomeSolicitante: string,
    departamentoSolicitante: string,
    dataPrevistaDevolucao: int,
    dataDevolucaoReal: Option<int>,
    statusDevolucao: LoanStatus,
    equipments: seq<string>,  // asset tags
    createdAt: int)

  datatype LoanCreate = LoanCreate(
    dataEmprestimo: int,
    nomeSolicitante: string,
    departamentoSolicitante: string,
    dataPrevistaDevolucao: int,
    equipments: seq<string>)

  datatype Action = Created | Updated | Loaned | Returned | TermoUploaded

  /** The description text of a history entry, by its parameters. */
  datatype Description =
    | CreatedManually(tag: string)
    | Imported(tag: string)
    | Edited
    | TermoAttached
    | LoanedTo(nome: string)
    | LoanedToPublic(nome: string)
    | ReturnedBy(nome: string)

  datatype HistoryEntry = HistoryEntry(
    id: nat,
    equipmentId: nat,
    action: Action,
    description: Description,
    user: string,
    timestamp: int)

  datatype NotificationKind = LoanCreated | LoanReturned

  /** The message text of a notification, by its parameters. */
  datatype Message =
    | LoanCreatedFor(nome: string, count: nat)
    | LoanReturnedBy(nome: string, count: nat)
    | PublicRequestFrom(nome: string, count: nat)

  datatype Notification = Notification(
    id: nat,
    userId: string,
    message: Message,
    kind: NotificationKind,
    read: bool,
    createdAt: int)

  /** An uploaded file: its declared content type and its (opaque) content. */
  datatype Upload = Upload(contentType: string, content: string)

  /** One spreadsheet row, already parsed into cell texts; an empty
      `responsavel_atual` cell is None. */
  datatype ImportRow = ImportRow(
    numeroPatrimonio: string,
    numeroSerie: string,
    marca: string,
    modelo: string,
    tipoEquipamento: string,
    departamentoAtual: string,
    responsavelAtual: Option<string>,
    status: string)

  /** A rejected row: its spreadsheet line (header is line 1) and its tag. */
  datatype ImportError = TagAlreadyExists(line: nat, tag: string)

  datatype ImportReport = ImportReport(successCount: nat, errorCount: nat, errors: seq<ImportError>)

  const RequiredColumns: seq<string> :=
    ["numero_patrimonio", "numero_serie", "marca", "modelo",
     "tipo_equipamento", "departamento_atual", "status"]

  /** At most this many row errors are reported back. */
  const MaxReportedErrors: nat := 10

  /** Filters of the equipment listing; the empty string means "not given". */
  datatype EquipmentQuery = EquipmentQuery(tipo: string, departamento: string, status: string, search: string)

  /** Case-insensitive regular-expression match of a pattern against a text,
      supplied by the database. */
  type Matcher = (string, string) -> bool

  datatype DashboardStats = DashboardStats(
    totalEquipments: nat,
    available: nat,
    loaned: nat,
    maintenance: nat,
    activeLoans: nat,
    overdueLoans: nat)
}
