/** The record shapes the pipeline passes around: a processed spreadsheet
    row, its validation outcome, the aggregate statistics and the payload
    sent for certificate emission. */
module Records {

  datatype Option<+T> = None | Some(value: T)

  /** The three validation failures a record can have. The source reports
      them as display strings; `Label` gives those strings. */
  datatype ValidationError = InvalidName | InvalidCpf | InvalidEmail {

    /** Position of the check in the order `validateRecord` runs them. */
    function Rank(): nat {
      match this
      case InvalidName => 0
      case InvalidCpf => 1
      case InvalidEmail => 2
    }

    function Label(): string {
      match this
      case InvalidName => "Nome inv\U{E1}lido"
      case InvalidCpf => "CPF inv\U{E1}lido"
      case InvalidEmail => "E-mail inv\U{E1}lido"
    }
  }

  datatype ValidationResult = ValidationResult(isValid: bool, errors: seq<ValidationError>)

  /** One processed spreadsheet row. */
  datatype ProcessedData = ProcessedData(
    nome: string,
    cpf: string,
    telefone: string,
    email: string,
    isValid: bool,
    errors: seq<ValidationError>,
    willEmit: bool)

  datatype SpreadsheetStats = SpreadsheetStats(
    totalRecords: nat,
    approvedForEmission: nat,
    rejectedForEmission: nat,
    invalidRecords: nat)

  /** The four fields sent to the certificate-emission service. */
  datatype EmissionData = EmissionData(nome: string, cpf: string, telefone: string, email: string)
}
