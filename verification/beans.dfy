/**
 The values exchanged with the Swedbank identification API: authentication
 methods, links, login statuses and the request and error bodies.
 */
module Beans {

  /** Names of the two request methods the adapter supports. */
  const Get: string := "GET"
  const Post: string := "POST"

  /** A provider-issued action: a request method name (`method` in the source) and a path. */
  datatype Link = Link(requestMethod: string, uri: string)

  datatype Links = Links(next: Link)

  datatype AuthenticationCode = BankIdMobile | BankIdCard | OtherCode(name: string)

  /** The enum constant's name, as `toString` prints it. */
  function CodeName(code: AuthenticationCode): string
  {
    match code
    case BankIdMobile => "BANKID_MOBILE"
    case BankIdCard => "BANKID_CARD"
    case OtherCode(name) => name
  }

  /** A code the Java enum can hold: `OtherCode` stands for a further constant, never for a named one. */
  predicate ValidCode(code: AuthenticationCode)
  {
    code.OtherCode? ==> code.name != "BANKID_MOBILE" && code.name != "BANKID_CARD"
  }

  /** Among codes the enum can hold, the printed name identifies the code. */
  lemma CodeNameInjective(a: AuthenticationCode, b: AuthenticationCode)
    requires ValidCode(a) && ValidCode(b)
    ensures CodeName(a) == CodeName(b) <==> a == b
  {
  }

  datatype LoginStatus =
    | ClientNotStarted
    | OutstandingTransaction
    | Complete
    | OtherStatus(name: string)

  /** The enum constant's name, as `toString` prints it. */
  function StatusName(status: LoginStatus): string
  {
    match status
    case ClientNotStarted => "CLIENT_NOT_STARTED"
    case OutstandingTransaction => "OUTSTANDING_TRANSACTION"
    case Complete => "COMPLETE"
    case OtherStatus(name) => name
  }

  /** A status the Java enum can hold: `OtherStatus` stands for a further constant, never for a named one. */
  predicate ValidStatus(status: LoginStatus)
  {
    status.OtherStatus? ==>
      status.name != "CLIENT_NOT_STARTED" && status.name != "OUTSTANDING_TRANSACTION" && status.name != "COMPLETE"
  }

  /** Among statuses the enum can hold, the printed name identifies the status. */
  lemma StatusNameInjective(a: LoginStatus, b: LoginStatus)
    requires ValidStatus(a) && ValidStatus(b)
    ensures StatusName(a) == StatusName(b) <==> a == b
  {
  }

  datatype AuthenticationMethod = AuthenticationMethod(message: string, code: AuthenticationCode, location: Link)

  datatype AuthenticationMethodsResponse = AuthenticationMethodsResponse(authenticationMethods: seq<AuthenticationMethod>)

  datatype LoginInitiationResponse = LoginInitiationResponse(status: LoginStatus, links: Links)

  datatype FieldError = FieldError(message: string)

  datatype ErrorMessages = ErrorMessages(fields: seq<FieldError>)

  /** The body of a non-2xx response. */
  datatype HttpException = HttpException(errorMessages: ErrorMessages)

  /** The body posted to start a Mobile BankID login. */
  datatype MobileBankIDRequest = MobileBankIDRequest(bankIdOnSameDevice: bool, userId: string)
}
