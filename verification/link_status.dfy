/** isBroken: the verdict drawn from the HEAD request sent to one link. */
module LinkStatus {

  /**
   * What the HEAD request produced. The request itself (five-second context,
   * default client, redirects) is network I/O and is taken as given.
   */
  datatype HeadOutcome =
    | RequestInvalid        // http.NewRequestWithContext failed
    | TransportFailed       // the client returned an error instead of a response
    | Responded(code: int)  // a response arrived with this status code

  /** The pair (status, broken) that isBroken returns. */
  datatype Verdict = Verdict(status: int, broken: bool)

  /** Status codes from this value up are client or server errors. */
  const FirstErrorStatus := 400

  function IsBroken(outcome: HeadOutcome): (v: Verdict)
    ensures outcome.Responded? ==> v.status == outcome.code
    ensures outcome.Responded? ==> (v.broken <==> outcome.code >= FirstErrorStatus)
    ensures !outcome.Responded? ==> v == Verdict(0, true)
  {
    match outcome
    case RequestInvalid => Verdict(0, true)
    case TransportFailed => Verdict(0, true)
    case Responded(code) =>
      if code >= FirstErrorStatus then Verdict(code, true) else Verdict(code, false)
  }

  /** A code an HTTP response can carry: three digits, the first at least 1. */
  predicate IsHttpStatus(code: int) {
    100 <= code <= 999
  }

  /**
   * For real responses, the reported status alone tells whether the link is
   * broken: 0 stands for "no response", and otherwise broken means 4xx or above.
   */
  lemma StatusDecidesBrokenness(outcome: HeadOutcome)
    requires outcome.Responded? ==> IsHttpStatus(outcome.code)
    ensures IsBroken(outcome).broken <==>
      IsBroken(outcome).status == 0 || IsBroken(outcome).status >= FirstErrorStatus
    ensures IsBroken(outcome).status == 0 <==> !outcome.Responded?
  {
  }
}
