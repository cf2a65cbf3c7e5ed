/** The results of the DNS library, and what stands for code that does not come to an end. */
module DnsTypes {
  import DnsAnswers

  /** What comes of a loop that may go round for ever. */
  datatype Ending<+T> = Never | Done(value: T)

  datatype DnsError =
    | NoConfig | NoServer | InvalidHostname | Timeout | ServerUnreachable | NxDomain | MalformedResponse | Truncated
    | ServerFailure | NoARecord | Network

  /** What comes of one query: sending it, waiting for the reply and reading it; reading may not come to an end. */
  datatype Outcome = Ok(answer: DnsAnswers.Answer) | Err(error: DnsError) | Stuck
}
