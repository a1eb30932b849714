/** The DNSSEC resolver (`get_dnssec_status`): one `get_dnssec` query for a
    public hosted zone, mapped to the status string of the report. */
module Dnssec {
  import opened Common

  /** The status written for a zone whose DNSSEC query reports that no
      signing is configured. */
  const NotConfigured: string := "NOT_CONFIGURED"

  /** The `Status` block of a `get_dnssec` response, whose own `Status`
      field may be missing. */
  datatype StatusBlock = StatusBlock(status: Option<string>)

  /** What `route53.get_dnssec(HostedZoneId=...)` came back with: a response
      (whose `Status` block may be missing), the DNSSECNotFound error, or any
      other error. */
  datatype DnssecOutcome =
    | DnssecResponse(statusBlock: Option<StatusBlock>)
    | DnssecNotFound
    | DnssecFailed

  /** The signing state a successful response carries, if it carries one:
      `resp["Status"]["Status"]`, a missing `Status` block counting as empty. */
  function ReportedState(o: DnssecOutcome): Option<string> {
    if o.DnssecResponse? && o.statusBlock.Some? then o.statusBlock.value.status else None
  }

  /** The report's DNSSEC status of a public zone. A response yields the state
      it reports, or UNKNOWN when it reports none; DNSSECNotFound yields
      NOT_CONFIGURED; any other error yields UNKNOWN. */
  function DnssecStatus(o: DnssecOutcome): (r: string)
    ensures o.DnssecResponse? && ReportedState(o).Some? ==> r == ReportedState(o).value
    ensures o.DnssecResponse? && ReportedState(o).None? ==> r == UnknownText
    ensures o.DnssecNotFound? ==> r == NotConfigured
    ensures o.DnssecFailed? ==> r == UnknownText
  {
    match o
    case DnssecResponse(block) =>
      (match block
       case Some(StatusBlock(Some(state))) => state
       case _ => UnknownText)
    case DnssecNotFound => NotConfigured
    case DnssecFailed => UnknownText
  }

  /** The status is always one of three things: the state the service
      reported, NOT_CONFIGURED, or UNKNOWN. In particular it is never
      NOT_SUPPORTED_PRIVATE_ZONE unless the service itself said so. */
  lemma DnssecStatusRange(o: DnssecOutcome)
    ensures var r := DnssecStatus(o);
            r == NotConfigured || r == UnknownText || ReportedState(o) == Some(r)
  {
  }
}
