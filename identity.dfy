/** The identity resolver (`get_account_id`): the caller-identity lookup of the
    identity service, reduced to what it returned. */
module Identity {
  import opened Common

  /** What `sts.get_caller_identity()` came back with: an error (from building
      the client or from the call), or a response that may lack `Account`. */
  datatype IdentityOutcome =
    | IdentityFailed
    | CallerIdentity(account: Option<string>)

  /** The account id of the profile: the `Account` field of a successful
      lookup, and the sentinel UNKNOWN when the lookup failed or the field is
      missing. The lookup never aborts the audit of the account. */
  function AccountId(o: IdentityOutcome): (r: string)
    ensures o.CallerIdentity? && o.account.Some? ==> r == o.account.value
    ensures o.IdentityFailed? || o.account.None? ==> r == UnknownText
  {
    match o
    case IdentityFailed => UnknownText
    case CallerIdentity(account) =>
      match account
      case Some(id) => id
      case None => UnknownText
  }
}
