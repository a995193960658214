/**
 * `Configuration.Validate`: the checks a loaded configuration must pass, in
 * the order they are made, and the normalisation of the mail domains that
 * follows them. A thrown `ArgumentException` is the error result; a `null`
 * property is `None`.
 */
module Configurations {
  import opened Common
  import opened Text

  datatype ValidationError =
    | TimeToLiveTooShort
    | MailDomainsNotSet
    | IncomingMailDirectoryNotSet
    | MailboxDirectoryNotSet
    | DatabaseConnectionStringNotSet
  {
    /** The message of the exception thrown for this error. */
    function Message(): string {
      match this
      case TimeToLiveTooShort => "Configuration - TimeToLiveInMinutes must be >= 1."
      case MailDomainsNotSet => "Configuration - MailDomains not set."
      case IncomingMailDirectoryNotSet => "Configuration - ExtractedMailDirectory not set."
      case MailboxDirectoryNotSet => "Configuration - ExtractedMailDirectory not set."
      case DatabaseConnectionStringNotSet => "Configuration - DatabaseConnectionString not set."
    }
  }

  /** A configured mail domain as it is used: trimmed and lower-cased. */
  function NormalizeDomain(d: string): (r: string)
    ensures |r| <= |d|
  {
    ToLower(Trim(d))
  }

  /**
   * The first check a configuration fails, in the order `Validate` makes
   * them, or `None` when it passes them all.
   */
  function FirstError(ttlMinutes: int, domains: Option<seq<string>>, incomingMailDirectory: Option<string>,
                      mailboxDirectory: Option<string>, databaseConnectionString: Option<string>): (r: Option<ValidationError>)
    ensures r.None? <==>
      && ttlMinutes >= 1
      && domains.Some? && |domains.value| > 0
      && !IsNullOrWhiteSpace(incomingMailDirectory)
      && !IsNullOrWhiteSpace(mailboxDirectory)
      && !IsNullOrWhiteSpace(databaseConnectionString)
    ensures r == Some(TimeToLiveTooShort) <==> ttlMinutes < 1
    ensures r == Some(DatabaseConnectionStringNotSet) ==>
      ttlMinutes >= 1 && domains.Some? && |domains.value| > 0
      && !IsNullOrWhiteSpace(incomingMailDirectory) && !IsNullOrWhiteSpace(mailboxDirectory)
  {
    if ttlMinutes < 1 then Some(TimeToLiveTooShort)
    else if domains.None? || |domains.value| == 0 then Some(MailDomainsNotSet)
    else if IsNullOrWhiteSpace(incomingMailDirectory) then Some(IncomingMailDirectoryNotSet)
    else if IsNullOrWhiteSpace(mailboxDirectory) then Some(MailboxDirectoryNotSet)
    else if IsNullOrWhiteSpace(databaseConnectionString) then Some(DatabaseConnectionStringNotSet)
    else None
  }

  /** The two directory checks report the same message, which names neither property. */
  lemma DirectoryMessagesCoincide()
    ensures IncomingMailDirectoryNotSet.Message() == MailboxDirectoryNotSet.Message()
  {
  }

  /** Normalising a domain twice is the same as normalising it once. */
  lemma NormalizeDomainIdempotent(d: string)
    ensures NormalizeDomain(NormalizeDomain(d)) == NormalizeDomain(d)
  {
    var t := Trim(d);
    TrimOfLower(t);
    TrimIdempotent(d);
    ToLowerIdempotent(t);
  }

  /** A normalised domain has no white space at either end and no ASCII capital. */
  lemma NormalizedDomainShape(d: string)
    ensures var r := NormalizeDomain(d);
      && (r == [] || (!IsWhiteSpace(r[0]) && !IsWhiteSpace(r[|r| - 1])))
      && (forall i :: 0 <= i < |r| ==> !('A' <= r[i] <= 'Z'))
  {
    TrimEndsNotWhiteSpace(d);
    var t := Trim(d);
    if t != [] {
      LowerKeepsWhiteSpace(t[0]);
      LowerKeepsWhiteSpace(t[|t| - 1]);
    }
  }

  class Configuration {
    var timeToLiveInMinutes: int
    var mailDomains: Option<seq<string>>
    var databaseConnectionString: Option<string>
    var incomingMailDirectory: Option<string>
    var mailboxDirectory: Option<string>

    constructor (ttlMinutes: int, domains: Option<seq<string>>, databaseConnection: Option<string>,
                 incomingMail: Option<string>, mailbox: Option<string>)
      ensures timeToLiveInMinutes == ttlMinutes && mailDomains == domains
      ensures databaseConnectionString == databaseConnection
      ensures incomingMailDirectory == incomingMail && mailboxDirectory == mailbox
    {
      timeToLiveInMinutes := ttlMinutes;
      mailDomains := domains;
      databaseConnectionString := databaseConnection;
      incomingMailDirectory := incomingMail;
      mailboxDirectory := mailbox;
    }

    function Error(): Option<ValidationError>
      reads this
    {
      FirstError(timeToLiveInMinutes, mailDomains, incomingMailDirectory, mailboxDirectory, databaseConnectionString)
    }

    /**
     * `Validate`: report the first failing check and change nothing; when
     * every check passes, replace each mail domain, in place, by its
     * normalised form.
     */
    method Validate() returns (error: Option<ValidationError>)
      modifies this`mailDomains
      ensures error == old(Error())
      ensures error.Some? ==> mailDomains == old(mailDomains)
      ensures error.None? ==>
        && mailDomains.Some?
        && |mailDomains.value| == |old(mailDomains).value|
        && forall i :: 0 <= i < |mailDomains.value| ==>
             mailDomains.value[i] == NormalizeDomain(old(mailDomains).value[i])
    {
      if timeToLiveInMinutes < 1 { return Some(TimeToLiveTooShort); }
      if mailDomains.None? || |mailDomains.value| == 0 { return Some(MailDomainsNotSet); }
      if IsNullOrWhiteSpace(incomingMailDirectory) { return Some(IncomingMailDirectoryNotSet); }
      if IsNullOrWhiteSpace(mailboxDirectory) { return Some(MailboxDirectoryNotSet); }
      if IsNullOrWhiteSpace(databaseConnectionString) { return Some(DatabaseConnectionStringNotSet); }

      ghost var original := mailDomains.value;
      for i := 0 to |mailDomains.value|
        invariant mailDomains.Some? && |mailDomains.value| == |original|
        invariant forall j :: 0 <= j < i ==> mailDomains.value[j] == NormalizeDomain(original[j])
        invariant forall j :: i <= j < |original| ==> mailDomains.value[j] == original[j]
      {
        mailDomains := Some(mailDomains.value[i := NormalizeDomain(mailDomains.value[i])]);
      }
      error := None;
    }
  }

  /** Validating a configuration that passed once passes again and leaves its domains as they are. */
  lemma RevalidationIsStable(domains: seq<string>)
    ensures var normalized := seq(|domains|, i requires 0 <= i < |domains| => NormalizeDomain(domains[i]));
      forall i :: 0 <= i < |normalized| ==> NormalizeDomain(normalized[i]) == normalized[i]
  {
    forall i | 0 <= i < |domains|
      ensures NormalizeDomain(NormalizeDomain(domains[i])) == NormalizeDomain(domains[i])
    {
      NormalizeDomainIdempotent(domains[i]);
    }
  }
}
