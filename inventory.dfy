/** The per-account audit (`inventory_profile`): resolve the account id and the
    registrar index, walk the hosted-zone listing, classify every zone, resolve
    DNSSEC for public zones only, and emit one report row per zone. */
module Inventory {
  import opened Common
  import opened Names
  import opened Identity
  import opened Dnssec
  import opened Registrar

  /** The DNSSEC status written for a private zone, which is never queried. */
  const NotSupportedPrivateZone: string := "NOT_SUPPORTED_PRIVATE_ZONE"

  /** The `Config` block of a hosted zone; `PrivateZone` may be missing. */
  datatype ZoneConfig = ZoneConfig(privateZone: Option<bool>)

  /** One entry of a `list_hosted_zones` page: `Id` is a path such as
      "/hostedzone/Z123", `Name` carries the trailing root dot, `Config` may be
      missing. */
  datatype HostedZone = HostedZone(id: string, name: string, config: Option<ZoneConfig>)

  /** What the hosted-zone paginator yields next: a page of zones, or an error. */
  datatype ZonePage = ZonesListed(zones: seq<HostedZone>) | ZoneListingFailed

  datatype ZoneType = Public | Private

  /** The `registered_in_route53` column. */
  datatype Registration = Yes | No | Unknown

  /** One report row, its fields in the order of the report's columns. */
  datatype Row = Row(
    profile: string,
    accountId: string,
    hostedZoneId: string,
    domainName: string,
    zoneType: ZoneType,
    registered: Registration,
    dnssecStatus: string)

  /** What a profile name resolves to: no such profile, or a session given by
      the answers its remote calls return. `dnssec` answers the DNSSEC query of
      each zone id. */
  datatype ProfileSession =
    | ProfileNotFound
    | Session(
        identity: IdentityOutcome,
        registrarClientOk: bool,
        registrarReplies: seq<ListDomainsReply>,
        zonePages: seq<ZonePage>,
        dnssec: string -> DnssecOutcome)

  /** The outcome of auditing one profile: its rows, or an error that escaped
      (the zone listing failed), which ends the whole run. */
  datatype ProfileResult = Rows(rows: seq<Row>) | Raised

  /** The registrar walk of the session ends (see Registrar.WalkEnds). */
  predicate RegistrarTerminates(s: ProfileSession) {
    s.Session? && s.registrarClientOk ==> WalkEnds(s.registrarReplies)
  }

  /** `hz.get("Config", {}).get("PrivateZone", False)`: only an explicit true
      makes a zone private. */
  predicate IsPrivate(z: HostedZone) {
    match z.config
    case None => false
    case Some(config) => config.privateZone == Some(true)
  }

  /** The registrar verdict of a zone: UNKNOWN whenever the registrar listing
      was not read in full, whatever the partial set holds; otherwise YES or NO
      by membership of the normalised name. This is the rule the line layout of
      src/route53_dnssec_inventory.py:116-118 suggests, with the availability
      test guarding both answers; the rows of this model use it. See
      VerdictAsWritten for how the expression actually parses. */
  function Verdict(index: RegistrarIndex, name: string): (v: Registration)
    ensures v == Unknown <==> !index.available
    ensures v == Yes <==> index.available && name in index.domains
    ensures v == No <==> index.available && name !in index.domains
  {
    if !index.available then Unknown
    else if name in index.domains then Yes
    else No
  }

  /** The verdict expression as Python parses it: a conditional expression
      nests in the else branch of the one before it, so membership is tested
      first and availability only for names outside the set. */
  function VerdictAsWritten(index: RegistrarIndex, name: string): (v: Registration)
    ensures name in index.domains ==> v == Yes
    ensures name !in index.domains && index.available ==> v == No
    ensures name !in index.domains && !index.available ==> v == Unknown
  {
    if name in index.domains then Yes
    else if index.available then No
    else Unknown
  }

  /** The two verdicts differ exactly for a name that is in the set of a
      listing that was not read in full: the expression as written answers YES
      where the intended rule answers UNKNOWN. */
  lemma {:induction false} VerdictAsWrittenDiffers(index: RegistrarIndex, name: string)
    ensures VerdictAsWritten(index, name) != Verdict(index, name) <==>
              !index.available && name in index.domains
    ensures VerdictAsWritten(index, name) != Verdict(index, name) ==>
              VerdictAsWritten(index, name) == Yes && Verdict(index, name) == Unknown
  {
  }

  /** A listing whose second page fails keeps the names of the first page, and
      the expression as written then reports such a zone as registered. */
  lemma {:induction false} PartialListingSaysYes(replies: seq<ListDomainsReply>)
    requires replies == [DomainsPage([DomainEntry(Some("example.com"))], Some("p2")), ListFailed]
    ensures WalkEnds(replies)
    ensures VerdictAsWritten(Lookup(true, replies), TrimDots("example.com.")) == Yes
    ensures Verdict(Lookup(true, replies), TrimDots("example.com.")) == Unknown
  {
    assert !Continues(replies[1]);
    assert LastReply(replies) == 1;
    TrimDotsOfNormalised("example.com");
    TrimDotsIgnoresTrailingDot("example.com");
    assert "example.com" + "." == "example.com.";
    var entries := replies[0].domains;
    assert entries[..0] == [];
    assert PageNames(entries) == {"example.com"};
    assert replies[..2] == replies;
    assert replies[..2][..1][..0] == [];
    assert Gathered(replies[..2][..1]) == {"example.com"};
    assert Gathered(replies[..2]) == {"example.com"};
  }

  /** The row of one zone. */
  function ZoneRow(profile: string, accountId: string, index: RegistrarIndex,
                   dnssec: string -> DnssecOutcome, z: HostedZone): Row
  {
    var id := LastSegment(z.id);
    var name := TrimDots(z.name);
    Row(profile, accountId, id, name,
        if IsPrivate(z) then Private else Public,
        Verdict(index, name),
        if IsPrivate(z) then NotSupportedPrivateZone else DnssecStatus(dnssec(id)))
  }

  /** What the row of a zone says: the profile and account it was audited
      under; the zone id without '/' and the name without trailing dot; PRIVATE
      exactly for a private zone, which is never given a queried status; and
      the registrar verdict, UNKNOWN exactly when the listing was not read in
      full and otherwise YES exactly for a registered name. */
  lemma ZoneRowFacts(profile: string, accountId: string, index: RegistrarIndex,
                     dnssec: string -> DnssecOutcome, z: HostedZone)
    ensures var row := ZoneRow(profile, accountId, index, dnssec, z);
            && row.profile == profile && row.accountId == accountId
            && row.hostedZoneId == LastSegment(z.id) && '/' !in row.hostedZoneId
            && row.domainName == TrimDots(z.name) && Normalised(row.domainName)
            && (row.zoneType == Private <==> IsPrivate(z))
            && (row.zoneType == Private ==> row.dnssecStatus == NotSupportedPrivateZone)
            && (row.zoneType == Public ==> row.dnssecStatus == DnssecStatus(dnssec(row.hostedZoneId)))
            && (row.registered == Unknown <==> !index.available)
            && (row.registered == Yes <==> index.available && row.domainName in index.domains)
  {
  }

  /** The row the script itself writes for a zone: the row above, but with
      the verdict of the expression as written. */
  function ZoneRowAsWritten(profile: string, accountId: string, index: RegistrarIndex,
                            dnssec: string -> DnssecOutcome, z: HostedZone): Row
  {
    var row := ZoneRow(profile, accountId, index, dnssec, z);
    row.(registered := VerdictAsWritten(index, row.domainName))
  }

  /** The script's row and the model's row agree in every column but
      `registered_in_route53`, and there they differ exactly for a zone whose
      name is in the partial set of a listing that was not read in full: the
      script writes YES where the model writes UNKNOWN. */
  lemma {:induction false} ZoneRowAsWrittenDiffers(profile: string, accountId: string, index: RegistrarIndex,
                                                   dnssec: string -> DnssecOutcome, z: HostedZone)
    ensures var code := ZoneRowAsWritten(profile, accountId, index, dnssec, z);
            var row := ZoneRow(profile, accountId, index, dnssec, z);
            && code.(registered := row.registered) == row
            && (code != row <==> !index.available && TrimDots(z.name) in index.domains)
            && (code != row ==> code.registered == Yes && row.registered == Unknown)
  {
    VerdictAsWrittenDiffers(index, TrimDots(z.name));
  }

  /** The rows of a sequence of zones: exactly one per zone, in order. */
  function ZoneRows(profile: string, accountId: string, index: RegistrarIndex,
                    dnssec: string -> DnssecOutcome, zones: seq<HostedZone>): (rows: seq<Row>)
  {
    seq(|zones|, i requires 0 <= i < |zones| => ZoneRow(profile, accountId, index, dnssec, zones[i]))
  }

  /** The canonical id of a zone: the last segment of its `Id` path. A row
      states its id as `LastSegment(z.id)` itself; the DNSSEC query log and
      the loop that builds it use this name, so that their proofs handle the
      id as one term rather than unfolding the segment search. */
  function ZoneId(z: HostedZone): string {
    LastSegment(z.id)
  }

  /** The number of private zones among `zones`. */
  function PrivateCount(zones: seq<HostedZone>): nat {
    if zones == [] then 0
    else PrivateCount(zones[..|zones| - 1]) + (if IsPrivate(zones[|zones| - 1]) then 1 else 0)
  }

  /** The zone ids a walk over `zones` sends to the DNSSEC query, in order: one
      query per public zone and none for a private one. */
  function QueriedIds(zones: seq<HostedZone>): (ids: seq<string>)
    ensures |ids| + PrivateCount(zones) == |zones|
  {
    if zones == [] then []
    else
      var last := zones[|zones| - 1];
      QueriedIds(zones[..|zones| - 1]) + (if IsPrivate(last) then [] else [ZoneId(last)])
  }

  /** Some public zone among `zones` has the id `id`. */
  predicate HasPublicZone(zones: seq<HostedZone>, id: string) {
    exists i :: 0 <= i < |zones| && !IsPrivate(zones[i]) && ZoneId(zones[i]) == id
  }

  /** An id is queried exactly when it is the id of a public zone. */
  lemma {:induction false} QueriedIdsMembers(zones: seq<HostedZone>, id: string)
    ensures id in QueriedIds(zones) <==> HasPublicZone(zones, id)
  {
    if zones != [] {
      var init, last := zones[..|zones| - 1], zones[|zones| - 1];
      var tail := if IsPrivate(last) then [] else [ZoneId(last)];
      assert QueriedIds(zones) == QueriedIds(init) + tail;
      assert id in QueriedIds(zones) <==> id in QueriedIds(init) || id in tail;
      QueriedIdsMembers(init, id);
      if HasPublicZone(init, id) {
        var i :| 0 <= i < |init| && !IsPrivate(init[i]) && ZoneId(init[i]) == id;
        assert zones[i] == init[i];
      }
      if HasPublicZone(zones, id) && id !in tail {
        var i :| 0 <= i < |zones| && !IsPrivate(zones[i]) && ZoneId(zones[i]) == id;
        assert i < |init| && init[i] == zones[i];
      }
    }
  }

  /** Adding a zone adds its row. */
  lemma {:induction false} ZoneRowsSnoc(profile: string, accountId: string, index: RegistrarIndex,
                     dnssec: string -> DnssecOutcome, zones: seq<HostedZone>, z: HostedZone)
    ensures ZoneRows(profile, accountId, index, dnssec, zones + [z])
            == ZoneRows(profile, accountId, index, dnssec, zones) + [ZoneRow(profile, accountId, index, dnssec, z)]
  {
    var a := ZoneRows(profile, accountId, index, dnssec, zones + [z]);
    var b := ZoneRows(profile, accountId, index, dnssec, zones) + [ZoneRow(profile, accountId, index, dnssec, z)];
    assert |a| == |b|;
    forall i | 0 <= i < |a| ensures a[i] == b[i] {
      if i < |zones| { assert (zones + [z])[i] == zones[i]; }
    }
  }

  /** The rows of two runs of zones are the rows of the first followed by
      those of the second. */
  lemma {:induction false} ZoneRowsAppend(profile: string, accountId: string, index: RegistrarIndex,
                     dnssec: string -> DnssecOutcome, xs: seq<HostedZone>, ys: seq<HostedZone>)
    ensures ZoneRows(profile, accountId, index, dnssec, xs + ys)
            == ZoneRows(profile, accountId, index, dnssec, xs) + ZoneRows(profile, accountId, index, dnssec, ys)
  {
    var a := ZoneRows(profile, accountId, index, dnssec, xs + ys);
    var b := ZoneRows(profile, accountId, index, dnssec, xs) + ZoneRows(profile, accountId, index, dnssec, ys);
    assert |a| == |b|;
    forall i | 0 <= i < |a| ensures a[i] == b[i] {
      if i < |xs| { assert (xs + ys)[i] == xs[i]; } else { assert (xs + ys)[i] == ys[i - |xs|]; }
    }
  }

  /** Adding a zone adds its query when it is public. */
  lemma {:induction false} QueriedIdsSnoc(zones: seq<HostedZone>, z: HostedZone)
    ensures QueriedIds(zones + [z]) == QueriedIds(zones) + (if IsPrivate(z) then [] else [ZoneId(z)])
  {
    assert (zones + [z])[..|zones|] == zones;
  }

  /** The queries of two runs of zones are those of the first followed by
      those of the second. */
  lemma {:induction false} QueriedIdsAppend(xs: seq<HostedZone>, ys: seq<HostedZone>)
    ensures QueriedIds(xs + ys) == QueriedIds(xs) + QueriedIds(ys)
  {
    if ys == [] {
      assert xs + ys == xs;
    } else {
      var init, last := ys[..|ys| - 1], ys[|ys| - 1];
      assert xs + ys == (xs + init) + [last];
      assert ys == init + [last];
      QueriedIdsSnoc(xs + init, last);
      QueriedIdsSnoc(init, last);
      QueriedIdsAppend(xs, init);
    }
  }

  /** The zones the paginator yields, page after page; a failed page adds none. */
  function ListedZones(pages: seq<ZonePage>): seq<HostedZone> {
    if pages == [] then []
    else
      var last := pages[|pages| - 1];
      ListedZones(pages[..|pages| - 1]) + (if last.ZonesListed? then last.zones else [])
  }

  /** A listed page adds its zones. */
  lemma {:induction false} ListedZonesStep(pages: seq<ZonePage>, i: nat)
    requires i < |pages| && pages[i].ZonesListed?
    ensures ListedZones(pages[..i + 1]) == ListedZones(pages[..i]) + pages[i].zones
  {
    assert pages[..i + 1][..i] == pages[..i];
  }

  /** The index of the first failed page, or |pages| when none fails. */
  function FirstFailure(pages: seq<ZonePage>): (k: nat)
    ensures k <= |pages|
    ensures forall j :: 0 <= j < k ==> pages[j].ZonesListed?
    ensures k < |pages| ==> pages[k].ZoneListingFailed?
  {
    if pages == [] || pages[0].ZoneListingFailed? then 0
    else 1 + FirstFailure(pages[1..])
  }

  /** What auditing one profile yields: no rows for an unknown profile; the
      error when the zone listing fails; otherwise one row per listed zone,
      with the profile's account id and registrar index. */
  function ProfileRows(profile: string, s: ProfileSession): ProfileResult
    requires RegistrarTerminates(s)
  {
    match s
    case ProfileNotFound => Rows([])
    case Session(identity, clientOk, replies, pages, dnssec) =>
      if FirstFailure(pages) < |pages| then Raised
      else Rows(ZoneRows(profile, AccountId(identity), Lookup(clientOk, replies), dnssec,
                         ListedZones(pages)))
  }

  /** The DNSSEC queries auditing one profile issues: those for the public
      zones listed before the listing ended or failed. */
  function DnssecQueries(s: ProfileSession): seq<string> {
    match s
    case ProfileNotFound => []
    case Session(_, _, _, pages, _) => QueriedIds(ListedZones(pages[..FirstFailure(pages)]))
  }

  /** The number of zones a profile's listing yields. */
  function ZoneCount(s: ProfileSession): nat {
    if s.ProfileNotFound? then 0 else |ListedZones(s.zonePages)|
  }

  /** The inner loop of `inventory_profile` over one page of zones: the row of
      every zone is appended to the rows so far, and the id of every public zone
      to the queries so far. */
  method AuditPage(profile: string, accountId: string, index: RegistrarIndex,
                   dnssec: string -> DnssecOutcome, zones: seq<HostedZone>,
                   rows0: seq<Row>, queried0: seq<string>)
    returns (rows: seq<Row>, queried: seq<string>)
    ensures rows == rows0 + ZoneRows(profile, accountId, index, dnssec, zones)
    ensures queried == queried0 + QueriedIds(zones)
  {
    rows, queried := rows0, queried0;
    var k := 0;
    while k < |zones|
      invariant 0 <= k <= |zones|
      invariant rows == rows0 + ZoneRows(profile, accountId, index, dnssec, zones[..k])
      invariant queried == queried0 + QueriedIds(zones[..k])
    {
      var hz := zones[k];
      assert zones[..k + 1] == zones[..k] + [hz];
      ZoneRowsSnoc(profile, accountId, index, dnssec, zones[..k], hz);
      QueriedIdsSnoc(zones[..k], hz);
      var hzId := ZoneId(hz);
      var domainName := TrimDots(hz.name);
      var privateZone := IsPrivate(hz);
      var dnssecStatus;
      if privateZone {
        dnssecStatus := NotSupportedPrivateZone;
      } else {
        dnssecStatus := DnssecStatus(dnssec(hzId));
        ConcatAssoc(queried0, QueriedIds(zones[..k]), [hzId]);
        queried := queried + [hzId];
      }
      var registered := Verdict(index, domainName);
      var row := Row(profile, accountId, hzId, domainName,
                     if privateZone then Private else Public,
                     registered, dnssecStatus);
      ConcatAssoc(rows0, ZoneRows(profile, accountId, index, dnssec, zones[..k]), [row]);
      rows := rows + [row];
      k := k + 1;
    }
    assert zones[..k] == zones;
  }

  /** `inventory_profile`: the audit of one profile, returning its result and
      the zone ids it sent to the DNSSEC query, in order. */
  method InventoryProfile(profile: string, session: ProfileSession)
    returns (result: ProfileResult, queried: seq<string>)
    requires RegistrarTerminates(session)
    ensures result == ProfileRows(profile, session)
    ensures queried == DnssecQueries(session)
  {
    if session.ProfileNotFound? {
      return Rows([]), [];
    }
    var accountId := AccountId(session.identity);
    var domains, available, requests := GetRegisteredDomains(session.registrarClientOk, session.registrarReplies);
    var index := RegistrarIndex(domains, available);
    var pages := session.zonePages;
    var rows: seq<Row> := [];
    queried := [];
    var i := 0;
    while i < |pages|
      invariant 0 <= i <= |pages|
      invariant forall j :: 0 <= j < i ==> pages[j].ZonesListed?
      invariant rows == ZoneRows(profile, accountId, index, session.dnssec, ListedZones(pages[..i]))
      invariant queried == QueriedIds(ListedZones(pages[..i]))
    {
      if pages[i].ZoneListingFailed? {
        assert FirstFailure(pages) == i;
        return Raised, queried;
      }
      ZoneRowsAppend(profile, accountId, index, session.dnssec, ListedZones(pages[..i]), pages[i].zones);
      QueriedIdsAppend(ListedZones(pages[..i]), pages[i].zones);
      rows, queried := AuditPage(profile, accountId, index, session.dnssec, pages[i].zones, rows, queried);
      ListedZonesStep(pages, i);
      i := i + 1;
    }
    assert pages[..i] == pages;
    assert FirstFailure(pages) == |pages|;
    return Rows(rows), queried;
  }

  /** The per-profile guarantees of the report: an unknown profile gives no
      rows, a failed listing the error, and otherwise one row per listed zone,
      in listing order: row i carries the profile name, the resolved account
      id, and the id and name of zone i. */
  lemma {:induction false} ProfileRowsShape(profile: string, s: ProfileSession)
    requires RegistrarTerminates(s)
    ensures s.ProfileNotFound? ==> ProfileRows(profile, s) == Rows([])
    ensures s.Session? ==>
              (ProfileRows(profile, s).Raised? <==> exists j :: 0 <= j < |s.zonePages| && s.zonePages[j].ZoneListingFailed?)
    ensures ProfileRows(profile, s).Rows? ==> |ProfileRows(profile, s).rows| == ZoneCount(s)
    ensures s.Session? && ProfileRows(profile, s).Rows? ==>
              var rows := ProfileRows(profile, s).rows;
              var zones := ListedZones(s.zonePages);
              |rows| == |zones| &&
              forall i :: 0 <= i < |rows| ==>
                rows[i].profile == profile && rows[i].accountId == AccountId(s.identity) &&
                rows[i].hostedZoneId == LastSegment(zones[i].id) &&
                rows[i].domainName == TrimDots(zones[i].name)
  {
  }

  /** The registrar verdict of every row of a profile: UNKNOWN for all of them
      when the registrar listing was not read in full, whatever the set holds;
      otherwise YES exactly for the names in the set and NO for the others. */
  lemma {:induction false} RegistrarVerdictRule(profile: string, s: ProfileSession)
    requires RegistrarTerminates(s)
    requires ProfileRows(profile, s).Rows?
    ensures var rows := ProfileRows(profile, s).rows;
            s.Session? ==>
            var index := Lookup(s.registrarClientOk, s.registrarReplies);
            forall i :: 0 <= i < |rows| ==>
              (!index.available ==> rows[i].registered == Unknown) &&
              (index.available ==> (rows[i].registered == Yes <==> rows[i].domainName in index.domains)) &&
              (index.available ==> (rows[i].registered == No <==> rows[i].domainName !in index.domains))
  {
  }

  /** Every private zone is reported as PRIVATE with NOT_SUPPORTED_PRIVATE_ZONE,
      every other zone (including one without `Config` or without
      `PrivateZone`) as PUBLIC with the status its DNSSEC query gave. */
  lemma {:induction false} PrivateZoneRule(profile: string, s: ProfileSession)
    requires RegistrarTerminates(s)
    requires s.Session? && ProfileRows(profile, s).Rows?
    ensures var rows := ProfileRows(profile, s).rows;
            var zones := ListedZones(s.zonePages);
            forall i :: 0 <= i < |rows| ==>
              (IsPrivate(zones[i]) ==> rows[i].zoneType == Private && rows[i].dnssecStatus == NotSupportedPrivateZone) &&
              (!IsPrivate(zones[i]) ==>
                 rows[i].zoneType == Public &&
                 rows[i].dnssecStatus == DnssecStatus(s.dnssec(LastSegment(zones[i].id))))
  {
  }

  /** The DNSSEC query is issued once per public zone and never for a private
      zone: the number of queries is the number of zones less the private ones,
      and a queried id always belongs to a public zone. */
  lemma {:induction false} DnssecOnlyForPublicZones(s: ProfileSession, id: string)
    requires s.Session? && FirstFailure(s.zonePages) == |s.zonePages|
    ensures |DnssecQueries(s)| == ZoneCount(s) - PrivateCount(ListedZones(s.zonePages))
    ensures id in DnssecQueries(s) <==> HasPublicZone(ListedZones(s.zonePages), id)
  {
    assert s.zonePages[..|s.zonePages|] == s.zonePages;
    QueriedIdsMembers(ListedZones(s.zonePages), id);
  }
}
