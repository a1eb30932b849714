/** The whole run (`main`): audit every profile in order, concatenate their
    rows, and lay each row out under the report's fixed columns. */
module Run {
  import opened Common
  import opened Identity
  import opened Inventory

  /** The report's columns, in order. */
  const FieldNames: seq<string> := [
    "profile", "account_id", "hosted_zone_id", "domain_name",
    "zone_type", "registered_in_route53", "dnssec_status"
  ]

  /** The outcome of a run: the rows of every profile, or an error that escaped
      one profile's audit, in which case no report is written. */
  datatype RunOutcome = Report(rows: seq<Row>) | Aborted

  /** Every profile's registrar walk ends. */
  predicate AllTerminate(profiles: seq<string>, sessions: string -> ProfileSession) {
    forall i :: 0 <= i < |profiles| ==> RegistrarTerminates(sessions(profiles[i]))
  }

  /** What the run yields over `profiles`: the audits in profile order, the
      rows of each appended after those before it, stopping at the first audit
      that raised. */
  function RunReport(profiles: seq<string>, sessions: string -> ProfileSession): RunOutcome
    requires AllTerminate(profiles, sessions)
  {
    if profiles == [] then Report([])
    else
      var init, last := profiles[..|profiles| - 1], profiles[|profiles| - 1];
      assert forall i :: 0 <= i < |init| ==> init[i] == profiles[i];
      match RunReport(init, sessions)
      case Aborted => Aborted
      case Report(rows) =>
        match ProfileRows(last, sessions(last))
        case Raised => Aborted
        case Rows(more) => Report(rows + more)
  }

  /** The profiles before `i` also all terminate. */
  lemma {:induction false} AllTerminatePrefix(profiles: seq<string>, sessions: string -> ProfileSession, i: nat)
    requires AllTerminate(profiles, sessions) && i <= |profiles|
    ensures AllTerminate(profiles[..i], sessions)
  {
    assert forall j :: 0 <= j < i ==> profiles[..i][j] == profiles[j];
  }

  /** One more profile: the run over the first `i + 1` profiles extends the
      run over the first `i` by the audit of profile `i`. */
  lemma {:induction false} RunReportStep(profiles: seq<string>, sessions: string -> ProfileSession, i: nat)
    requires AllTerminate(profiles, sessions) && i < |profiles|
    ensures AllTerminate(profiles[..i], sessions) && AllTerminate(profiles[..i + 1], sessions)
    ensures RunReport(profiles[..i + 1], sessions) ==
              match RunReport(profiles[..i], sessions)
              case Aborted => Aborted
              case Report(rows) =>
                match ProfileRows(profiles[i], sessions(profiles[i]))
                case Raised => Aborted
                case Rows(more) => Report(rows + more)
  {
    AllTerminatePrefix(profiles, sessions, i);
    AllTerminatePrefix(profiles, sessions, i + 1);
    assert profiles[..i + 1][..i] == profiles[..i];
  }

  /** Once the run has aborted it stays aborted, whatever profiles follow. */
  lemma {:induction false} AbortedStays(profiles: seq<string>, sessions: string -> ProfileSession, i: nat)
    requires AllTerminate(profiles, sessions) && i <= |profiles|
    requires AllTerminate(profiles[..i], sessions) && RunReport(profiles[..i], sessions).Aborted?
    ensures RunReport(profiles, sessions).Aborted?
  {
    if i == |profiles| {
      assert profiles[..i] == profiles;
    } else {
      var init := profiles[..|profiles| - 1];
      AllTerminatePrefix(profiles, sessions, |profiles| - 1);
      assert init[..i] == profiles[..i];
      AbortedStays(init, sessions, i);
    }
  }

  /** `main`: audit the profiles one after the other and gather their rows. */
  method RunInventory(profiles: seq<string>, sessions: string -> ProfileSession) returns (outcome: RunOutcome)
    requires AllTerminate(profiles, sessions)
    ensures outcome == RunReport(profiles, sessions)
  {
    var allRows: seq<Row> := [];
    var i := 0;
    while i < |profiles|
      invariant 0 <= i <= |profiles|
      invariant AllTerminate(profiles[..i], sessions)
      invariant RunReport(profiles[..i], sessions) == Report(allRows)
    {
      var profile := profiles[i];
      var result, _ := InventoryProfile(profile, sessions(profile));
      RunReportStep(profiles, sessions, i);
      if result.Raised? {
        AbortedStays(profiles, sessions, i + 1);
        return Aborted;
      }
      allRows := allRows + result.rows;
      i := i + 1;
    }
    assert profiles[..i] == profiles;
    return Report(allRows);
  }

  /** Some profile's audit raises. */
  predicate SomeProfileRaises(profiles: seq<string>, sessions: string -> ProfileSession)
    requires AllTerminate(profiles, sessions)
  {
    exists i :: 0 <= i < |profiles| && ProfileRows(profiles[i], sessions(profiles[i])).Raised?
  }

  /** The run aborts exactly when the audit of some profile raises. */
  lemma {:induction false} RunAbortsIff(profiles: seq<string>, sessions: string -> ProfileSession)
    requires AllTerminate(profiles, sessions)
    ensures RunReport(profiles, sessions).Aborted? <==> SomeProfileRaises(profiles, sessions)
  {
    if profiles != [] {
      var init, last := profiles[..|profiles| - 1], profiles[|profiles| - 1];
      AllTerminatePrefix(profiles, sessions, |profiles| - 1);
      RunAbortsIff(init, sessions);
      if SomeProfileRaises(init, sessions) {
        var i :| 0 <= i < |init| && ProfileRows(init[i], sessions(init[i])).Raised?;
        assert profiles[i] == init[i];
      }
      if SomeProfileRaises(profiles, sessions) && !ProfileRows(last, sessions(last)).Raised? {
        var i :| 0 <= i < |profiles| && ProfileRows(profiles[i], sessions(profiles[i])).Raised?;
        assert i < |init| && init[i] == profiles[i];
      }
    }
  }

  /** `row` could have been produced by the audit of one of `profiles` that was
      found: it carries that profile's name and the account id its identity
      lookup gave. */
  predicate FromProfile(profiles: seq<string>, sessions: string -> ProfileSession, row: Row) {
    exists i :: 0 <= i < |profiles| && row.profile == profiles[i] &&
                sessions(profiles[i]).Session? &&
                row.accountId == AccountId(sessions(profiles[i]).identity)
  }

  /** Every row of a report comes from one of the run's profiles that was
      found, under that profile's name and account id. */
  lemma {:induction false} RunRowsFromProfiles(profiles: seq<string>, sessions: string -> ProfileSession)
    requires AllTerminate(profiles, sessions)
    requires RunReport(profiles, sessions).Report?
    ensures forall k :: 0 <= k < |RunReport(profiles, sessions).rows| ==>
              FromProfile(profiles, sessions, RunReport(profiles, sessions).rows[k])
  {
    if profiles != [] {
      var init, last := profiles[..|profiles| - 1], profiles[|profiles| - 1];
      AllTerminatePrefix(profiles, sessions, |profiles| - 1);
      RunRowsFromProfiles(init, sessions);
      ProfileRowsShape(last, sessions(last));
      var rows := RunReport(init, sessions).rows;
      var more := ProfileRows(last, sessions(last)).rows;
      forall k | 0 <= k < |rows + more|
        ensures FromProfile(profiles, sessions, (rows + more)[k])
      {
        if k < |rows| {
          assert (rows + more)[k] == rows[k];
          var i :| 0 <= i < |init| && rows[k].profile == init[i] &&
                   sessions(init[i]).Session? &&
                   rows[k].accountId == AccountId(sessions(init[i]).identity);
          assert profiles[i] == init[i];
        } else {
          assert (rows + more)[k] == more[k - |rows|];
          assert sessions(last).Session?;
          assert profiles[|profiles| - 1] == last;
        }
      }
    }
  }

  /** The number of zones the profiles' listings yield, summed in order. */
  function TotalZones(profiles: seq<string>, sessions: string -> ProfileSession): nat {
    if profiles == [] then 0
    else TotalZones(profiles[..|profiles| - 1], sessions) + ZoneCount(sessions(profiles[|profiles| - 1]))
  }

  /** A report holds one row per listed zone of every profile, and a profile
      that was not found adds no zone. */
  lemma {:induction false} RunRowCount(profiles: seq<string>, sessions: string -> ProfileSession)
    requires AllTerminate(profiles, sessions)
    requires RunReport(profiles, sessions).Report?
    ensures |RunReport(profiles, sessions).rows| == TotalZones(profiles, sessions)
  {
    if profiles != [] {
      var init, last := profiles[..|profiles| - 1], profiles[|profiles| - 1];
      AllTerminatePrefix(profiles, sessions, |profiles| - 1);
      RunRowCount(init, sessions);
      ProfileRowsShape(last, sessions(last));
    }
  }

  /** The run over two lists of profiles is the run over the first followed by
      the run over the second: rows come in the order of the profiles. */
  lemma {:induction false} RunConcat(xs: seq<string>, ys: seq<string>, sessions: string -> ProfileSession)
    requires AllTerminate(xs + ys, sessions)
    ensures AllTerminate(xs, sessions) && AllTerminate(ys, sessions)
    ensures RunReport(xs + ys, sessions) ==
              match RunReport(xs, sessions)
              case Aborted => Aborted
              case Report(a) =>
                match RunReport(ys, sessions)
                case Aborted => Aborted
                case Report(b) => Report(a + b)
  {
    assert forall i :: 0 <= i < |xs| ==> (xs + ys)[i] == xs[i];
    assert forall i :: 0 <= i < |ys| ==> (xs + ys)[|xs| + i] == ys[i];
    if ys == [] {
      assert xs + ys == xs;
    } else {
      var init, last := ys[..|ys| - 1], ys[|ys| - 1];
      assert (xs + ys)[..|xs + ys| - 1] == xs + init;
      assert (xs + ys)[|xs + ys| - 1] == last;
      AllTerminatePrefix(xs + ys, sessions, |xs + ys| - 1);
      AllTerminatePrefix(ys, sessions, |ys| - 1);
      RunConcat(xs, init, sessions);
      match RunReport(xs, sessions)
      case Aborted =>
      case Report(a) =>
        match RunReport(init, sessions)
        case Aborted =>
        case Report(b) =>
          match ProfileRows(last, sessions(last))
          case Raised =>
          case Rows(more) => ConcatAssoc(a, b, more);
    }
  }

  /** A profile that cannot be found leaves the run as it was. */
  lemma {:induction false} MissingProfileAddsNothing(profiles: seq<string>, sessions: string -> ProfileSession, p: string)
    requires AllTerminate(profiles + [p], sessions)
    requires sessions(p).ProfileNotFound?
    ensures AllTerminate(profiles, sessions)
    ensures RunReport(profiles + [p], sessions) == RunReport(profiles, sessions)
  {
    var all := profiles + [p];
    assert all[..|all| - 1] == profiles;
    AllTerminatePrefix(all, sessions, |profiles|);
    ProfileRowsShape(p, sessions(p));
    match RunReport(profiles, sessions)
    case Aborted =>
    case Report(rows) => assert rows + [] == rows;
  }

  /** The text of the `zone_type` column. */
  function ZoneTypeText(t: ZoneType): string {
    match t
    case Public => "PUBLIC"
    case Private => "PRIVATE"
  }

  /** The text of the `registered_in_route53` column. */
  function RegistrationText(r: Registration): string {
    match r
    case Yes => "YES"
    case No => "NO"
    case Unknown => UnknownText
  }

  /** The record of a row: its values under FieldNames, in column order. The
      `zone_type` column is PUBLIC or PRIVATE and the `registered_in_route53`
      column YES, NO or UNKNOWN. */
  function RowRecord(row: Row): (fields: seq<string>)
    ensures |fields| == |FieldNames|
    ensures fields[0] == row.profile && fields[1] == row.accountId
    ensures fields[2] == row.hostedZoneId && fields[3] == row.domainName
    ensures fields[6] == row.dnssecStatus
    ensures fields[4] in {"PUBLIC", "PRIVATE"} && fields[5] in {"YES", "NO", "UNKNOWN"}
    ensures fields[4] == "PRIVATE" <==> row.zoneType == Private
    ensures fields[5] == "YES" <==> row.registered == Yes
    ensures fields[5] == "NO" <==> row.registered == No
    ensures fields[5] == "UNKNOWN" <==> row.registered == Unknown
  {
    [row.profile, row.accountId, row.hostedZoneId, row.domainName,
     ZoneTypeText(row.zoneType), RegistrationText(row.registered), row.dnssecStatus]
  }

  /** No information is lost in a record: two rows with the same record are
      the same row. */
  lemma {:induction false} RowRecordInjective(a: Row, b: Row)
    requires RowRecord(a) == RowRecord(b)
    ensures a == b
  {
    assert RowRecord(a)[4] == RowRecord(b)[4];
    assert RowRecord(a)[5] == RowRecord(b)[5];
  }

  /** Reads a record back: the row whose record it is, if any. */
  function RecordRow(fields: seq<string>): (r: Option<Row>)
    ensures r.Some? ==> |fields| == |FieldNames| && RowRecord(r.value) == fields
  {
    if |fields| != |FieldNames| then None
    else
      var zoneType := if fields[4] == "PUBLIC" then Some(Public)
                      else if fields[4] == "PRIVATE" then Some(Private) else None;
      var registered := if fields[5] == "YES" then Some(Yes)
                        else if fields[5] == "NO" then Some(No)
                        else if fields[5] == UnknownText then Some(Unknown) else None;
      if zoneType.None? || registered.None? then None
      else
        var row := Row(fields[0], fields[1], fields[2], fields[3],
                       zoneType.value, registered.value, fields[6]);
        assert RowRecord(row) == fields;
        Some(row)
  }

  /** Every record reads back as the row it was made from. */
  lemma {:induction false} RecordRowRoundTrip(row: Row)
    ensures RecordRow(RowRecord(row)) == Some(row)
  {
  }
}
