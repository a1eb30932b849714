# Route 53 DNSSEC inventory — a Dafny model

This project models the decision logic of the read-only Route 53 DNSSEC audit
script `src/route53_dnssec_inventory.py`. For each AWS profile in a list, the script:

- resolves the account id through the identity service;
- reads the account's Route 53 Domains registrations with marker pagination;
- walks the hosted-zone listing page by page;
- classifies every zone as public or private;
- asks for the DNSSEC status of public zones only;
- cross-references every zone name with the registrations;
- emits one report row per zone.

`main` concatenates the rows of all profiles, in profile order, into one report.

Every AWS call becomes an input value:

- the identity lookup is an `IdentityOutcome`;
- the registrar listing is a sequence of `ListDomainsReply` values, one per `list_domains` call;
- the hosted-zone paginator is a sequence of `ZonePage` values;
- the DNSSEC query is a function from zone id to `DnssecOutcome`;
- a profile name maps to a `ProfileSession`, which is `ProfileNotFound` when the profile does not exist.

Modules:

- `Common`: the `Option` type and the `UNKNOWN` sentinel.
- `Names`: the two string normalisations, trailing-dot stripping and the last path segment.
- `Identity`: `get_account_id`.
- `Dnssec`: `get_dnssec_status`.
- `Registrar`: `get_registered_domains`, an imperative marker loop proved against the specification function `Lookup`.
- `Inventory`: `inventory_profile`, nested imperative loops over pages and zones proved against `ProfileRows`.
- `Run`: the loop of `main` over the profiles, proved against `RunReport`, and the fixed report columns.

Most remote failures are turned into a sentinel value (UNKNOWN, NOT_CONFIGURED, a registrar index marked unavailable: its flag is False and its set is empty, or partial when a later `list_domains` page fails), but not all of them. These failures are not caught:

- a failure to build the Route 53 client;
- a failure of the hosted-zone paginator;
- a hosted zone without `Id` or `Name`.

Each of them escapes `inventory_profile` and `main`, so the run ends without writing a report. The model represents this as a `ZoneListingFailed` page, which gives `ProfileResult.Raised` and then `RunOutcome.Aborted`.

## Model

| member | source | states |
|---|---|---|
| Identity.AccountId | src/route53_dnssec_inventory.py:35-42 | The account id is the `Account` field of a successful lookup. It is UNKNOWN when the lookup failed or the field is missing. |
| Dnssec.DnssecStatus | src/route53_dnssec_inventory.py:73-82 | A response gives its nested `Status.Status`, or UNKNOWN when that is absent. DNSSECNotFound gives NOT_CONFIGURED. Any other error gives UNKNOWN. |
| Dnssec.DnssecStatusRange | src/route53_dnssec_inventory.py:75-82 | The status is always the reported state, NOT_CONFIGURED or UNKNOWN. |
| Names.TrimDots | src/route53_dnssec_inventory.py:106 | `rstrip(".")` never leaves a trailing dot. |
| Names.TrimDotsSpec | src/route53_dnssec_inventory.py:106 | The stripped name is a prefix of the input, and everything it drops is a dot. |
| Names.TrimDotsUnique | src/route53_dnssec_inventory.py:106 | Any dot-free-ended prefix followed only by dots is the stripped name, so the facts above characterise `rstrip(".")` completely. |
| Names.TrimDotsOfNormalised | src/route53_dnssec_inventory.py:62 | A name without a trailing dot is left unchanged. |
| Names.TrimDotsIdempotent | src/route53_dnssec_inventory.py:106 | Stripping twice equals stripping once. |
| Names.TrimDotsIgnoresTrailingDot | src/route53_dnssec_inventory.py:106 | A zone name "x." and a registrar name "x" normalise to the same string. |
| Names.LastSegment | src/route53_dnssec_inventory.py:105 | `split("/")[-1]` contains no '/'. |
| Names.LastSegmentSpec | src/route53_dnssec_inventory.py:105 | The segment is a suffix of the id and is either the whole id or preceded by a '/'. |
| Names.LastSegmentUnique | src/route53_dnssec_inventory.py:105 | Any slash-free suffix that is the whole id or preceded by a '/' is the segment, so the facts above characterise it completely. |
| Names.LastSegmentOfPlainId | src/route53_dnssec_inventory.py:105 | An id without '/' is returned unchanged. |
| Names.LastSegmentOfHostedZonePath | src/route53_dnssec_inventory.py:105 | "/hostedzone/Z" gives "Z". |
| Registrar.LastReply | src/route53_dnssec_inventory.py:55-68 | The walk stops at the first reply that failed or carries no non-empty marker. Every reply before it continued. |
| Registrar.AddPageNames | src/route53_dnssec_inventory.py:61-64 | The loop over a page's entries adds exactly the page's non-empty normalised names to the set. |
| Registrar.GetRegisteredDomains | src/route53_dnssec_inventory.py:45-70 | The walk's set and flag equal `Lookup`. The calls it issues carry exactly the markers `Requests` lists, up to the reply that ends the walk. No call is issued when the client cannot be built. |
| Registrar.RequestsSpec | src/route53_dnssec_inventory.py:57-66 | The first `list_domains` call carries no marker, and call j+1 carries the `NextPageMarker` of reply j. |
| Registrar.LookupMembers | src/route53_dnssec_inventory.py:52-70 | A name is in the set exactly when the client was built, the name is non-empty, and some entry of a reply up to the one that ends the walk normalises to it. |
| Registrar.LookupNormalised | src/route53_dnssec_inventory.py:62-64 | Every gathered name is non-empty and has no trailing dot. |
| Registrar.LookupAvailable | src/route53_dnssec_inventory.py:47-70 | The flag is true exactly when the client was built and the reply that ends the walk is a page, not an error. |
| Registrar.LookupAfterFailure | src/route53_dnssec_inventory.py:48-59 | On failure the set holds only the names of the pages read before the failing call. It is empty when the client could not be built. |
| Registrar.PageOfTwo | src/route53_dnssec_inventory.py:61-64 | A page of two already-normalised names adds both. |
| Registrar.ThreePagesOfTwo | src/route53_dnssec_inventory.py:55-70 | Three marker-linked pages of two distinct names each give an available index of six names. |
| Inventory.Verdict | src/route53_dnssec_inventory.py:116-119 | The corrected verdict: UNKNOWN exactly when the registrar read failed; otherwise YES exactly for a name in the set, NO exactly for one outside it. |
| Inventory.VerdictAsWritten | src/route53_dnssec_inventory.py:116-119 | The verdict as Python parses the expression: a name in the set is YES even after a failed read. Otherwise NO when the read succeeded and UNKNOWN when it failed. |
| Inventory.VerdictAsWrittenDiffers | src/route53_dnssec_inventory.py:116-119 | The two verdicts differ exactly for a name in the set of a failed read. There the code says YES where the intended rule says UNKNOWN. |
| Inventory.PartialListingSaysYes | src/route53_dnssec_inventory.py:116-119 | A listing whose second call fails still lists "example.com". The expression as written reports the zone "example.com." as YES, while the corrected rule reports UNKNOWN. |
| Inventory.ZoneRowFacts | src/route53_dnssec_inventory.py:104-131 | A zone's row carries the profile and account id, the slash-free id and the dot-free name. It is PRIVATE exactly for a private zone, with NOT_SUPPORTED_PRIVATE_ZONE; otherwise it is PUBLIC with the status of the DNSSEC query for its id. Its verdict follows the corrected `Verdict` (see `ZoneRowAsWrittenDiffers` for the code's row). |
| Inventory.ZoneRowAsWrittenDiffers | src/route53_dnssec_inventory.py:116-131 | The row the code writes (verdict as written) agrees with the model's row in every column but `registered_in_route53`. It differs exactly for a zone whose name is in the partial set of a failed read, where the code writes YES and the model UNKNOWN. |
| Inventory.QueriedIdsMembers | src/route53_dnssec_inventory.py:108-114 | An id is sent to the DNSSEC query exactly when it is the id of a public zone. |
| Inventory.AuditPage | src/route53_dnssec_inventory.py:104-131 | The inner loop appends exactly one row per zone of the page, in order. It appends the id of each public zone, and only those, to the queries. |
| Inventory.InventoryProfile | src/route53_dnssec_inventory.py:85-138 | The audit equals `ProfileRows` (with the corrected verdict) and issues exactly the queries `DnssecQueries` lists. A missing profile gives no rows. A failed listing raises after the queries for the zones listed before it. |
| Inventory.ProfileRowsShape | src/route53_dnssec_inventory.py:89-131 | A missing profile yields no rows. A session raises exactly when some listing page failed. Otherwise there is one row per listed zone, in listing order: row i carries the profile name, the resolved account id, and the normalised id and name of zone i. |
| Inventory.RegistrarVerdictRule | src/route53_dnssec_inventory.py:116-119 | For the corrected verdict: after a failed registrar read every row is UNKNOWN, whatever the set contains. After a full read a row is YES exactly when its name is in the set and NO exactly when it is not. |
| Inventory.PrivateZoneRule | src/route53_dnssec_inventory.py:108-114 | Row i of a profile is PRIVATE with NOT_SUPPORTED_PRIVATE_ZONE exactly for a private zone. A zone without `Config` or `PrivateZone` is PUBLIC with its queried status. |
| Inventory.DnssecOnlyForPublicZones | src/route53_dnssec_inventory.py:111-114 | For a session whose listing has no failed page, the number of DNSSEC queries is the number of zones minus the private ones. A queried id always belongs to a public zone. |
| Run.RunInventory | src/route53_dnssec_inventory.py:141-147 | The loop over the profiles equals `RunReport`: each profile's rows are appended in profile order, and the first audit that raises aborts the run. |
| Run.RunReportStep | src/route53_dnssec_inventory.py:144-145 | Auditing one more profile extends the report by that profile's rows, or aborts it. |
| Run.AbortedStays | src/route53_dnssec_inventory.py:144-145 | Once aborted, a run stays aborted whatever profiles follow. |
| Run.RunAbortsIff | src/route53_dnssec_inventory.py:144-145 | The run aborts exactly when some profile's audit raises. |
| Run.RunRowCount | src/route53_dnssec_inventory.py:144-145 | The report holds as many rows as the profiles' listings hold zones. |
| Run.RunConcat | src/route53_dnssec_inventory.py:144-145 | The run over two profile lists is the first run's rows followed by the second's. |
| Run.MissingProfileAddsNothing | src/route53_dnssec_inventory.py:89-93 | A profile that cannot be found leaves the report as it was. |
| Run.RunRowsFromProfiles | src/route53_dnssec_inventory.py:121-125 | Every row of the report names one of the run's found profiles and carries that profile's account id. |
| Run.RowRecord | src/route53_dnssec_inventory.py:121-131 | A row has one value per report column, in the order of `FieldNames`: profile, account id, zone id, domain name, zone type, verdict, DNSSEC status. `zone_type` is PUBLIC or PRIVATE, PRIVATE exactly for a private zone. `registered_in_route53` is YES exactly for a Yes verdict, NO exactly for a No verdict and UNKNOWN exactly for an unknown one. |
| Run.RowRecordInjective | src/route53_dnssec_inventory.py:121-131 | Distinct rows give distinct records, so the layout loses nothing. |
| Run.RecordRow | src/route53_dnssec_inventory.py:121-131 | A record that reads back yields a row whose record it is. |
| Run.RecordRowRoundTrip | src/route53_dnssec_inventory.py:121-131 | Every row's record reads back as that row. |

## Left out

- The boto3 and botocore calls (sessions, clients, the STS, Route 53 and Route 53 Domains requests) are foreign library calls. They are modelled only by the outcomes they return.
- Printing of progress messages is not modelled, because it is logging only.
- Creating the output directory and writing the CSV file is file I/O and is not modelled. Only the column order (`Run.FieldNames`) and the layout of one row (`Run.RowRecord`) are.
- The hard-coded profile list is a parameter of `Run.RunInventory`.
- The DNSSEC service is a pure function of the zone id, so it answers a repeated query the same way. Timing, retries and throttling are not modelled.
- The model assumes every hosted zone has an `Id` and a `Name`. A zone without them raises in the code, which the model folds into a failed listing page. The queries already issued for earlier zones on that page are then not part of `DnssecQueries`.
- A failure to build the Route 53 client (which happens before the registrar walk) and a failure of the hosted-zone paginator are both modelled as a failed page. The model does not say how many registrar calls were made before such a failure.
- Registrar.GetRegisteredDomains: requires that the registrar eventually fails or stops handing out markers (`WalkEnds`). Against a service that keeps returning markers, the code loops forever, and that non-termination is not modelled.
- Inventory.InventoryProfile: requires `RegistrarTerminates` for the same reason.
- Inventory.InventoryProfile: its rows use the corrected verdict `Verdict`, not the expression as written at lines 116-119 (`VerdictAsWritten`). For a zone whose name is in the partial set of a failed registrar read, the code writes YES where these rows say UNKNOWN; `ZoneRowAsWrittenDiffers` states that this is the only difference.
- Inventory.ZoneRowFacts: states the row with the corrected verdict `Verdict`; the code's row is `ZoneRowAsWritten`, which differs only as `ZoneRowAsWrittenDiffers` says.
- Run.RunInventory: the report is built from those rows, so the same verdict difference carries over to the whole report.
- Inventory.ProfileRowsShape, Inventory.RegistrarVerdictRule and Inventory.PrivateZoneRule: likewise describe the rows with the corrected verdict.
- Run.RunInventory: requires `AllTerminate` for the same reason.
- Name comparison is exact, character by character, as in the code. Case folding, punycode and Unicode normalisation do not occur in the code and are not modelled.

## Findings

| source | as written | input that shows it | evidently intended | confidence | as-written member | corrected member |
|---|---|---|---|---|---|---|
| src/route53_dnssec_inventory.py:116-119 | `"YES" if name in domains else "NO" if ok else "UNKNOWN"` parses as `YES if in_set else (NO if ok else UNKNOWN)`. A name in the partial set of a failed registrar read is reported YES. | The first `list_domains` page lists "example.com" with marker "p2", and the second call fails. The zone "example.com." is reported YES. | UNKNOWN for every zone whenever the registrar read failed; YES or NO only after a full read | high; not executed | Inventory.VerdictAsWritten, Inventory.PartialListingSaysYes, Inventory.ZoneRowAsWrittenDiffers | Inventory.Verdict |
